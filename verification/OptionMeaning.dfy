/** What the values of the option scanner mean, in terms of optstring, the table of long
    options and the elements alone (src/unistd/getopt.c). */
module OptionMeaning {

  import opened Getopt

  // ---- short options ----

  /** optstring has its first `c` at `k`. */
  predicate FirstAt(short: string, c: char, k: nat) {
    k < |short| && short[k] == c && c !in short[..k]
  }

  lemma {:induction false} StrChrFrom(short: string, c: char, k: nat)
    requires FirstAt(short, c, k)
    ensures StrChr(short, c) == short[k..]
  {
    if k > 0 {
      assert short[..k][0] == short[0];
      assert short[1..][..k - 1] == short[..k][1..];
      assert short[k..] == short[1..][k - 1..];
      StrChrFrom(short[1..], c, k - 1);
    }
  }

  /** What one call makes of the first of the characters `cs` in the element `a[at]`,
      read off optstring. A character that is not in it, `:` and `;` give `?`. One with
      no colon behind it gives itself. Both go on with the next character, or with the
      next element behind the last one. A character with a colon gives itself with the
      text behind it as argument. Without such text it takes the next element if one
      colon follows, and no argument if two do. At the end of argv the argument is
      missing, which gives `:` if optstring starts with one and `?` otherwise. */
  lemma {:induction false} CharacterMeans(opts: Options, a: seq<Arg>, at: int, cs: string, e: Event, optind: int,
                                          nextchar: Arg, before: int, optopt: int)
    requires CharacterHandled(opts, a, at, cs, e, optind, nextchar, before, optopt)
    ensures var c, short := cs[0], opts.short;
            c !in short || c == ':' || c == ';' ==>
              && e == Event('?' as int, Null) && optopt == c as int
              && nextchar == Str(cs[1..]) && optind == at + if |cs| == 1 then 1 else 0
    ensures forall k: nat ::
              var c, short := cs[0], opts.short;
              var missing := if ":" <= short then ':' as int else '?' as int;
              FirstAt(short, c, k) && c != ':' && c != ';'
              && !(c == 'W' && k + 1 < |short| && short[k + 1] == ';' && opts.long.Long?) ==>
                if k + 1 == |short| || short[k + 1] != ':' then
                  && e == Event(c as int, Null) && optopt == c as int
                  && nextchar == Str(cs[1..]) && optind == at + if |cs| == 1 then 1 else 0
                else
                  && nextchar == Null
                  && if |cs| > 1 then e == Event(c as int, Str(cs[1..])) && optind == at + 1 && optopt == c as int
                     else if k + 2 < |short| && short[k + 2] == ':' then
                       e == Event(c as int, Null) && optind == at + 1 && optopt == c as int
                     else if at + 1 < |a| then
                       e == Event(c as int, a[at + 1]) && optind == at + 2 && optopt == c as int
                     else e == Event(missing, Null) && optind == at + 1 && optopt == missing
  {
    var c, short := cs[0], opts.short;
    hide WordStep, LongReported;
    forall k: nat | FirstAt(short, c, k)
      ensures StrChr(short, c) == short[k..]
    {
      StrChrFrom(short, c, k);
    }
  }

  /** A lookup leaves the value of the option found in optopt, unless that set a flag, and
      zero when it finds none. */
  predicate LeftInOptopt(opts: Options, text: string, longOnly: bool, code: int, before: int, optopt: int)
    requires opts.long.Long?
  {
    match Find(opts.long.options, text[..NameLength(text)], longOnly)
    case Found(i) =>
      var o := opts.long.options[i];
      optopt == if code == 0 && o.flag.Some? then before else o.val
    case _ => optopt == 0
  }

  /** The character `W` where optstring has `W;`: the text behind it, or else the next
      element, is looked up as a long option. */
  lemma {:induction false} WordMeans(opts: Options, a: seq<Arg>, at: int, cs: string, e: Event, optind: int,
                                     nextchar: Arg, before: int, optopt: int, k: nat)
    requires CharacterHandled(opts, a, at, cs, e, optind, nextchar, before, optopt)
    requires cs[0] == 'W' && opts.long.Long?
    requires FirstAt(opts.short, 'W', k) && k + 1 < |opts.short| && opts.short[k + 1] == ';'
    ensures |cs| > 1 ==>
              && nextchar == Null && NameStep(opts, cs[1..], false, false, a[at + 1..]) == Some((e, optind - at))
              && (e.code != -1 ==> LeftInOptopt(opts, cs[1..], false, e.code, before, optopt))
    ensures |cs| == 1 && at + 1 == |a| ==>
              && e == Event(if ":" <= opts.short then ':' as int else '?' as int, Null) && optopt == 'W' as int
              && nextchar == Str("") && optind == at + 1
    ensures |cs| == 1 && at + 1 < |a| && a[at + 1].Str? ==>
              && nextchar == Null
              && NameStep(opts, a[at + 1].s, false, false, a[at + 2..]) == Some((e, optind - at - 1))
              && (e.code != -1 ==> LeftInOptopt(opts, a[at + 1].s, false, e.code, before, optopt))
  {
    hide NameStep, Find, NameLength, StrChr;
    StrChrFrom(opts.short, 'W', k);
    assert "W;" <= opts.short[k..];
    if |cs| == 1 && at + 1 < |a| {
      assert a[at + 1..][1..] == a[at + 2..];
    }
  }

  // ---- long options ----

  /** The option a name stands for: the first one with that name; where none has it, the
      first one whose name starts with it, if every later one that does is the same
      apart from its name, and getopt_long_only finds no later one at all. */
  lemma {:induction false} FindMeans(options: seq<LongOption>, name: string, longOnly: bool)
    ensures Find(options, name, longOnly) == NotFound
       <==> forall k :: 0 <= k < |options| ==> !(name <= options[k].name)
    ensures forall i: nat :: Find(options, name, longOnly) == Found(i) <==>
              && i < |options| && name <= options[i].name
              && if exists k :: 0 <= k < |options| && options[k].name == name then
                   options[i].name == name && forall j :: 0 <= j < i ==> options[j].name != name
                 else
                   && (forall j :: 0 <= j < i ==> !(name <= options[j].name))
                   && (forall j :: i < j < |options| && name <= options[j].name ==>
                         !longOnly && options[j].(name := name) == options[i].(name := name))
  {
    var exact, prefixed := FirstExact(options, name, 0), FirstPrefixed(options, name, 0);
    assert forall k :: 0 <= k < |options| && options[k].name == name ==> name <= options[k].name;
  }

  /** A text of which `n` characters are the name, and what it brings. The value of an
      option is 0 if it sets a flag. Its argument is the text behind `=`, which an option
      without arguments refuses; without `=` it is the next element where an argument is
      required, and none where it is not. A name that stands for no option gives `?`. */
  lemma {:induction false} NameMeans(opts: Options, text: string, n: nat, longOnly: bool, following: seq<Arg>)
    requires opts.long.Long?
    requires n <= |text| && '=' !in text[..n] && (n < |text| ==> text[n] == '=')
    ensures var step := NameStep(opts, text, longOnly, false, following);
            match Find(opts.long.options, text[..n], longOnly)
            case Found(i) =>
              var o := opts.long.options[i];
              var code := if o.flag.Some? then 0 else o.val;
              var missing := if ":" <= opts.short then ':' as int else '?' as int;
              if n < |text| then
                step == if o.hasArg == NoArgument then Some((Event('?' as int, Null), 1))
                        else Some((Event(code, Str(text[n + 1..]), Some(i), code == -1), 1))
              else if o.hasArg == RequiredArgument then
                step == if following == [] then Some((Event(missing, Null), 1))
                        else Some((Event(code, following[0], Some(i), code == -1), 2))
              else step == Some((Event(code, Null, Some(i), code == -1), 1))
            case _ => step == Some((Event('?' as int, Null), 1))
  {
    hide Find;
    var m := NameLength(text);
    assert forall k :: 0 <= k < n ==> text[..n][k] == text[k];
    assert m == n;
  }

  // ---- elements ----

  /** An element handled as a whole is a non-option where those are returned in order, or
      starts with `--`, or with `-` for getopt_long_only; the text behind these is
      looked up. */
  lemma {:induction false} ElementMeans(opts: Options, inOrder: bool, a: seq<Arg>, at: int, e: Event, optind: int,
                                        before: int, optopt: int)
    requires ElementHandled(opts, inOrder, a, at, e, optind, before, optopt)
    ensures a[at].Str? && a[at].s != "--"
    ensures var s := a[at].s;
            if s == "" || s == "-" || s[0] != '-' then
              inOrder && e == Event(1, Str(s)) && optind == at + 1 && optopt == before
            else
              && opts.long.Long? && (s[1] == '-' || (opts.long.longOnly && (|s| > 2 || s[1] !in opts.short)))
              && var text := if s[1] == '-' then s[2..] else s[1..];
                 && NameStep(opts, text, opts.long.longOnly, false, a[at + 1..]) == Some((e, optind - at))
                 && (e.code != -1 ==> LeftInOptopt(opts, text, opts.long.longOnly, e.code, before, optopt))
  {
    hide Find, NameLength, LongEvent;
  }

  /** An element entered as short options starts with one `-` and has a character behind
      it. Where there are long options, it is not one of them: for getopt_long_only, it
      is a single character of optstring, or starts with one and names no option. */
  lemma {:induction false} EnteredMeans(opts: Options, a: seq<Arg>, at: int, cs: string)
    requires Entered(opts, a, at, cs)
    ensures a[at].Str? && |a[at].s| > 1 && a[at].s[0] == '-' && a[at].s != "--" && cs == a[at].s[1..]
    ensures opts.long.Long? ==>
              && cs[0] != '-'
              && (opts.long.longOnly ==>
                    && cs[0] in opts.short
                    && (|cs| == 1 || Find(opts.long.options, cs[..NameLength(cs)], true) == NotFound))
  {
    hide Find, NameLength, LongEvent;
  }

  /** A non-option is passed over, returned or the end of the scan, by the ordering. */
  lemma {:induction false} ScanNonOption(opts: Options, s: string, rest: seq<Arg>)
    requires s == "" || s == "-" || s[0] != '-'
    ensures var args, t := [Str(s)] + rest, Scan(Permute, opts, rest);
            Scan(Permute, opts, args) == Outcome(t.opts, [Str(s)] + t.nonopts, t.rest, t.events)
    ensures Scan(RequireOrder, opts, [Str(s)] + rest) == Outcome([], [], [Str(s)] + rest, [])
    ensures var args, t := [Str(s)] + rest, Scan(ReturnInOrder, opts, rest);
            Scan(ReturnInOrder, opts, args)
            == Outcome([Str(s)] + t.opts, t.nonopts, t.rest, [Event(1, Str(s))] + t.events)
  {
    assert ([Str(s)] + rest)[1..] == rest;
    hide LongStep, ScanMid;
  }

  /** `--` with a text behind it brings the value of the option the text names, and takes
      its argument along. */
  lemma {:induction false} ScanNamed(ord: Ordering, opts: Options, text: string, rest: seq<Arg>)
    requires opts.long.Long? && text != ""
    ensures var step := NameStep(opts, text, opts.long.longOnly, false, rest).value;
            var t := Scan(ord, opts, rest[step.1 - 1..]);
            Scan(ord, opts, [Str("--" + text)] + rest)
            == Outcome([Str("--" + text)] + rest[..step.1 - 1] + t.opts, t.nonopts, t.rest, [step.0] + t.events)
  {
    var a := Str("--" + text);
    var args := [a] + rest;
    assert args[1..] == rest && a.s[2..] == text && a.s[1] == '-';
    hide NameStep, ScanMid;
    var step := NameStep(opts, text, opts.long.longOnly, false, rest);
    assert LongStep(opts, a.s, rest) == step;
    assert args[..step.value.1] == [a] + rest[..step.value.1 - 1];
    assert args[step.value.1..] == rest[step.value.1 - 1..];
  }
}
