/** The permuting option scanner, with short and long options (src/unistd/getopt.c). */
module Getopt {

  /** An argv element; `Null` is a null pointer. Strings hold no NUL. */
  datatype Arg = Null | Str(s: string)

  datatype Ordering = RequireOrder | Permute | ReturnInOrder

  /** argv with the blocks `bottom..middle` and `middle..top` exchanged. */
  function Rotated(a: seq<Arg>, bottom: int, middle: int, top: int): seq<Arg>
    requires 0 <= bottom <= middle <= top <= |a|
  {
    a[..bottom] + a[middle..top] + a[bottom..middle] + a[top..]
  }

  /** Two blocks of `a` swapped. */
  function Swapped(a: seq<Arg>, i: nat, j: nat, len: nat): seq<Arg>
    requires i + len <= j && j + len <= |a|
  {
    a[0..i] + a[j..j + len] + a[i + len..j] + a[i..i + len] + a[j + len..|a|]
  }

  /** The inner loop of `exchange`. */
  method SwapBlocks(argv: array<Arg>, i: nat, j: nat, len: nat)
    requires i + len <= j && j + len <= argv.Length
    modifies argv
    ensures argv[..] == Swapped(old(argv[..]), i, j, len)
  {
    ghost var a := argv[..];
    for k := 0 to len
      invariant forall m :: i <= m < i + k ==> argv[m] == a[m - i + j]
      invariant forall m :: j <= m < j + k ==> argv[m] == a[m - j + i]
      invariant forall m :: 0 <= m < i || i + k <= m < j || j + k <= m < argv.Length ==> argv[m] == a[m]
    {
      argv[i + k], argv[j + k] := argv[j + k], argv[i + k];
    }
    SwappedAt(a, argv[..], i, j, len);
  }

  lemma {:induction false} SwappedAt(a: seq<Arg>, b: seq<Arg>, i: nat, j: nat, len: nat)
    requires i + len <= j && j + len <= |a| == |b|
    requires forall m :: i <= m < i + len ==> b[m] == a[m - i + j]
    requires forall m :: j <= m < j + len ==> b[m] == a[m - j + i]
    requires forall m :: 0 <= m < i || i + len <= m < j || j + len <= m < |a| ==> b[m] == a[m]
    ensures b == Swapped(a, i, j, len)
  {
    SameSlice(a, 0, i, b, 0, i);
    SameSlice(a, j, j + len, b, i, i + len);
    SameSlice(a, i + len, j, b, i + len, j);
    SameSlice(a, i, i + len, b, j, j + len);
    SameSlice(a, j + len, |a|, b, j + len, |b|);
    CutInFive(b, i, i + len, j, j + len);
  }

  lemma {:induction false} SameSlice(a: seq<Arg>, p: nat, p': nat, b: seq<Arg>, q: nat, q': nat)
    requires p <= p' <= |a| && q <= q' <= |b| && p' - p == q' - q
    requires forall m :: q <= m < q' ==> b[m] == a[m - q + p]
    ensures a[p..p'] == b[q..q']
  {
  }

  lemma {:induction false} CutInFive(b: seq<Arg>, i: nat, j: nat, k: nat, l: nat)
    requires i <= j <= k <= l <= |b|
    ensures b == b[0..i] + b[i..j] + b[j..k] + b[k..l] + b[l..|b|]
  {
  }

  /** Five pieces put together, and taken apart again. */
  lemma {:induction false} FivePieces(pre: seq<Arg>, p: seq<Arg>, q: seq<Arg>, r: seq<Arg>, post: seq<Arg>)
    ensures var w, i, j := pre + p + q + r + post, |pre| + |p|, |pre| + |p| + |q|;
            && w[..|pre|] == pre && w[..i] == pre + p && w[|pre|..i] == p && w[i..j] == q && w[j..j + |r|] == r
            && w[j + |r|..] == post && w[j..] == r + post
  {
    var i, j := |pre| + |p|, |pre| + |p| + |q|;
    var w := pre + p + q + r + post;
    assert w == pre + p + (q + r + post);
    assert w == pre + (p + q + r + post);
    assert w == pre + p + q + (r + post);
    assert w[j..] == r + post;
  }

  lemma {:induction false} Associate(a: seq<Arg>, b: seq<Arg>, c: seq<Arg>)
    ensures (a + b) + c == a + (b + c)
  {
  }

  /** Bottom segment shorter: swap it with the far end of the top segment. */
  lemma {:induction false} RotateShortBottom(a: seq<Arg>, a': seq<Arg>, b: nat, m: nat, t: nat)
    requires b <= m <= t <= |a| && t - m > m - b
    requires a' == Swapped(a, b, t - (m - b), m - b)
    ensures |a'| == |a| && Rotated(a', b, m, t - (m - b)) == Rotated(a, b, m, t)
  {
    var k := t - (m - b);
    var pre, x, y1, y2, post := a[0..b], a[b..m], a[m..k], a[k..t], a[t..|a|];
    assert a' == pre + y2 + y1 + x + post;
    FivePieces(pre, y2, y1, x, post);
    assert a[m..t] == y1 + y2 && a[..b] == pre && a[t..] == post;
    assert Rotated(a', b, m, k) == pre + y1 + y2 + (x + post);
    assert Rotated(a, b, m, t) == pre + (y1 + y2) + x + post;
    Associate(pre, y1, y2);
    Associate(pre + (y1 + y2), x, post);
  }

  /** Top segment shorter or equal: swap it with the near end of the bottom segment. */
  lemma {:induction false} RotateShortTop(a: seq<Arg>, a': seq<Arg>, b: nat, m: nat, t: nat)
    requires b <= m <= t <= |a| && t - m <= m - b
    requires a' == Swapped(a, b, m, t - m)
    ensures |a'| == |a| && Rotated(a', b + (t - m), m, t) == Rotated(a, b, m, t)
  {
    var k := b + (t - m);
    var pre, x1, x2, y, post := a[0..b], a[b..k], a[k..m], a[m..t], a[t..|a|];
    assert a' == pre + y + x2 + x1 + post;
    FivePieces(pre, y, x2, x1, post);
    assert a[b..m] == x1 + x2 && a[..b] == pre && a[t..] == post;
    assert Rotated(a', k, m, t) == (pre + y) + x1 + x2 + post;
    assert Rotated(a, b, m, t) == pre + y + (x1 + x2) + post;
    Associate(pre + y, x1, x2);
  }

  lemma {:induction false} RotateNothing(a: seq<Arg>, b: nat, m: nat, t: nat)
    requires b <= m <= t <= |a| && (b == m || m == t)
    ensures Rotated(a, b, m, t) == a
  {
  }

  lemma {:induction false} RotatedSame(a: seq<Arg>, b: nat, m: nat, t: nat)
    requires b <= m <= t <= |a|
    ensures multiset(Rotated(a, b, m, t)) == multiset(a)
  {
    assert a == a[..b] + a[b..m] + a[m..t] + a[t..];
  }

  datatype OptionKind = Invalid | Flag | Required | Optional | Word

  /** The rest of `opts` from the first `c`, as strchr finds it. */
  function StrChr(opts: string, c: char): (r: string)
    ensures r == "" <==> c !in opts
    ensures r != "" ==> r[0] == c
  {
    if opts == "" then "" else if opts[0] == c then opts else StrChr(opts[1..], c)
  }

  /** How optstring declares `c`: one colon for a required argument, two for an
      optional one. */
  function Declared(opts: string, c: char): OptionKind {
    var temp := StrChr(opts, c);
    if temp == "" || c == ':' || c == ';' then Invalid
    else if |temp| > 1 && temp[1] == ':' then
      if |temp| > 2 && temp[2] == ':' then Optional else Required
    else Flag
  }

  datatype Option<T> = None | Some(value: T)

  datatype ArgKind = NoArgument | RequiredArgument | OptionalArgument

  /** struct option; `flag` is the address of the flag, if there is one. */
  datatype LongOption = LongOption(name: string, hasArg: ArgKind, flag: Option<nat>, val: int)

  /** The long options, or a null pointer for a caller that has none. */
  datatype LongOptions = NoLong | Long(options: seq<LongOption>, longOnly: bool)

  /** optstring without its ordering prefix, and the long options. */
  datatype Options = Options(short: string, long: LongOptions)

  /** One value returned to the caller, with optarg; `longind` tells the long option
      accepted, whose flag, if any, was set. An event is `astray` where the source has
      no value to return: it would read a name through a null pointer, or return, as
      the value of a long option, the -1 that means the end. */
  datatype Event = Event(code: int, arg: Arg, longind: Option<nat> := None, astray: bool := false)

  /** What a whole scan does: the elements that count as options, the non-options,
      what was never looked at, and the values returned. */
  datatype Outcome = Outcome(opts: seq<Arg>, nonopts: seq<Arg>, rest: seq<Arg>, events: seq<Event>)

  function MissingCode(opts: string): int {
    if opts != "" && opts[0] == ':' then ':' as int else '?' as int
  }

  /** How `c` is declared. With long options, `W;` makes `-W name` stand for `--name`. */
  function KindOf(opts: Options, c: char): OptionKind {
    if opts.long.Long? && c == 'W' && "W;" <= StrChr(opts.short, 'W') then Word else Declared(opts.short, c)
  }

  predicate NonOption(a: Arg) {
    a.Str? && (a.s == "" || a.s[0] != '-' || |a.s| == 1)
  }

  // ---- long options ----

  /** The name part of a long option's text, up to `=`. */
  function NameLength(text: string): (n: nat)
    ensures n <= |text| && (n < |text| ==> text[n] == '=') && forall k :: 0 <= k < n ==> text[k] != '='
  {
    if text == "" || text[0] == '=' then 0 else 1 + NameLength(text[1..])
  }

  function FirstExact(options: seq<LongOption>, name: string, i: nat): (r: Option<nat>)
    requires i <= |options|
    ensures r.Some? ==> i <= r.value < |options| && options[r.value].name == name
    ensures forall k :: i <= k < (if r.Some? then r.value else |options|) ==> options[k].name != name
    decreases |options| - i
  {
    if i == |options| then None
    else if options[i].name == name then Some(i)
    else FirstExact(options, name, i + 1)
  }

  /** The first option that `name` abbreviates. */
  function FirstPrefixed(options: seq<LongOption>, name: string, i: nat): (r: Option<nat>)
    requires i <= |options|
    ensures r.Some? ==> i <= r.value < |options| && name <= options[r.value].name
    ensures forall k :: i <= k < (if r.Some? then r.value else |options|) ==> !(name <= options[k].name)
    decreases |options| - i
  {
    if i == |options| then None
    else if name <= options[i].name then Some(i)
    else FirstPrefixed(options, name, i + 1)
  }

  predicate Differs(a: LongOption, b: LongOption) {
    a.hasArg != b.hasArg || a.flag != b.flag || a.val != b.val
  }

  datatype Lookup = NotFound | Ambiguous | Found(i: nat)

  /** The option a name stands for: an exact match wins; an abbreviation must not fit
      a second option that differs (or any second one, for getopt_long_only). */
  function Find(options: seq<LongOption>, name: string, longOnly: bool): (r: Lookup)
    ensures r.Found? ==> r.i < |options| && name <= options[r.i].name
  {
    match FirstExact(options, name, 0)
    case Some(i) => Found(i)
    case None =>
      match FirstPrefixed(options, name, 0)
      case None => NotFound
      case Some(i) =>
        if exists j :: i < j < |options| && name <= options[j].name && (longOnly || Differs(options[i], options[j]))
        then Ambiguous else Found(i)
  }

  /** A full name finds its option, even when it abbreviates others, and an
      abbreviation of one option only finds that one. */
  lemma {:induction false} FindByName(options: seq<LongOption>, name: string, i: nat, longOnly: bool)
    requires i < |options| && name <= options[i].name
    requires (name == options[i].name && forall j :: 0 <= j < i ==> options[j].name != name)
          || (forall j :: 0 <= j < |options| && j != i ==> !(name <= options[j].name))
    ensures Find(options, name, longOnly) == Found(i)
  {
    var e, f := FirstExact(options, name, 0), FirstPrefixed(options, name, 0);
    assert e.Some? ==> name <= options[e.value].name;
  }

  /** The search of process_long_option. */
  method FindLong(options: seq<LongOption>, name: string, longOnly: bool) returns (r: Lookup)
    ensures r == Find(options, name, longOnly)
  {
    ghost var e, f := FirstExact(options, name, 0), FirstPrefixed(options, name, 0);
    var p := 0;
    while p < |options|
      invariant 0 <= p <= |options| && forall k :: 0 <= k < p ==> options[k].name != name
    {
      if options[p].name == name {
        return Found(p);
      }
      p := p + 1;
    }
    var pfound, ambig := NotFound, false;
    p := 0;
    while p < |options|
      invariant 0 <= p <= |options| && (pfound == NotFound || pfound.Found?) && (ambig ==> pfound.Found?)
      invariant pfound == NotFound ==> forall k :: 0 <= k < p ==> !(name <= options[k].name)
      invariant pfound.Found? ==> pfound.i < p && f == Some(pfound.i)
      invariant pfound.Found? ==>
                  (ambig <==> exists j :: pfound.i < j < p && name <= options[j].name
                                          && (longOnly || Differs(options[pfound.i], options[j])))
    {
      if name <= options[p].name {
        if pfound == NotFound {
          pfound := Found(p);
        } else if longOnly || Differs(options[pfound.i], options[p]) {
          ambig := true;
        }
      }
      p := p + 1;
    }
    r := if ambig then Ambiguous else pfound;
  }

  /** An accepted long option returns its value, or 0 when it sets a flag. */
  function Accepted(o: LongOption, i: nat, arg: Arg): Event {
    var code := if o.flag.Some? then 0 else o.val;
    Event(code, arg, Some(i), code == -1)
  }

  /** What a long option that was found returns, and how many elements it uses. */
  function LongEvent(opts: Options, i: nat, text: string, following: seq<Arg>): (r: (Event, nat))
    requires opts.long.Long? && i < |opts.long.options|
    ensures 1 <= r.1 <= 2 && r.1 <= 1 + |following|
    ensures r.0.astray <==> r.0.code == -1
  {
    var o, n := opts.long.options[i], NameLength(text);
    if n < |text| then
      if o.hasArg != NoArgument then (Accepted(o, i, Str(text[n + 1..])), 1) else (Event('?' as int, Null), 1)
    else if o.hasArg == RequiredArgument then
      if following == [] then (Event(MissingCode(opts.short), Null), 1) else (Accepted(o, i, following[0]), 2)
    else (Accepted(o, i, Null), 1)
  }

  predicate OptionElement(a: Arg) {
    a.Str? && a != Str("--") && !NonOption(a)
  }

  /** The text of the element `s` that is looked up as a long option, if any. */
  function LongText(opts: Options, s: string): (r: Option<string>)
    requires |s| > 1
    ensures r.Some? && s[1] != '-' ==> r.value == s[1..]
    ensures r.Some? ==> opts.long.Long?
  {
    if opts.long.NoLong? then None
    else if s[1] == '-' then Some(s[2..])
    else if opts.long.longOnly && (|s| > 2 || s[1] !in opts.short) then Some(s[1..])
    else None
  }

  /** A name that is no long option is handed back, to be read as short options. */
  predicate HandBack(opts: Options, longOnly: bool, a: Arg) {
    longOnly && a.Str? && |a.s| > 1 && a.s[1] != '-' && a.s[1] in opts.short
  }

  /** What a text looked up as a long option returns, and how many elements it uses,
      its own included; `None` when it is handed back. */
  function NameStep(opts: Options, text: string, longOnly: bool, handBack: bool,
                    following: seq<Arg>): (r: Option<(Event, nat)>)
    requires opts.long.Long?
    ensures r.Some? ==> 1 <= r.value.1 <= 2 && r.value.1 <= 1 + |following|
    ensures r.None? ==> handBack
    ensures r.Some? ==> (r.value.0.astray <==> r.value.0.code == -1)
  {
    match Find(opts.long.options, text[..NameLength(text)], longOnly)
    case Found(i) => Some(LongEvent(opts, i, text, following))
    case Ambiguous => Some((Event('?' as int, Null), 1))
    case NotFound => if handBack then None else Some((Event('?' as int, Null), 1))
  }

  /** The element `s` as a long option; `None` when it is to be read as short ones. */
  function LongStep(opts: Options, s: string, following: seq<Arg>): (r: Option<(Event, nat)>)
    requires |s| > 1
    ensures r.Some? ==> 1 <= r.value.1 <= 2 && r.value.1 <= 1 + |following|
  {
    var text := LongText(opts, s);
    if text.None? then None
    else
      var longOnly := opts.long.longOnly;
      NameStep(opts, text.value, longOnly, HandBack(opts, longOnly, Str(s)), following)
  }

  /** The long option named behind `-W`. */
  function WordStep(opts: Options, text: string, following: seq<Arg>): (r: (Event, nat))
    requires opts.long.Long?
    ensures 1 <= r.1 <= 2 && r.1 <= 1 + |following|
  {
    NameStep(opts, text, false, false, following).value
  }

  lemma {:induction false} LongStepIs(opts: Options, a: Arg, following: seq<Arg>)
    requires OptionElement(a) && LongText(opts, a.s).Some?
    ensures var text, longOnly := LongText(opts, a.s).value, opts.long.longOnly;
            && LongStep(opts, a.s, following) == NameStep(opts, text, longOnly, HandBack(opts, longOnly, a), following)
            && (a.s[1] != '-' ==> text == a.s[1..])
  {
    assert a == Str(a.s);
  }

  lemma {:induction false} NoText(opts: Options, s: string, following: seq<Arg>)
    requires |s| > 1
    ensures LongText(opts, s).None? ==> LongStep(opts, s, following).None?
  {
  }

  // ---- short options ----

  /** The name behind `-W` in an element of its own, which is read without a test for
      a null pointer. */
  function TextOf(a: Arg): string {
    if a.Str? then a.s else ""
  }

  predicate Pending(nextchar: Arg) {
    nextchar.Str? && nextchar.s != ""
  }

  /** One option character: the value returned, the elements used up, and what is left
      of the element. */
  function StepTo(opts: Options, cs: string, following: seq<Arg>): (r: (Event, nat, Arg))
    requires cs != ""
    ensures if Pending(r.2) then r.2.s == cs[1..] && r.1 == 0 else 1 <= r.1 <= 3 && r.1 <= 1 + |following|
  {
    var c, rest := cs[0], cs[1..];
    var used := if rest == "" then 1 else 0;
    match KindOf(opts, c)
    case Invalid => (Event('?' as int, Null), used, Str(rest))
    case Flag => (Event(c as int, Null), used, Str(rest))
    case Optional => (Event(c as int, if rest == "" then Null else Str(rest)), 1, Null)
    case Required =>
      if rest != "" then (Event(c as int, Str(rest)), 1, Null)
      else if following == [] then (Event(MissingCode(opts.short), Null), 1, Null)
      else (Event(c as int, following[0]), 2, Null)
    case Word =>
      if rest != "" then
        var w := WordStep(opts, rest, following);
        (w.0, w.1, Null)
      else if following == [] then (Event(MissingCode(opts.short), Null), 1, Str(rest))
      else
        var w := WordStep(opts, TextOf(following[0]), following[1..]);
        (w.0.(astray := w.0.astray || following[0].Null?), 1 + w.1, Null)
  }

  /** The option characters `cs` of one element: the values returned, and how many
      elements they use. */
  function ScanChars(opts: Options, cs: string, following: seq<Arg>): (r: (seq<Event>, nat))
    requires cs != ""
    ensures 1 <= r.1 <= 3 && r.1 <= 1 + |following|
    decreases |cs|
  {
    var s := StepTo(opts, cs, following);
    if Pending(s.2) then
      var more := ScanChars(opts, s.2.s, following);
      ([s.0] + more.0, more.1)
    else ([s.0], s.1)
  }

  function Prepend(used: seq<Arg>, events: seq<Event>, r: Outcome): Outcome {
    Outcome(used + r.opts, r.nonopts, r.rest, events + r.events)
  }

  /** The reference: what scanning `args` does, written on values. */
  function Scan(ord: Ordering, opts: Options, args: seq<Arg>): Outcome
    decreases |args|
  {
    if args == [] || args[0].Null? then Outcome([], [], args, [])
    else if args[0] == Str("--") then Outcome([args[0]], args[1..], [], [])
    else if NonOption(args[0]) then
      match ord {
        case Permute =>
          var r := Scan(ord, opts, args[1..]);
          r.(nonopts := [args[0]] + r.nonopts)
        case RequireOrder => Outcome([], [], args, [])
        case ReturnInOrder => Prepend([args[0]], [Event(1, args[0])], Scan(ord, opts, args[1..]))
      }
    else
      var long := LongStep(opts, args[0].s, args[1..]);
      if long.Some? then Prepend(args[..long.value.1], [long.value.0], Scan(ord, opts, args[long.value.1..]))
      else ScanMid(ord, opts, args[0].s[1..], args)
  }

  /** The same from inside the element `args[0]`, of which `cs` is still to do. */
  function ScanMid(ord: Ordering, opts: Options, cs: string, args: seq<Arg>): Outcome
    requires args != [] && cs != ""
    decreases |args|, 0
  {
    var e := ScanChars(opts, cs, args[1..]);
    Prepend(args[..e.1], e.0, Scan(ord, opts, args[e.1..]))
  }

  /** The outcome of the whole run, seen from a state in the middle of it: what
      argv already shows, followed by what the rest of the scan will add. */
  function View(ord: Ordering, opts: Options, a: seq<Arg>, first: int, last: int, optind: int, nextchar: Arg): Outcome
    requires 1 <= first <= last <= optind <= |a| && (Pending(nextchar) ==> optind < |a|)
  {
    var r := if Pending(nextchar) then ScanMid(ord, opts, nextchar.s, a[optind..]) else Scan(ord, opts, a[optind..]);
    Outcome(a[1..first] + a[last..optind] + r.opts, a[first..last] + r.nonopts, r.rest, r.events)
  }

  lemma {:induction false} ViewExchange(ord: Ordering, opts: Options, a: seq<Arg>, f: int, l: int, o: int, nc: Arg)
    requires 1 <= f <= l <= o <= |a| && !Pending(nc)
    ensures |Rotated(a, f, l, o)| == |a|
    ensures View(ord, opts, Rotated(a, f, l, o), f + (o - l), o, o, nc) == View(ord, opts, a, f, l, o, nc)
    ensures Rotated(a, f, l, o)[0] == a[0] && Rotated(a, f, l, o)[o..] == a[o..]
  {
    var b := Rotated(a, f, l, o);
    var m := f + (o - l);
    assert b[o..] == a[o..];
    assert b[..m] == a[..f] + a[l..o];
    assert b[1..m] == a[1..f] + a[l..o];
    assert b[m..o] == a[f..l];
    assert b[1..m] + b[o..o] == a[1..f] + a[l..o];
  }

  /** With no non-options pending, the options processed so far are all in place. */
  lemma {:induction false} ViewEmptyBlock(ord: Ordering, opts: Options, a: seq<Arg>, f: int, o: int, nc: Arg)
    requires 1 <= f <= o <= |a| && !Pending(nc)
    ensures View(ord, opts, a, o, o, o, nc) == View(ord, opts, a, f, f, o, nc)
  {
    assert a[1..f] + a[f..o] == a[1..o] + a[o..o];
  }

  lemma {:induction false} ViewSkip(opts: Options, a: seq<Arg>, f: int, o: int, nc: Arg)
    requires 1 <= f <= o < |a| && !Pending(nc) && NonOption(a[o])
    ensures View(Permute, opts, a, f, o + 1, o + 1, nc) == View(Permute, opts, a, f, o, o, nc)
  {
    assert a[o..][0] == a[o] && a[o..][1..] == a[o + 1..];
    assert a[f..o + 1] == a[f..o] + [a[o]];
    assert a[1..f] + a[o + 1..o + 1] == a[1..f] + a[o..o];
    var r := Scan(Permute, opts, a[o + 1..]);
    assert a[f..o] + ([a[o]] + r.nonopts) == a[f..o + 1] + r.nonopts;
  }

  /** The end of the run, in terms of the outcome seen so far. */
  ghost predicate Finished(v: Outcome, a: seq<Arg>, optind: int) {
    && v.events == [] && |a| > 0
    && a == a[..1] + v.opts + v.nonopts + v.rest
    && optind == 1 + |v.opts|
  }

  lemma {:induction false} ViewEnd(ord: Ordering, opts: Options, a: seq<Arg>, f: int, l: int, o: int, nc: Arg)
    requires 1 <= f <= l <= o <= |a| && !Pending(nc) && (o == |a| || a[o].Null?)
    requires f == l || l == o
    ensures Finished(View(ord, opts, a, f, l, o, nc), a, if f != l then f else o)
  {
    assert o < |a| ==> a[o..][0] == a[o];
    assert View(ord, opts, a, f, l, o, nc) == Outcome(a[1..f] + a[l..o] + [], a[f..l] + [], a[o..], []);
    hide View, Scan;
    assert a[1..f] + a[l..o] + [] == a[1..f] + a[l..o] && a[f..l] + [] == a[f..l];
    if l == o {
      assert a == a[..1] + a[1..f] + a[f..l] + a[o..];
      assert a[1..f] + a[l..o] == a[1..f];
    } else {
      assert a == a[..1] + a[1..o] + a[o..];
      assert a[1..f] + a[l..o] == a[1..o] && a[f..l] == [];
    }
  }

  lemma {:induction false} ViewRequireOrder(opts: Options, a: seq<Arg>, f: int, o: int, nc: Arg)
    requires 1 <= f <= o < |a| && !Pending(nc) && NonOption(a[o])
    ensures Finished(View(RequireOrder, opts, a, f, f, o, nc), a, o)
  {
    assert a[o..][0] == a[o];
    assert View(RequireOrder, opts, a, f, f, o, nc) == Outcome(a[1..f] + a[f..o] + [], a[f..f] + [], a[o..], []);
    hide View, Scan;
    assert a == a[..1] + a[1..o] + a[o..];
    assert a[1..f] + a[f..o] + [] == a[1..o] && a[f..f] + [] == [];
  }

  /** One value has been returned: it heads the outcome seen before. */
  ghost predicate Returned(before: Outcome, e: Event, after: Outcome) {
    before == after.(events := [e] + after.events)
  }

  /** The next value is not astray. */
  ghost predicate Sound(v: Outcome) {
    v.events != [] ==> !v.events[0].astray
  }

  lemma {:induction false} ReturnedSound(before: Outcome, e: Event, after: Outcome)
    requires Returned(before, e, after) && Sound(before)
    ensures !e.astray && e == before.events[0]
  {
  }

  lemma {:induction false} ViewReturnInOrder(opts: Options, a: seq<Arg>, f: int, o: int, nc: Arg)
    requires 1 <= f <= o < |a| && !Pending(nc) && NonOption(a[o])
    ensures Returned(View(ReturnInOrder, opts, a, f, f, o, nc), Event(1, a[o]),
                     View(ReturnInOrder, opts, a, f, f, o + 1, nc))
  {
    assert a[o..][0] == a[o] && a[o..][1..] == a[o + 1..];
    assert a[f..o + 1] == a[f..o] + [a[o]];
    var r := Scan(ReturnInOrder, opts, a[o + 1..]);
    assert a[1..f] + a[f..o] + ([a[o]] + r.opts) == a[1..f] + a[f..o + 1] + r.opts;
  }

  /** Entering an option element changes nothing that can be seen. */
  lemma {:induction false} ViewEnter(ord: Ordering, opts: Options, a: seq<Arg>, f: int, l: int, o: int, nc: Arg)
    requires 1 <= f <= l <= o < |a| && !Pending(nc)
    requires OptionElement(a[o]) && LongStep(opts, a[o].s, a[o + 1..]).None?
    ensures View(ord, opts, a, f, l, o, Str(a[o].s[1..])) == View(ord, opts, a, f, l, o, nc)
  {
    assert a[o..][0] == a[o] && a[o..][1..] == a[o + 1..];
  }

  /** A long option is one value, and its elements join the options. */
  lemma {:induction false} ViewLong(ord: Ordering, opts: Options, a: seq<Arg>, f: int, l: int, o: int, nc: Arg,
                                    nc': Arg)
    requires 1 <= f <= l <= o < |a| && !Pending(nc) && !Pending(nc')
    requires OptionElement(a[o]) && LongStep(opts, a[o].s, a[o + 1..]).Some?
    ensures var s := LongStep(opts, a[o].s, a[o + 1..]).value;
            && o + s.1 <= |a|
            && Returned(View(ord, opts, a, f, l, o, nc), s.0, View(ord, opts, a, f, l, o + s.1, nc'))
  {
    var args, s := a[o..], LongStep(opts, a[o].s, a[o + 1..]).value;
    assert args[0] == a[o] && args[1..] == a[o + 1..];
    assert args[s.1..] == a[o + s.1..];
    var r := Scan(ord, opts, a[o + s.1..]);
    assert Scan(ord, opts, args) == Prepend(args[..s.1], [s.0], r);
    hide LongStep, Scan, NonOption;
    StepDone(a, f, l, o, s.1, r.opts);
  }

  /** `--` goes to the options; everything behind it is a non-option. */
  lemma {:induction false} ViewDashDash(ord: Ordering, opts: Options, a: seq<Arg>, f: int, l: int, o: int, nc: Arg)
    requires 1 <= f <= l <= o < |a| && !Pending(nc) && a[o] == Str("--") && (f == l || l == o)
    ensures var v := View(ord, opts, a, f, l, o, nc);
            if f == l then Finished(v, a, o + 1)
            else
              var b := Rotated(a, f, l, o + 1);
              |b| == |a| && Finished(v, b, f + 1) && b[0] == a[0]
  {
    assert a[o..][0] == a[o] && a[o..][1..] == a[o + 1..];
    var v := View(ord, opts, a, f, l, o, nc);
    assert v == Outcome(a[1..f] + a[l..o] + [a[o]], a[f..l] + a[o + 1..], [], []);
    hide View;
    if f == l {
      assert a == a[..1] + a[1..o + 1] + (a[f..f] + a[o + 1..]) + [];
      assert a[1..f] + a[f..o] + [a[o]] == a[1..o + 1];
    } else {
      RotatedDash(a, f, l);
      assert a[1..f] + a[l..o] + [a[o]] == a[1..f] + [a[o]];
    }
  }

  lemma {:induction false} RotatedDash(a: seq<Arg>, f: int, o: int)
    requires 1 <= f <= o < |a|
    ensures |Rotated(a, f, o, o + 1)| == |a|
    ensures var b := Rotated(a, f, o, o + 1);
            b == b[..1] + (a[1..f] + [a[o]]) + (a[f..o] + a[o + 1..]) + []
  {
    var b := Rotated(a, f, o, o + 1);
    assert b == a[..f] + [a[o]] + a[f..o] + a[o + 1..];
    assert a[..f] == a[..1] + a[1..f];
    assert b[..1] == a[..1];
  }

  /** A value from inside an element that goes on. */
  lemma {:induction false} ViewInside(ord: Ordering, opts: Options, a: seq<Arg>, f: int, l: int, o: int, cs: string,
                                      e: Event, cs': string)
    requires 1 <= f <= l <= o < |a| && cs != "" && cs' != ""
    requires ScanChars(opts, cs, a[o + 1..]).0 == [e] + ScanChars(opts, cs', a[o + 1..]).0
    requires ScanChars(opts, cs, a[o + 1..]).1 == ScanChars(opts, cs', a[o + 1..]).1
    ensures Returned(View(ord, opts, a, f, l, o, Str(cs)), e, View(ord, opts, a, f, l, o, Str(cs')))
  {
    var args, s' := a[o..], ScanChars(opts, cs', a[o + 1..]);
    assert args[1..] == a[o + 1..];
    hide ScanChars, Scan;
    var r := Scan(ord, opts, args[s'.1..]);
    assert [e] + s'.0 + r.events == [e] + (s'.0 + r.events);
  }

  /** The last value of an element. */
  lemma {:induction false} ViewLeave(ord: Ordering, opts: Options, a: seq<Arg>, f: int, l: int, o: int, cs: string,
                                     e: Event, used: nat, nc: Arg)
    requires 1 <= f <= l <= o < |a| && cs != "" && !Pending(nc)
    requires ScanChars(opts, cs, a[o + 1..]) == ([e], used)
    ensures o + used <= |a|
    ensures Returned(View(ord, opts, a, f, l, o, Str(cs)), e, View(ord, opts, a, f, l, o + used, nc))
  {
    var args := a[o..];
    assert args[1..] == a[o + 1..] && args[used..] == a[o + used..];
    hide ScanChars, Scan;
    StepDone(a, f, l, o, used, Scan(ord, opts, a[o + used..]).opts);
  }

  lemma {:induction false} ViewStep(ord: Ordering, opts: Options, a: seq<Arg>, f: int, l: int, o: int, cs: string)
    requires 1 <= f <= l <= o < |a| && cs != ""
    ensures var s := StepTo(opts, cs, a[o + 1..]);
            && o + s.1 <= |a| && (Pending(s.2) ==> o + s.1 < |a|)
            && Returned(View(ord, opts, a, f, l, o, Str(cs)), s.0, View(ord, opts, a, f, l, o + s.1, s.2))
  {
    var s := StepTo(opts, cs, a[o + 1..]);
    assert ScanChars(opts, cs, a[o + 1..]) == if Pending(s.2) then
        ([s.0] + ScanChars(opts, s.2.s, a[o + 1..]).0, ScanChars(opts, s.2.s, a[o + 1..]).1) else ([s.0], s.1);
    hide ScanChars, StepTo, View, Returned;
    if Pending(s.2) {
      ViewInside(ord, opts, a, f, l, o, cs, s.0, s.2.s);
    } else {
      ViewLeave(ord, opts, a, f, l, o, cs, s.0, s.1, s.2);
    }
  }

  lemma {:induction false} StepDone(a: seq<Arg>, f: int, l: int, o: int, used: nat, more: seq<Arg>)
    requires 1 <= f <= l <= o <= o + used <= |a|
    ensures a[1..f] + a[l..o] + (a[o..][..used] + more) == a[1..f] + a[l..o + used] + more
  {
    assert a[l..o + used] == a[l..o] + a[o..][..used];
  }

  /** What a lookup leaves in optopt: the value of the option, zero for a name that
      stands for none, and the old value when a flag was set or nothing was done. */
  function LongReported(opts: Options, text: string, longOnly: bool, optopt: int, code: int): int
    requires opts.long.Long?
  {
    if code == -1 then optopt
    else
      match Find(opts.long.options, text[..NameLength(text)], longOnly)
      case Found(i) =>
        var o := opts.long.options[i];
        if code == 0 && o.flag.Some? then optopt else o.val
      case _ => 0
  }

  /** The name that a `-W` at the head of `cs` looks up. */
  function NameBehind(opts: Options, cs: string, following: seq<Arg>): (r: Option<string>)
    requires cs != ""
    ensures r.Some? ==> opts.long.Long?
  {
    if KindOf(opts, cs[0]) != Word then None
    else if |cs| > 1 then Some(cs[1..])
    else if following != [] then Some(TextOf(following[0]))
    else None
  }

  /** What a short option leaves in optopt. */
  function Reported(opts: Options, cs: string, following: seq<Arg>, optopt: int, code: int): int
    requires cs != ""
  {
    var name := NameBehind(opts, cs, following);
    if name.Some? then LongReported(opts, name.value, false, optopt, code)
    else if KindOf(opts, cs[0]) == Required && |cs| == 1 && following == [] then MissingCode(opts.short)
    else cs[0] as int
  }

  /** POSIX has optopt hold the character of the option in error. It does, unless a
      required argument is missing: the character stored first is then overwritten with
      `?` or `:`. A `-W` that lacks its name keeps the character, and one that has it
      goes by the long option named. */
  ghost predicate OptoptRule(opts: Options, cs: string, following: seq<Arg>, before: int, code: int, optopt: int)
    requires cs != ""
  {
    var name := NameBehind(opts, cs, following);
    var missing := KindOf(opts, cs[0]) == Required && |cs| == 1 && following == [];
    if name.Some? then optopt == LongReported(opts, name.value, false, before, code)
    else
      && (optopt == cs[0] as int <==> !missing || (cs[0] == '?' && !(":" <= opts.short)))
      && (missing ==> optopt == if ":" <= opts.short then ':' as int else '?' as int)
  }

  lemma {:induction false} OptoptIsCharacter(opts: Options, cs: string, following: seq<Arg>, before: int, code: int)
    requires cs != ""
    ensures OptoptRule(opts, cs, following, before, code, Reported(opts, cs, following, before, code))
  {
    assert ":" <= opts.short <==> opts.short != "" && opts.short[0] == ':';
  }

  /** An option element that is read as short options, the characters `cs`. */
  ghost predicate Entered(opts: Options, a: seq<Arg>, at: int, cs: string) {
    && 1 <= at < |a| && OptionElement(a[at]) && LongStep(opts, a[at].s, a[at + 1..]).None?
    && cs == a[at].s[1..]
  }

  /** One call worked on the element `a[at]` as a whole: a non-option in order, or a long
      option, which leaves its own value in optopt. */
  ghost predicate ElementHandled(opts: Options, inOrder: bool, a: seq<Arg>, at: int, e: Event, optind: int,
                                 before: int, optopt: int)
  {
    && 1 <= at < |a| && at <= optind
    && if NonOption(a[at]) then inOrder && e == Event(1, a[at]) && optind == at + 1 && optopt == before
       else
         && OptionElement(a[at]) && LongText(opts, a[at].s).Some?
         && LongStep(opts, a[at].s, a[at + 1..]) == Some((e, optind - at))
         && optopt == LongReported(opts, LongText(opts, a[at].s).value, opts.long.longOnly, before, e.code)
  }

  /** One call worked on the first of the option characters `cs` in the element `a[at]`. */
  ghost predicate CharacterHandled(opts: Options, a: seq<Arg>, at: int, cs: string, e: Event, optind: int,
                                   nextchar: Arg, before: int, optopt: int)
  {
    && 1 <= at < |a| && at <= optind && cs != ""
    && StepTo(opts, cs, a[at + 1..]) == (e, optind - at, nextchar)
    && OptoptRule(opts, cs, a[at + 1..], before, e.code, optopt)
  }

  function OrderingOf(optstring: string, posixlyCorrect: bool): Ordering {
    if optstring != "" && optstring[0] == '-' then ReturnInOrder
    else if optstring != "" && optstring[0] == '+' then RequireOrder
    else if posixlyCorrect then RequireOrder
    else Permute
  }

  /** optstring without the ordering prefix. */
  function Body(optstring: string): string {
    if optstring != "" && (optstring[0] == '-' || optstring[0] == '+') then optstring[1..] else optstring
  }

  function Min(a: int, b: int): int {
    if a < b then a else b
  }

  class GetoptData {
    var optind: int
    var optarg: Arg
    var optopt: int
    var nextchar: Arg
    var firstNonopt: int
    var lastNonopt: int
    var ordering: Ordering
    var initialized: bool

    constructor ()
      ensures optind == 1 && !initialized && nextchar == Null && optopt == '?' as int
    {
      optind := 1;
      optarg, nextchar := Null, Null;
      optopt := '?' as int;
      firstNonopt, lastNonopt, ordering, initialized := 0, 0, Permute, false;
    }

    /** The rotation leaves the options first and the non-options after them, each
        block in its own order. */
    method Exchange(argv: array<Arg>)
      requires 0 <= firstNonopt <= lastNonopt <= optind <= argv.Length
      modifies argv, this`firstNonopt, this`lastNonopt
      ensures argv[..] == Rotated(old(argv[..]), old(firstNonopt), old(lastNonopt), optind)
      ensures firstNonopt == old(firstNonopt) + (optind - old(lastNonopt)) && lastNonopt == optind
      ensures multiset(argv[..]) == multiset(old(argv[..]))
    {
      hide Rotated, Swapped;
      ghost var goal := Rotated(argv[..], firstNonopt, lastNonopt, optind);
      var bottom, middle, top := firstNonopt, lastNonopt, optind;
      while top > middle && middle > bottom
        invariant 0 <= bottom <= middle <= top <= argv.Length
        invariant Rotated(argv[..], bottom, middle, top) == goal
        invariant firstNonopt == old(firstNonopt) && lastNonopt == old(lastNonopt)
        decreases top - bottom
      {
        ghost var a := argv[..];
        if top - middle > middle - bottom {
          var len := middle - bottom;
          SwapBlocks(argv, bottom, top - len, len);
          RotateShortBottom(a, argv[..], bottom, middle, top);
          top := top - len;
        } else {
          var len := top - middle;
          SwapBlocks(argv, bottom, middle, len);
          RotateShortTop(a, argv[..], bottom, middle, top);
          bottom := bottom + len;
        }
      }
      RotateNothing(argv[..], bottom, middle, top);
      RotatedSame(old(argv[..]), firstNonopt, lastNonopt, optind);
      firstNonopt := firstNonopt + (optind - lastNonopt);
      lastNonopt := optind;
    }

    /** The fields describe a scan in progress over `argc` elements. Between
        elements the caller may have moved `optind` back. */
    ghost predicate InScan(argc: int)
      reads this
    {
      && initialized && 1 <= firstNonopt <= lastNonopt <= argc && 1 <= optind <= argc
      && (Pending(nextchar) ==> lastNonopt <= optind < argc)
      && (ordering != Permute ==> firstNonopt == lastNonopt)
    }

    ghost function Seen(opts: Options, a: seq<Arg>): Outcome
      reads this
      requires InScan(|a|)
    {
      View(ordering, opts, a, Min(firstNonopt, optind), Min(lastNonopt, optind), optind, nextchar)
    }

    /** _getopt_initialize. */
    method Initialize(optstring: string, posixlyCorrect: bool) returns (opts: string)
      requires 0 <= optind
      modifies this
      ensures initialized && opts == Body(optstring) && ordering == OrderingOf(optstring, posixlyCorrect)
      ensures if "-" <= optstring then ordering == ReturnInOrder && optstring == "-" + opts
              else if "+" <= optstring then ordering == RequireOrder && optstring == "+" + opts
              else ordering == (if posixlyCorrect then RequireOrder else Permute) && opts == optstring
      ensures optind == (if old(optind) == 0 then 1 else old(optind)) == firstNonopt == lastNonopt
      ensures nextchar == Null && optarg == old(optarg) && optopt == old(optopt)
    {
      opts := optstring;
      if optind == 0 {
        optind := 1;
      }
      firstNonopt, lastNonopt, nextchar := optind, optind, Null;
      if optstring != "" && optstring[0] == '-' {
        ordering := ReturnInOrder;
        opts := optstring[1..];
      } else if optstring != "" && optstring[0] == '+' {
        ordering := RequireOrder;
        opts := optstring[1..];
      } else if posixlyCorrect {
        ordering := RequireOrder;
      } else {
        ordering := Permute;
      }
      initialized := true;
    }

    /** Permutation mode: move the options just processed in front of the pending
        non-options, then pass over further non-options. */
    method Reorder(argv: array<Arg>, ghost opts: Options)
      requires InScan(argv.Length) && lastNonopt <= optind && !Pending(nextchar) && ordering == Permute
      modifies argv, this`optind, this`firstNonopt, this`lastNonopt
      ensures InScan(argv.Length) && lastNonopt == optind
      ensures Seen(opts, argv[..]) == old(Seen(opts, argv[..])) && argv[0] == old(argv[0])
      ensures multiset(argv[..]) == multiset(old(argv[..]))
      ensures optind < argv.Length ==> !NonOption(argv[optind])
    {
      hide View, Rotated;
      if firstNonopt != lastNonopt && lastNonopt != optind {
        ViewExchange(ordering, opts, argv[..], firstNonopt, lastNonopt, optind, nextchar);
        Exchange(argv);
      } else if lastNonopt != optind {
        ViewEmptyBlock(ordering, opts, argv[..], firstNonopt, optind, nextchar);
        firstNonopt := optind;
      }
      ghost var a := argv[..];
      lastNonopt := optind;
      while optind < argv.Length && NonOption(argv[optind])
        invariant 1 <= firstNonopt <= optind <= argv.Length && lastNonopt <= optind
        invariant argv[..] == a
        invariant View(Permute, opts, a, firstNonopt, optind, optind, nextchar) == old(Seen(opts, argv[..]))
        invariant ordering == Permute && initialized && !Pending(nextchar)
      {
        ViewSkip(opts, a, firstNonopt, optind, nextchar);
        optind := optind + 1;
      }
      lastNonopt := optind;
    }

    /** The first half of a call: find the next element to work on. It ends the
        scan (`code == -1`), returns a non-option in order (`code == 1`), or enters
        an option element (`done == false`). */
    method NextElement(argv: array<Arg>, opts: Options)
      returns (done: bool, code: int, longind: Option<nat>, ghost at: int)
      requires InScan(argv.Length) && !Pending(nextchar) && optarg == Null && Sound(Seen(opts, argv[..]))
      modifies argv, this`optind, this`firstNonopt, this`lastNonopt, this`nextchar, this`optarg, this`optopt
      ensures argv[0] == old(argv[0]) && multiset(argv[..]) == multiset(old(argv[..]))
      ensures done && code == -1 ==> Finished(old(Seen(opts, argv[..])), argv[..], optind)
      ensures done && code != -1 ==>
                && InScan(argv.Length)
                && Returned(old(Seen(opts, argv[..])), Event(code, optarg, longind), Seen(opts, argv[..]))
                && ElementHandled(opts, ordering == ReturnInOrder, argv[..], at, Event(code, optarg, longind), optind,
                                  old(optopt), optopt)
      ensures !done ==> InScan(argv.Length) && optarg == Null && optopt == old(optopt)
      ensures !done ==> Pending(nextchar) && Entered(opts, argv[..], optind, nextchar.s)
      ensures !done ==> Seen(opts, argv[..]) == old(Seen(opts, argv[..]))
    {
      hide View, Rotated, Finished, Returned, Sound;
      if lastNonopt > optind {
        lastNonopt := optind;
      }
      if firstNonopt > optind {
        firstNonopt := optind;
      }
      if ordering == Permute {
        Reorder(argv, opts);
      }
      ghost var seen := Seen(opts, argv[..]);
      if optind != argv.Length && argv[optind] == Str("--") {
        DashDash(argv, opts);
        return true, -1, None, 0;
      }
      if optind == argv.Length || argv[optind].Null? {
        ViewEnd(ordering, opts, argv[..], firstNonopt, lastNonopt, optind, nextchar);
        if firstNonopt != lastNonopt {
          optind := firstNonopt;
        }
        return true, -1, None, 0;
      }
      at := optind;
      if NonOption(argv[optind]) {
        if ordering == RequireOrder {
          ViewRequireOrder(opts, argv[..], firstNonopt, optind, nextchar);
          return true, -1, None, 0;
        }
        ViewReturnInOrder(opts, argv[..], firstNonopt, optind, nextchar);
        optarg := argv[optind];
        optind := optind + 1;
        return true, 1, None, at;
      }
      done, code, longind := EnterElement(argv, opts);
    }

    /** An option element: a long option is handled at once, any other is entered. */
    method EnterElement(argv: array<Arg>, opts: Options) returns (done: bool, code: int, longind: Option<nat>)
      requires InScan(argv.Length) && !Pending(nextchar) && optarg == Null && lastNonopt <= optind < argv.Length
      requires OptionElement(argv[optind]) && Sound(Seen(opts, argv[..]))
      modifies this`optind, this`nextchar, this`optarg, this`optopt
      ensures done ==> code != -1 && InScan(argv.Length)
      ensures done ==> Returned(old(Seen(opts, argv[..])), Event(code, optarg, longind), Seen(opts, argv[..]))
      ensures done ==> ElementHandled(opts, ordering == ReturnInOrder, argv[..], old(optind),
                                      Event(code, optarg, longind), optind, old(optopt), optopt)
      ensures !done ==> InScan(argv.Length) && optind == old(optind) && optarg == Null && optopt == old(optopt)
      ensures !done ==> Pending(nextchar) && Entered(opts, argv[..], optind, nextchar.s)
      ensures !done ==> Seen(opts, argv[..]) == old(Seen(opts, argv[..]))
    {
      hide View, Returned, LongStep, NameStep, HandBack, LongText, LongReported, Sound;
      var text := LongText(opts, argv[optind].s);
      if text.Some? {
        ghost var following := argv[..][optind + 1..];
        LongStepIs(opts, argv[optind], following);
        if LongStep(opts, argv[optind].s, following).Some? {
          ViewLong(ordering, opts, argv[..], firstNonopt, lastNonopt, optind, nextchar, Null);
          ghost var step := LongStep(opts, argv[optind].s, following).value;
          ReturnedSound(Seen(opts, argv[..]), step.0,
                        View(ordering, opts, argv[..], firstNonopt, lastNonopt, optind + step.1, Null));
        }
        code, longind := ProcessLongOption(argv, opts, text.value, opts.long.longOnly);
        if code != -1 {
          return true, code, longind;
        }
      }
      NoText(opts, argv[optind].s, argv[..][optind + 1..]);
      ViewEnter(ordering, opts, argv[..], firstNonopt, lastNonopt, optind, nextchar);
      nextchar := Str(argv[optind].s[1..]);
      return false, 0, None;
    }

    /** process_long_option, on the name and what follows it in `text`; `optind` is at
        the element that holds the text. It returns -1, having done nothing, for a
        name to be read as short options. */
    method ProcessLongOption(argv: array<Arg>, opts: Options, text: string, longOnly: bool)
      returns (code: int, longind: Option<nat>)
      requires 0 <= optind < argv.Length && optarg == Null && opts.long.Long?
      requires longOnly ==> OptionElement(argv[optind]) && (argv[optind].s[1] != '-' ==> text == argv[optind].s[1..])
      requires var r := NameStep(opts, text, longOnly, HandBack(opts, longOnly, argv[optind]), argv[..][optind + 1..]);
               r.Some? ==> !r.value.0.astray
      modifies this`optind, this`nextchar, this`optarg, this`optopt
      ensures var r := NameStep(opts, text, longOnly, HandBack(opts, longOnly, argv[old(optind)]),
                                argv[..][old(optind) + 1..]);
              if r.None? then
                && code == -1 && optind == old(optind) && optarg == Null
                && nextchar == old(nextchar) && optopt == old(optopt)
              else
                && code != -1 && r.value.0 == Event(code, optarg, longind)
                && optind == old(optind) + r.value.1 <= argv.Length && nextchar == Null
      ensures optopt == LongReported(opts, text, longOnly, old(optopt), code)
    {
      hide Find, NameLength;
      ghost var following := argv[..][optind + 1..];
      longind := None;
      var nameend := NameLength(text);
      var found := FindLong(opts.long.options, text[..nameend], longOnly);
      match found {
        case Ambiguous =>
          nextchar := Null;
          optind := optind + 1;
          optopt := 0;
          return '?' as int, None;
        case NotFound =>
          if !longOnly || argv[optind].s[1] == '-' || text[0] !in opts.short {
            nextchar := Null;
            optind := optind + 1;
            optopt := 0;
            return '?' as int, None;
          }
          return -1, None;
        case Found(i) =>
          var o := opts.long.options[i];
          optind := optind + 1;
          nextchar := Null;
          assert following == argv[optind..];
          if nameend < |text| {
            if o.hasArg != NoArgument {
              optarg := Str(text[nameend + 1..]);
            } else {
              optopt := o.val;
              return '?' as int, None;
            }
          } else if o.hasArg == RequiredArgument {
            if optind < argv.Length {
              optarg := argv[optind];
              optind := optind + 1;
            } else {
              optopt := o.val;
              return if opts.short != "" && opts.short[0] == ':' then ':' as int else '?' as int, None;
            }
          }
          if o.flag.Some? {
            return 0, Some(i);
          }
          optopt := o.val;
          return o.val, Some(i);
      }
    }

    /** The element `--`, and the end of the scan behind it. */
    method DashDash(argv: array<Arg>, ghost opts: Options)
      requires InScan(argv.Length) && !Pending(nextchar) && optind < argv.Length && argv[optind] == Str("--")
      requires lastNonopt <= optind && (firstNonopt == lastNonopt || lastNonopt == optind)
      modifies argv, this`optind, this`firstNonopt, this`lastNonopt
      ensures Finished(old(Seen(opts, argv[..])), argv[..], optind) && argv[0] == old(argv[0])
      ensures multiset(argv[..]) == multiset(old(argv[..]))
    {
      hide View, Rotated, Finished;
      ViewDashDash(ordering, opts, argv[..], firstNonopt, lastNonopt, optind, nextchar);
      optind := optind + 1;
      if firstNonopt != lastNonopt && lastNonopt != optind {
        Exchange(argv);
      } else if firstNonopt == lastNonopt {
        firstNonopt := optind;
      }
      lastNonopt := argv.Length;
      optind := argv.Length;
      if firstNonopt != lastNonopt {
        optind := firstNonopt;
      }
    }

    /** The `-W` branch of a short option: the name is the rest of the element, or else
        the next element. */
    method WordOption(argv: array<Arg>, options: Options) returns (code: int, longind: Option<nat>)
      requires 0 <= optind <= argv.Length && optarg == Null
      requires nextchar.Str? && (nextchar.s != "" ==> optind < argv.Length)
      requires options.long.Long? && (nextchar.s == "" && optind < argv.Length ==> argv[optind].Str?)
      requires nextchar.s != "" || optind < argv.Length ==>
                 var text := if nextchar.s != "" then nextchar.s else TextOf(argv[optind]);
                 !WordStep(options, text, argv[..][optind + 1..]).0.astray
      modifies this`optind, this`optarg, this`optopt, this`nextchar
      ensures code != -1 && old(optind) <= optind <= argv.Length
      ensures var rest := old(nextchar.s);
              if rest == "" && old(optind) == argv.Length then
                && Event(code, optarg, longind) == Event(MissingCode(options.short), Null)
                && optind == old(optind) && nextchar == Str("") && optopt == 'W' as int
              else
                var text := if rest != "" then rest else TextOf(argv[old(optind)]);
                && WordStep(options, text, argv[..][old(optind) + 1..])
                   == (Event(code, optarg, longind), optind - old(optind))
                && nextchar == Null && optopt == LongReported(options, text, false, old(optopt), code)
    {
      hide NameStep, Find, LongReported;
      if nextchar.s != "" {
        optarg := nextchar;
      } else if optind == argv.Length {
        optopt := 'W' as int;
        return if options.short != "" && options.short[0] == ':' then ':' as int else '?' as int, None;
      } else {
        optarg := argv[optind];
      }
      nextchar := optarg;
      optarg := Null;
      code, longind := ProcessLongOption(argv, options, nextchar.s, false);
    }

    /** The argument of the short option `c`: the rest of the element, or else, if it is
        not optional, the next element. Without one, the result replaces `c`. */
    method TakeArgument(argv: array<Arg>, opts: string, c: char, optional: bool) returns (c': char)
      requires 0 <= optind <= argv.Length && optarg == Null
      requires nextchar.Str? && (nextchar.s != "" ==> optind < argv.Length)
      modifies this`optind, this`optarg, this`optopt, this`nextchar
      ensures nextchar == Null && old(optind) <= optind <= argv.Length
      ensures var rest, missing := old(nextchar.s), !optional && old(nextchar.s) == "" && old(optind) == argv.Length;
              && c' as int == (if missing then MissingCode(opts) else c as int)
              && optarg == (if rest != "" then Str(rest) else if optional || missing then Null else argv[old(optind)])
              && optind == old(optind) + if optarg == Null && (optional || missing) then 0 else 1
    {
      c' := c;
      if optional {
        if nextchar.s != "" {
          optarg := nextchar;
          optind := optind + 1;
        } else {
          optarg := Null;
        }
        nextchar := Null;
      } else {
        if nextchar.s != "" {
          optarg := nextchar;
          optind := optind + 1;
        } else if optind == argv.Length {
          optopt := c as int;
          c' := if opts != "" && opts[0] == ':' then ':' else '?';
        } else {
          optarg := argv[optind];
          optind := optind + 1;
        }
        nextchar := Null;
      }
    }

    /** One short option character. */
    method ShortOption(argv: array<Arg>, options: Options) returns (code: int, longind: Option<nat>)
      requires 0 <= optind < argv.Length && Pending(nextchar) && optarg == Null
      requires !StepTo(options, nextchar.s, argv[..][optind + 1..]).0.astray
      modifies this`optind, this`optarg, this`optopt, this`nextchar
      ensures code != -1
      ensures StepTo(options, old(nextchar.s), argv[..][old(optind) + 1..]) ==
                (Event(code, optarg, longind), optind - old(optind), nextchar)
      ensures optopt == Reported(options, old(nextchar.s), argv[..][old(optind) + 1..], old(optopt), code)
    {
      hide WordStep, LongReported, StrChr;
      ghost var following := argv[..][optind + 1..];
      longind := None;
      var opts, c := options.short, nextchar.s[0];
      nextchar := Str(nextchar.s[1..]);
      var temp := StrChr(opts, c);
      if nextchar.s == "" {
        optind := optind + 1;
        assert following == argv[optind..];
      }
      if temp == "" || c == ':' || c == ';' {
        optopt := c as int;
        return '?' as int, None;
      }
      if temp[0] == 'W' && |temp| > 1 && temp[1] == ';' && options.long.Long? {
        assert nextchar.s == "" && following != [] ==>
            following[0] == argv[optind] && following[1..] == argv[..][optind + 1..];
        code, longind := WordOption(argv, options);
        return;
      }
      if |temp| > 1 && temp[1] == ':' {
        c := TakeArgument(argv, opts, c, |temp| > 2 && temp[2] == ':');
      }
      optopt := c as int;
      return c as int, None;
    }

    /** The second half of a call: the next character of the element that is entered. */
    method NextCharacter(argv: array<Arg>, opts: Options) returns (code: int, longind: Option<nat>)
      requires InScan(argv.Length) && Pending(nextchar) && optarg == Null && Sound(Seen(opts, argv[..]))
      modifies this`optind, this`optarg, this`optopt, this`nextchar
      ensures code != -1 && InScan(argv.Length)
      ensures CharacterHandled(opts, argv[..], old(optind), old(nextchar.s), Event(code, optarg, longind), optind,
                               nextchar, old(optopt), optopt)
      ensures Returned(old(Seen(opts, argv[..])), Event(code, optarg, longind), Seen(opts, argv[..]))
    {
      hide View, Returned, OptoptRule, Reported, StepTo, Sound;
      ViewStep(ordering, opts, argv[..], firstNonopt, lastNonopt, optind, nextchar.s);
      ghost var step := StepTo(opts, nextchar.s, argv[..][optind + 1..]);
      ReturnedSound(Seen(opts, argv[..]), step.0,
                    View(ordering, opts, argv[..], firstNonopt, lastNonopt, optind + step.1, step.2));
      code, longind := ShortOption(argv, opts);
      OptoptIsCharacter(opts, old(nextchar.s), argv[..][old(optind) + 1..], old(optopt), code);
    }

    /** A call can be made: either nothing has been set up yet, or a scan is on. */
    ghost predicate Callable(argc: int)
      reads this
    {
      if optind == 0 || !initialized then 0 <= optind <= argc && 1 <= argc else InScan(argc)
    }

    /** The outcome of the run as seen before a call. */
    ghost function Outlook(optstring: string, long: LongOptions, posixlyCorrect: bool, a: seq<Arg>): Outcome
      reads this
      requires Callable(|a|)
    {
      var opts := Options(Body(optstring), long);
      if optind == 0 || !initialized then
        var start := if optind == 0 then 1 else optind;
        View(OrderingOf(optstring, posixlyCorrect), opts, a, start, start, start, Null)
      else Seen(opts, a)
    }

    /** _getopt_internal_r. A call that returns a value tells the place `at` of the
        element it worked on, and the characters `cs` it had before it when it read
        the element as short options. */
    method GetoptInternal(argv: array<Arg>, optstring: string, long: LongOptions, posixlyCorrect: bool)
      returns (code: int, longind: Option<nat>, ghost cs: string, ghost at: int)
      requires argv.Length == 0
            || (Callable(argv.Length) && Sound(Outlook(optstring, long, posixlyCorrect, argv[..])))
      modifies argv, this
      ensures argv.Length == 0 ==> code == -1 && optind == old(optind)
      ensures argv.Length > 0 ==> argv[0] == old(argv[0]) && multiset(argv[..]) == multiset(old(argv[..]))
      ensures argv.Length > 0 && code == -1 ==>
                Finished(old(Outlook(optstring, long, posixlyCorrect, argv[..])), argv[..], optind)
      ensures argv.Length > 0 && code != -1 ==>
                && InScan(argv.Length)
                && Returned(old(Outlook(optstring, long, posixlyCorrect, argv[..])), Event(code, optarg, longind),
                            Seen(Options(Body(optstring), long), argv[..]))
      ensures argv.Length > 0 ==>
                ordering == if old(optind == 0 || !initialized) then OrderingOf(optstring, posixlyCorrect)
                            else old(ordering)
      ensures code != -1 ==>
                var opts, e := Options(Body(optstring), long), Event(code, optarg, longind);
                if cs == "" then
                  ElementHandled(opts, ordering == ReturnInOrder, argv[..], at, e, optind, old(optopt), optopt)
                else CharacterHandled(opts, argv[..], at, cs, e, optind, nextchar, old(optopt), optopt)
      ensures argv.Length > 0 && code != -1 ==>
                if old(optind != 0 && initialized && Pending(nextchar)) then at == old(optind) && cs == old(nextchar.s)
                else cs != "" ==> Entered(Options(Body(optstring), long), argv[..], at, cs)
    {
      hide View, Returned, Finished, Sound, ElementHandled, CharacterHandled, Entered;
      cs, at := "", 0;
      if argv.Length < 1 {
        return -1, None, "", 0;
      }
      optarg := Null;
      var short := optstring;
      if optind == 0 || !initialized {
        short := Initialize(optstring, posixlyCorrect);
      } else if optstring != "" && (optstring[0] == '-' || optstring[0] == '+') {
        short := optstring[1..];
      }
      var opts := Options(short, long);
      if !Pending(nextchar) {
        var done;
        done, code, longind, at := NextElement(argv, opts);
        if done {
          return;
        }
      }
      cs, at := nextchar.s, optind;
      code, longind := NextCharacter(argv, opts);
    }
  }

  lemma {:induction false} ViewStart(ord: Ordering, opts: Options, a: seq<Arg>)
    requires |a| >= 1
    ensures View(ord, opts, a, 1, 1, 1, Null) == Scan(ord, opts, a[1..])
  {
    var r := Scan(ord, opts, a[1..]);
    assert a[1..1] + a[1..1] + r.opts == r.opts && a[1..1] + r.nonopts == r.nonopts;
  }

  lemma {:induction false} OneMore(done: seq<Event>, before: Outcome, e: Event, after: Outcome)
    requires Returned(before, e, after)
    ensures |after.events| < |before.events|
    ensures done + before.events == done + [e] + after.events
    ensures after == before.(events := after.events)
  {
    assert done + ([e] + after.events) == done + [e] + after.events;
  }

  /** No value of a whole scan is astray. */
  predicate NoneAstray(events: seq<Event>) {
    forall k :: 0 <= k < |events| ==> !events[k].astray
  }

  lemma {:induction false} NoneAstrayNext(v: Outcome, done: seq<Event>)
    requires NoneAstray(done + v.events)
    ensures Sound(v)
  {
    assert v.events != [] ==> v.events[0] == (done + v.events)[|done|];
  }

  /** The customary loop over getopt. It ends, and whatever the ordering, the values
      returned and the final argv are those of the reference scan. */
  method RunAll(argv: array<Arg>, optstring: string, long: LongOptions, posixlyCorrect: bool)
    returns (d: GetoptData, events: seq<Event>)
    requires argv.Length >= 1
    requires NoneAstray(Scan(OrderingOf(optstring, posixlyCorrect), Options(Body(optstring), long), argv[1..]).events)
    modifies argv
    ensures var r := Scan(OrderingOf(optstring, posixlyCorrect), Options(Body(optstring), long), old(argv[1..]));
            && events == r.events
            && argv[..] == [old(argv[0])] + r.opts + r.nonopts + r.rest
            && d.optind == 1 + |r.opts|
  {
    hide View, Returned, Finished, Scan, OrderingOf, Body, Sound, NoneAstray, ElementHandled, CharacterHandled, Entered;
    d := new GetoptData();
    events := [];
    ghost var opts := Options(Body(optstring), long);
    ghost var all := Scan(OrderingOf(optstring, posixlyCorrect), opts, argv[1..]);
    ghost var now := all;
    assert argv[..][1..] == argv[1..] && [] + all.events == all.events;
    ViewStart(OrderingOf(optstring, posixlyCorrect), opts, argv[..]);
    NoneAstrayNext(all, []);
    var code, longind, cs, at := d.GetoptInternal(argv, optstring, long, posixlyCorrect);
    while code != -1
      invariant now == all.(events := now.events) && all.events == events + now.events
      invariant argv[0] == old(argv[0])
      invariant code == -1 ==> Finished(now, argv[..], d.optind)
      invariant code != -1 ==> d.InScan(argv.Length) && d.optind > 0
      invariant code != -1 ==> Returned(now, Event(code, d.optarg, longind), d.Seen(opts, argv[..]))
      decreases |now.events| + (if code == -1 then 0 else 1)
    {
      ghost var next := d.Seen(opts, argv[..]);
      OneMore(events, now, Event(code, d.optarg, longind), next);
      events := events + [Event(code, d.optarg, longind)];
      now := next;
      NoneAstrayNext(now, events);
      code, longind, cs, at := d.GetoptInternal(argv, optstring, long, posixlyCorrect);
    }
    FinishedFacts(now, argv[..], d.optind);
    assert argv[..][..1] == [argv[0]];
  }

  lemma {:induction false} FinishedFacts(v: Outcome, a: seq<Arg>, optind: int)
    requires Finished(v, a, optind)
    ensures v.events == [] && |a| > 0 && a == a[..1] + v.opts + v.nonopts + v.rest && optind == 1 + |v.opts|
  {
  }

  /** `z` is a shuffle of `x` and `y` that keeps the order inside each. */
  predicate Interleaves(x: seq<Arg>, y: seq<Arg>, z: seq<Arg>)
    decreases |z|
  {
    if z == [] then x == [] && y == []
    else
      || (x != [] && x[0] == z[0] && Interleaves(x[1..], y, z[1..]))
      || (y != [] && y[0] == z[0] && Interleaves(x, y[1..], z[1..]))
  }

  lemma {:induction false} InterleavesRight(y: seq<Arg>)
    ensures Interleaves([], y, y)
  {
    if y != [] {
      InterleavesRight(y[1..]);
    }
  }

  lemma {:induction false} InterleavesLeft(w: seq<Arg>, x: seq<Arg>, y: seq<Arg>, z: seq<Arg>)
    requires Interleaves(x, y, z)
    ensures Interleaves(w + x, y, w + z)
  {
    if w == [] {
      assert w + x == x && w + z == z;
    } else {
      InterleavesLeft(w[1..], x, y, z);
      assert (w + x)[1..] == w[1..] + x && (w + z)[1..] == w[1..] + z;
    }
  }

  lemma {:induction false} InterleavesSame(x: seq<Arg>, y: seq<Arg>, z: seq<Arg>)
    requires Interleaves(x, y, z)
    ensures multiset(x) + multiset(y) == multiset(z)
    decreases |z|
  {
    if z != [] {
      assert z == [z[0]] + z[1..];
      if x != [] && x[0] == z[0] && Interleaves(x[1..], y, z[1..]) {
        assert x == [x[0]] + x[1..];
        InterleavesSame(x[1..], y, z[1..]);
      } else {
        assert y == [y[0]] + y[1..];
        InterleavesSame(x, y[1..], z[1..]);
      }
    }
  }

  /** How many elements an option element takes. */
  function Uses(opts: Options, args: seq<Arg>): (n: nat)
    requires args != [] && OptionElement(args[0])
    ensures 1 <= n <= |args| && n <= 3
  {
    var long := LongStep(opts, args[0].s, args[1..]);
    if long.Some? then long.value.1 else ScanChars(opts, args[0].s[1..], args[1..]).1
  }

  lemma {:induction false} ScanInterleaves(ord: Ordering, opts: Options, args: seq<Arg>)
    ensures var r := Scan(ord, opts, args);
            && Interleaves(r.opts, r.nonopts + r.rest, args)
            && (Str("--") !in r.opts ==> forall k :: 0 <= k < |r.nonopts| ==> NonOption(r.nonopts[k]))
            && (r.rest != [] ==> r.rest[0].Null? || (ord == RequireOrder && NonOption(r.rest[0])))
            && (ord != Permute && Str("--") !in r.opts ==> r.nonopts == [])
    decreases |args|
  {
    var r := Scan(ord, opts, args);
    hide Interleaves, LongStep, ScanMid;
    if args == [] || args[0].Null? || (NonOption(args[0]) && ord == RequireOrder) {
      assert r.nonopts + r.rest == args;
      InterleavesRight(args);
    } else if args[0] == Str("--") {
      InterleavesRight(args[1..]);
      InterleavesLeft([args[0]], [], args[1..], args[1..]);
      assert r.nonopts + r.rest == args[1..] && [args[0]] + args[1..] == args && [args[0]] + [] == r.opts;
    } else if NonOption(args[0]) {
      var t := Scan(ord, opts, args[1..]);
      ScanInterleaves(ord, opts, args[1..]);
      if ord == Permute {
        assert ([args[0]] + t.nonopts) + t.rest == [args[0]] + (t.nonopts + t.rest);
        InterleavesSkip(args[0], t.opts, t.nonopts + t.rest, args[1..]);
        assert [args[0]] + args[1..] == args;
      } else {
        InterleavesLeft([args[0]], t.opts, t.nonopts + t.rest, args[1..]);
        assert [args[0]] + args[1..] == args;
      }
    } else {
      ScanElement(ord, opts, args);
      hide Uses, Brings;
      var n := Uses(opts, args);
      var t := Scan(ord, opts, args[n..]);
      ScanInterleaves(ord, opts, args[n..]);
      InterleavesLeft(args[..n], t.opts, t.nonopts + t.rest, args[n..]);
      assert args[..n] + args[n..] == args;
    }
  }

  lemma {:induction false} InterleavesSkip(c: Arg, x: seq<Arg>, y: seq<Arg>, z: seq<Arg>)
    requires Interleaves(x, y, z)
    ensures Interleaves(x, [c] + y, [c] + z)
  {
    assert ([c] + y)[1..] == y && ([c] + z)[1..] == z;
  }

  /** The text names a long option whose required argument is not in it. */
  predicate NameLacks(opts: Options, text: string, longOnly: bool)
    requires opts.long.Long?
  {
    && NameLength(text) == |text|
    && var found := Find(opts.long.options, text[..NameLength(text)], longOnly);
       found.Found? && opts.long.options[found.i].hasArg == RequiredArgument
  }

  /** The option characters end with an option whose argument is not there. */
  predicate LacksArgument(opts: Options, cs: string, following: seq<Arg>)
    requires cs != ""
    decreases |cs|
  {
    match KindOf(opts, cs[0])
    case Required => |cs| == 1 && following == []
    case Word =>
      if |cs| > 1 then following == [] && NameLacks(opts, cs[1..], false)
      else following == [] || (|following| == 1 && NameLacks(opts, TextOf(following[0]), false))
    case Optional => false
    case _ => |cs| > 1 && LacksArgument(opts, cs[1..], following)
  }

  /** The option element `args[0]` lacks its argument: it comes after the last element. */
  predicate ElementLacks(opts: Options, args: seq<Arg>)
    requires args != [] && OptionElement(args[0])
  {
    var s, following := args[0].s, args[1..];
    if LongStep(opts, s, following).None? then LacksArgument(opts, s[1..], following)
    else following == [] && NameLacks(opts, LongText(opts, s).value, opts.long.longOnly)
  }

  /** The last option of `args` is still waiting for its argument. */
  predicate Starved(opts: Options, args: seq<Arg>)
    decreases |args|
  {
    if args == [] || args[0].Null? || args[0] == Str("--") then false
    else if NonOption(args[0]) then Starved(opts, args[1..])
    else ElementLacks(opts, args) || Starved(opts, args[Uses(opts, args)..])
  }

  /** `g` begins with the first `n` elements of `f`. */
  predicate Agree(f: seq<Arg>, g: seq<Arg>, n: nat) {
    n <= |f| && n <= |g| && forall k :: 0 <= k < n ==> f[k] == g[k]
  }

  /** What follows a name matters to it only as its argument. */
  lemma {:induction false} NameIgnores(opts: Options, text: string, longOnly: bool, back: bool, f: seq<Arg>,
                                       g: seq<Arg>)
    requires opts.long.Long?
    ensures var r, t := NameStep(opts, text, longOnly, back, f), NameStep(opts, text, longOnly, back, g);
            && (r.Some? <==> t.Some?)
            && (!NameLacks(opts, text, longOnly) || Agree(f, g, 1) ==> r == t)
            && (NameLacks(opts, text, longOnly) ==> r.Some? && r.value.1 == if f == [] then 1 else 2)
            && (!NameLacks(opts, text, longOnly) && r.Some? ==> r.value.1 == 1)
  {
    hide Find, NameLength;
    assert Agree(f, g, 1) ==> f[0] == g[0];
  }

  /** What follows a long option matters to it only as its argument. */
  lemma {:induction false} LongIgnores(opts: Options, s: string, f: seq<Arg>, g: seq<Arg>)
    requires |s| > 1
    ensures var r, t := LongStep(opts, s, f), LongStep(opts, s, g);
            && (r.Some? <==> t.Some?)
            && (r.Some? ==>
                  var lacks := NameLacks(opts, LongText(opts, s).value, opts.long.longOnly);
                  && (!lacks || Agree(f, g, 1) ==> r == t)
                  && r.value.1 == (if lacks && f != [] then 2 else 1))
  {
    hide NameStep, NameLacks, Agree;
    var text := LongText(opts, s);
    if text.Some? {
      NameIgnores(opts, text.value, opts.long.longOnly, HandBack(opts, opts.long.longOnly, Str(s)), f, g);
    }
  }

  /** One character reads no element behind those it uses up. */
  lemma {:induction false} StepAgain(opts: Options, cs: string, f: seq<Arg>, g: seq<Arg>)
    requires cs != "" && !LacksArgument(opts, cs, f)
    requires var s := StepTo(opts, cs, f); !Pending(s.2) ==> Agree(f, g, s.1 - 1)
    ensures StepTo(opts, cs, f) == StepTo(opts, cs, g)
    ensures !Pending(StepTo(opts, cs, f).2) ==> !LacksArgument(opts, cs, g)
  {
    hide NameStep, NameLacks;
    if KindOf(opts, cs[0]) == Word {
      if |cs| > 1 {
        NameIgnores(opts, cs[1..], false, false, f, g);
      } else {
        var text := TextOf(f[0]);
        NameIgnores(opts, text, false, false, f[1..], if g == [] then [] else g[1..]);
      }
    }
  }

  /** Option characters that do not lack an argument read the same in front of anything. */
  lemma {:induction false} CharsAgain(opts: Options, cs: string, f: seq<Arg>, g: seq<Arg>)
    requires cs != "" && !LacksArgument(opts, cs, f) && Agree(f, g, ScanChars(opts, cs, f).1 - 1)
    ensures ScanChars(opts, cs, f) == ScanChars(opts, cs, g) && !LacksArgument(opts, cs, g)
    decreases |cs|
  {
    StepAgain(opts, cs, f, g);
    if Pending(StepTo(opts, cs, f).2) {
      CharsAgain(opts, cs[1..], f, g);
    }
  }

  /** Characters that lack an argument use up all there is, and more if there is more. */
  lemma {:induction false} CharsTake(opts: Options, cs: string, f: seq<Arg>, n: seq<Arg>)
    requires cs != "" && LacksArgument(opts, cs, f)
    ensures ScanChars(opts, cs, f).1 == 1 + |f|
    ensures n != [] ==> ScanChars(opts, cs, f + n).1 > 1 + |f|
    decreases |cs|
  {
    if KindOf(opts, cs[0]) == Word {
      hide NameStep, NameLacks;
      if |cs| > 1 {
        NameIgnores(opts, cs[1..], false, false, f, f + n);
        NameIgnores(opts, cs[1..], false, false, f + n, f);
      } else if f != [] {
        var text := TextOf(f[0]);
        NameIgnores(opts, text, false, false, f[1..], (f + n)[1..]);
        NameIgnores(opts, text, false, false, (f + n)[1..], f[1..]);
      }
    } else if KindOf(opts, cs[0]) != Required {
      CharsTake(opts, cs[1..], f, n);
    }
  }

  lemma {:induction false} PassOver(opts: Options, n: seq<Arg>, rest: seq<Arg>)
    requires forall k :: 0 <= k < |n| ==> NonOption(n[k])
    ensures var r := Scan(Permute, opts, rest);
            Scan(Permute, opts, n + rest) == r.(nonopts := n + r.nonopts)
  {
    hide Scan;
    if n == [] {
      assert n + rest == rest;
      assert n + Scan(Permute, opts, rest).nonopts == Scan(Permute, opts, rest).nonopts;
    } else {
      PassOver(opts, n[1..], rest);
      assert (n + rest)[1..] == n[1..] + rest;
      ScanOther(opts, n + rest);
      var r := Scan(Permute, opts, rest);
      assert [n[0]] + (n[1..] + r.nonopts) == n + r.nonopts;
    }
  }

  /** The values an option element brings. */
  function Brings(opts: Options, args: seq<Arg>): (e: seq<Event>)
    requires args != [] && OptionElement(args[0])
  {
    var long := LongStep(opts, args[0].s, args[1..]);
    if long.Some? then [long.value.0] else ScanChars(opts, args[0].s[1..], args[1..]).0
  }

  lemma {:induction false} ScanElement(ord: Ordering, opts: Options, args: seq<Arg>)
    requires args != [] && OptionElement(args[0])
    ensures var n := Uses(opts, args);
            Scan(ord, opts, args) == Prepend(args[..n], Brings(opts, args), Scan(ord, opts, args[n..]))
  {
    if LongStep(opts, args[0].s, args[1..]).None? {
      assert Scan(ord, opts, args) == ScanMid(ord, opts, args[0].s[1..], args);
    }
  }

  /** An option element with its argument is the same in front of anything. */
  lemma {:induction false} ElementAgain(opts: Options, args: seq<Arg>, more: seq<Arg>)
    requires args != [] && OptionElement(args[0]) && !ElementLacks(opts, args)
    ensures var n := Uses(opts, args);
            var x := args[..n] + more;
            x[0] == args[0] && Uses(opts, x) == n && Brings(opts, x) == Brings(opts, args) && !ElementLacks(opts, x)
  {
    var n, s := Uses(opts, args), args[0].s;
    var x := args[..n] + more;
    assert forall k :: 0 <= k < n - 1 ==> args[1..][k] == x[1..][k];
    assert Agree(args[1..], x[1..], n - 1);
    LongIgnores(opts, s, args[1..], x[1..]);
    if LongStep(opts, s, args[1..]).None? {
      CharsAgain(opts, s[1..], args[1..], x[1..]);
    }
  }

  /** An element that lacks its argument uses up all there is, and takes what is put
      behind it. */
  lemma {:induction false} ElementTakes(opts: Options, args: seq<Arg>, n: seq<Arg>)
    requires args != [] && OptionElement(args[0]) && ElementLacks(opts, args)
    ensures Uses(opts, args) == |args|
    ensures n != [] ==> Uses(opts, args + n) > |args|
  {
    assert (args + n)[1..] == args[1..] + n;
    LongIgnores(opts, args[0].s, args[1..], args[1..] + n);
    LongIgnores(opts, args[0].s, args[1..] + n, args[1..]);
    if LongStep(opts, args[0].s, args[1..]).None? {
      CharsTake(opts, args[0].s[1..], args[1..], n);
    }
  }

  /** Options with their arguments, one after the other, and `--` at most at the end.
      Elements returned in order stand among them. */
  predicate Blocks(ord: Ordering, opts: Options, os: seq<Arg>)
    decreases |os|
  {
    || os == [] || os == [Str("--")]
    || (OptionElement(os[0]) && Blocks(ord, opts, os[Uses(opts, os)..]))
    || (ord == ReturnInOrder && NonOption(os[0]) && Blocks(ord, opts, os[1..]))
  }

  lemma {:induction false} ScanBlocks(ord: Ordering, opts: Options, args: seq<Arg>)
    ensures Blocks(ord, opts, Scan(ord, opts, args).opts)
    decreases |args|
  {
    var r := Scan(ord, opts, args);
    hide ScanMid, LongStep, Uses, Brings, ElementLacks;
    if args == [] || args[0].Null? || args[0] == Str("--") {
    } else if NonOption(args[0]) {
      if ord != RequireOrder {
        ScanBlocks(ord, opts, args[1..]);
        var t := Scan(ord, opts, args[1..]);
        assert ([args[0]] + t.opts)[1..] == t.opts;
      }
    } else {
      ScanElement(ord, opts, args);
      var n := Uses(opts, args);
      var t := Scan(ord, opts, args[n..]);
      ScanBlocks(ord, opts, args[n..]);
      if ElementLacks(opts, args) {
        ElementTakes(opts, args, []);
        assert r.opts == args && args[n..] == [];
      } else {
        ElementAgain(opts, args, t.opts);
        assert (args[..n] + t.opts)[n..] == t.opts;
      }
    }
  }

  /** Permutation keeps both orders: the final argv is a permutation of the given
      one. First come option elements, each followed by its argument, and `--`; then
      the non-options. Neither block has changed order. What counts as a non-option
      ahead of `--` is not an option element, and the scan stops short only at a null
      pointer, or at a non-option when the order is required. */
  lemma {:induction false} PermuteKeepsOrder(ord: Ordering, opts: Options, args: seq<Arg>)
    ensures var r := Scan(ord, opts, args);
            && Interleaves(r.opts, r.nonopts + r.rest, args)
            && multiset(r.opts + r.nonopts + r.rest) == multiset(args)
            && Blocks(ord, opts, r.opts)
            && (Str("--") !in r.opts ==> forall k :: 0 <= k < |r.nonopts| ==> NonOption(r.nonopts[k]))
            && (r.rest != [] ==> r.rest[0].Null? || (ord == RequireOrder && NonOption(r.rest[0])))
            && (ord != Permute && Str("--") !in r.opts ==> r.nonopts == [])
    decreases |args|
  {
    var r := Scan(ord, opts, args);
    ScanInterleaves(ord, opts, args);
    ScanBlocks(ord, opts, args);
    hide *;
    InterleavesSame(r.opts, r.nonopts + r.rest, args);
    assert r.opts + r.nonopts + r.rest == r.opts + (r.nonopts + r.rest);
  }

  /** A piece of argv: a non-option by itself, or an option element with its argument. */
  predicate Piece(opts: Options, p: seq<Arg>) {
    p != [] && ((NonOption(p[0]) && |p| == 1) || (OptionElement(p[0]) && Uses(opts, p) == |p|))
  }

  /** Only the last piece may lack its argument, and only at the end of argv. */
  predicate Pieces(opts: Options, ps: seq<seq<Arg>>, atEnd: bool) {
    forall i :: 0 <= i < |ps| ==>
      Piece(opts, ps[i]) && (OptionElement(ps[i][0]) && ElementLacks(opts, ps[i]) ==> atEnd && i == |ps| - 1)
  }

  function Flat(ps: seq<seq<Arg>>): seq<Arg> {
    if ps == [] then [] else ps[0] + Flat(ps[1..])
  }

  /** The pieces that are non-options, or those that are not. */
  function Chosen(ps: seq<seq<Arg>>, nonOptions: bool): seq<seq<Arg>> {
    if ps == [] then []
    else (if (ps[0] != [] && NonOption(ps[0][0])) == nonOptions then [ps[0]] else []) + Chosen(ps[1..], nonOptions)
  }

  /** The values that the pieces bring, one piece after the other. */
  function Values(ord: Ordering, opts: Options, ps: seq<seq<Arg>>): seq<Event> {
    if ps == [] then []
    else (if ps[0] == [] then []
          else if OptionElement(ps[0][0]) then Brings(opts, ps[0])
          else if ord == ReturnInOrder then [Event(1, ps[0][0])]
          else []) + Values(ord, opts, ps[1..])
  }

  /** The first `k` elements are cut into the pieces `ps`. */
  ghost predicate CutAt(ord: Ordering, opts: Options, args: seq<Arg>, ps: seq<seq<Arg>>, k: nat) {
    && k <= |args| && Pieces(opts, ps, k == |args|) && Flat(ps) == args[..k]
    && (ord == RequireOrder ==> Chosen(ps, true) == [])
    && (k == |args| || args[k].Null? || args[k] == Str("--") || (ord == RequireOrder && NonOption(args[k])))
  }

  /** What becomes of the pieces and of what follows them. */
  ghost predicate Partitioned(ord: Ordering, opts: Options, args: seq<Arg>, ps: seq<seq<Arg>>, k: nat, r: Outcome)
    requires k <= |args|
  {
    var kept := if ord == ReturnInOrder then ps else Chosen(ps, false);
    var moved := if ord == ReturnInOrder then [] else Chosen(ps, true);
    && r.events == Values(ord, opts, ps)
    && if k < |args| && args[k] == Str("--") then
         r == Outcome(Flat(kept) + [args[k]], Flat(moved) + args[k + 1..], [], r.events)
       else r == Outcome(Flat(kept), Flat(moved), args[k..], r.events)
  }

  /** The first piece of `args`. */
  function Head(opts: Options, args: seq<Arg>): (n: nat)
    requires args != [] && (NonOption(args[0]) || OptionElement(args[0]))
    ensures 1 <= n <= |args|
  {
    if NonOption(args[0]) then 1 else Uses(opts, args)
  }

  lemma {:induction false} HeadIsPiece(opts: Options, args: seq<Arg>)
    requires args != [] && (NonOption(args[0]) || OptionElement(args[0]))
    ensures var p := args[..Head(opts, args)];
            && Piece(opts, p) && p[0] == args[0]
            && (OptionElement(p[0]) ==> Brings(opts, p) == Brings(opts, args))
            && (OptionElement(p[0]) && ElementLacks(opts, p) ==> p == args)
  {
    hide Uses, Brings, ElementLacks;
    var n := Head(opts, args);
    if OptionElement(args[0]) {
      if ElementLacks(opts, args) {
        ElementTakes(opts, args, []);
        assert args[..n] == args;
      } else {
        ElementAgain(opts, args, []);
        assert args[..n] + [] == args[..n];
      }
    }
  }

  lemma {:induction false} PiecesCons(opts: Options, p: seq<Arg>, ps: seq<seq<Arg>>, atEnd: bool)
    requires Piece(opts, p) && Pieces(opts, ps, atEnd)
    requires OptionElement(p[0]) && ElementLacks(opts, p) ==> atEnd && ps == []
    ensures Pieces(opts, [p] + ps, atEnd)
  {
    hide Piece, ElementLacks, OptionElement;
    var all := [p] + ps;
    forall i | 0 <= i < |all|
      ensures Piece(opts, all[i])
      ensures all[i] != [] && OptionElement(all[i][0]) && ElementLacks(opts, all[i]) ==> atEnd && i == |all| - 1
    {
      if i > 0 {
        assert all[i] == ps[i - 1];
      }
    }
    PieceNonempty(opts, all);
  }

  lemma {:induction false} PieceNonempty(opts: Options, ps: seq<seq<Arg>>)
    ensures forall i :: 0 <= i < |ps| && Piece(opts, ps[i]) ==> ps[i] != []
  {
  }

  lemma {:induction false} FlatNothing(opts: Options, ps: seq<seq<Arg>>, atEnd: bool)
    requires Pieces(opts, ps, atEnd)
    ensures Flat(ps) == [] ==> ps == []
  {
    hide Uses, ElementLacks, NonOption;
  }

  lemma {:induction false} CutOne(ord: Ordering, opts: Options, args: seq<Arg>, n: nat, ps: seq<seq<Arg>>, k: nat)
    requires 1 <= n <= |args| && CutAt(ord, opts, args[n..], ps, k) && Piece(opts, args[..n])
    requires OptionElement(args[0]) && ElementLacks(opts, args[..n]) ==> n == |args|
    requires ord == RequireOrder ==> !NonOption(args[0])
    ensures CutAt(ord, opts, args, [args[..n]] + ps, n + k)
  {
    FlatNothing(opts, ps, k == |args| - n);
    PiecesCons(opts, args[..n], ps, n + k == |args|);
    hide Uses, ElementLacks, Pieces, Piece;
    FlatCons(args[..n], ps);
    assert ([args[..n]] + ps)[1..] == ps && args[..n + k] == args[..n] + args[n..][..k];
  }

  /** The outcome `t` with a piece put in front. */
  function Glued(ord: Ordering, opts: Options, p: seq<Arg>, t: Outcome): Outcome
    requires p != []
  {
    if OptionElement(p[0]) then Prepend(p, Brings(opts, p), t)
    else if ord == ReturnInOrder then Prepend(p, [Event(1, p[0])], t)
    else t.(nonopts := p + t.nonopts)
  }

  lemma {:induction false} HeadStep(ord: Ordering, opts: Options, args: seq<Arg>)
    requires args != [] && (NonOption(args[0]) || OptionElement(args[0]))
             && (ord == RequireOrder ==> !NonOption(args[0]))
    ensures var n := Head(opts, args);
            Scan(ord, opts, args) == Glued(ord, opts, args[..n], Scan(ord, opts, args[n..]))
  {
    HeadIsPiece(opts, args);
    hide Brings, Uses, ElementLacks, LongStep, ScanMid, Piece;
    if OptionElement(args[0]) {
      ScanElement(ord, opts, args);
    } else {
      assert args[..1] == [args[0]];
    }
  }

  lemma {:induction false} PartitionOne(ord: Ordering, opts: Options, args: seq<Arg>, n: nat, ps: seq<seq<Arg>>, k: nat,
                                        t: Outcome)
    requires 1 <= n <= |args| && k <= |args| - n && Partitioned(ord, opts, args[n..], ps, k, t)
    requires NonOption(args[0]) || OptionElement(args[0])
    ensures Partitioned(ord, opts, args, [args[..n]] + ps, n + k, Glued(ord, opts, args[..n], t))
  {
    var p := args[..n];
    assert p[0] == args[0];
    assert k < |args[n..]| ==> args[n..][k] == args[n + k] && args[n..][k + 1..] == args[n + k + 1..];
    assert args[n..][k..] == args[n + k..];
    FlatCons(p, ps);
    ChosenCons(p, ps, false);
    ChosenCons(p, ps, true);
    ValuesCons(ord, opts, p, ps);
    hide Flat, Chosen, Values, Brings, NonOption;
    if n + k < |args| && args[n + k] == Str("--") {
      Associate(p, Flat(if ord == ReturnInOrder then ps else Chosen(ps, false)), [args[n + k]]);
      Associate(p, Flat(Chosen(ps, true)), args[n + k + 1..]);
    }
  }

  lemma {:induction false} ChosenCons(p: seq<Arg>, ps: seq<seq<Arg>>, nonOptions: bool)
    requires p != []
    ensures var rest := Flat(Chosen(ps, nonOptions));
            Flat(Chosen([p] + ps, nonOptions)) == if NonOption(p[0]) == nonOptions then p + rest else rest
  {
    assert ([p] + ps)[1..] == ps;
    FlatCons(p, Chosen(ps, nonOptions));
    assert [] + Chosen(ps, nonOptions) == Chosen(ps, nonOptions);
  }

  lemma {:induction false} ValuesCons(ord: Ordering, opts: Options, p: seq<Arg>, ps: seq<seq<Arg>>)
    requires p != []
    ensures var rest := Values(ord, opts, ps);
            Values(ord, opts, [p] + ps) == if OptionElement(p[0]) then Brings(opts, p) + rest
                                           else if ord == ReturnInOrder then [Event(1, p[0])] + rest
                                           else rest
  {
    hide Brings;
    assert ([p] + ps)[1..] == ps && [] + Values(ord, opts, ps) == Values(ord, opts, ps);
  }

  lemma {:induction false} FlatCons(p: seq<Arg>, ps: seq<seq<Arg>>)
    ensures Flat([p] + ps) == p + Flat(ps)
  {
    assert ([p] + ps)[1..] == ps;
  }

  /** The scan is a stable partition: argv, up to where the scan ends, is cut into
      pieces, each option element keeping the elements right behind it that it takes;
      the options and the non-options are then picked out in order, `--` goes to the
      options and all behind it to the non-options. The values returned are those of
      the pieces. */
  lemma {:induction false} StablePartition(ord: Ordering, opts: Options, args: seq<Arg>)
    returns (ps: seq<seq<Arg>>, k: nat)
    ensures CutAt(ord, opts, args, ps, k) && Partitioned(ord, opts, args, ps, k, Scan(ord, opts, args))
    decreases |args|
  {
    hide *;
    if Stops(ord, args) {
      ps, k := [], 0;
      PartitionNothing(ord, opts, args);
    } else {
      StopsOr(ord, args);
      var n := Head(opts, args);
      ps, k := StablePartition(ord, opts, args[n..]);
      PartitionStep(ord, opts, args, n, ps, k);
      ps, k := [args[..n]] + ps, n + k;
    }
  }

  /** The scan ends ahead of these elements. */
  predicate Stops(ord: Ordering, args: seq<Arg>) {
    args == [] || args[0].Null? || args[0] == Str("--") || (NonOption(args[0]) && ord == RequireOrder)
  }

  lemma {:induction false} StopsOr(ord: Ordering, args: seq<Arg>)
    requires !Stops(ord, args)
    ensures args != [] && (NonOption(args[0]) || OptionElement(args[0]))
            && (ord == RequireOrder ==> !NonOption(args[0]))
  {
  }

  lemma {:induction false} PartitionNothing(ord: Ordering, opts: Options, args: seq<Arg>)
    requires Stops(ord, args)
    ensures CutAt(ord, opts, args, [], 0) && Partitioned(ord, opts, args, [], 0, Scan(ord, opts, args))
  {
    hide ScanMid, LongStep;
    assert args[..0] == [] && args[0..] == args;
  }

  lemma {:induction false} PartitionStep(ord: Ordering, opts: Options, args: seq<Arg>, n: nat, ps: seq<seq<Arg>>,
                                         k: nat)
    requires args != [] && (NonOption(args[0]) || OptionElement(args[0]))
             && (ord == RequireOrder ==> !NonOption(args[0]))
    requires n == Head(opts, args) && CutAt(ord, opts, args[n..], ps, k)
    requires Partitioned(ord, opts, args[n..], ps, k, Scan(ord, opts, args[n..]))
    ensures CutAt(ord, opts, args, [args[..n]] + ps, n + k)
    ensures Partitioned(ord, opts, args, [args[..n]] + ps, n + k, Scan(ord, opts, args))
  {
    HeadIsPiece(opts, args);
    CutLength(ord, opts, args[n..], ps, k);
    hide Scan, Brings, Piece, Head, CutAt, Partitioned, Glued, ElementLacks;
    HeadStep(ord, opts, args);
    CutOne(ord, opts, args, n, ps, k);
    PartitionOne(ord, opts, args, n, ps, k, Scan(ord, opts, args[n..]));
  }

  lemma {:induction false} CutLength(ord: Ordering, opts: Options, args: seq<Arg>, ps: seq<seq<Arg>>, k: nat)
    requires CutAt(ord, opts, args, ps, k)
    ensures k <= |args|
  {
  }

  /** No long option has -1 as its value. */
  predicate Plain(opts: Options) {
    opts.long.Long? ==>
      forall i :: 0 <= i < |opts.long.options| ==> opts.long.options[i].flag.Some? || opts.long.options[i].val != -1
  }

  lemma {:induction false} NamePlain(opts: Options, text: string, longOnly: bool, back: bool, following: seq<Arg>)
    requires Plain(opts) && opts.long.Long?
    ensures var r := NameStep(opts, text, longOnly, back, following); r.Some? ==> !r.value.0.astray
  {
    hide Find, NameLength;
  }

  lemma {:induction false} StepPlain(opts: Options, cs: string, following: seq<Arg>)
    requires Plain(opts) && cs != "" && Null !in following
    ensures !StepTo(opts, cs, following).0.astray
  {
    hide NameStep, Plain;
    if KindOf(opts, cs[0]) == Word {
      if |cs| > 1 {
        NamePlain(opts, cs[1..], false, false, following);
      } else if following != [] {
        assert following[0] in following;
        NamePlain(opts, TextOf(following[0]), false, false, following[1..]);
      }
    }
  }

  lemma {:induction false} CharsPlain(opts: Options, cs: string, following: seq<Arg>)
    requires Plain(opts) && cs != "" && Null !in following
    ensures NoneAstray(ScanChars(opts, cs, following).0)
    decreases |cs|
  {
    StepPlain(opts, cs, following);
    hide StepTo, Plain;
    if Pending(StepTo(opts, cs, following).2) {
      CharsPlain(opts, cs[1..], following);
    }
  }

  lemma {:induction false} BringsPlain(opts: Options, args: seq<Arg>)
    requires Plain(opts) && args != [] && OptionElement(args[0]) && Null !in args
    ensures NoneAstray(Brings(opts, args))
  {
    var s := args[0].s;
    forall a | a in args[1..] ensures a in args {}
    hide NameStep, ScanChars, Plain;
    if LongStep(opts, s, args[1..]).Some? {
      var longOnly := opts.long.longOnly;
      NamePlain(opts, LongText(opts, s).value, longOnly, HandBack(opts, longOnly, Str(s)), args[1..]);
    } else {
      CharsPlain(opts, s[1..], args[1..]);
    }
  }

  /** An argv without null pointers, scanned for options none of which has the value -1,
      never leads astray. */
  lemma {:induction false} PlainScan(ord: Ordering, opts: Options, args: seq<Arg>)
    requires Plain(opts) && Null !in args
    ensures NoneAstray(Scan(ord, opts, args).events)
    decreases |args|
  {
    hide Plain, LongStep, ScanMid, Brings, Uses;
    if args == [] || args[0].Null? || args[0] == Str("--") {
    } else if NonOption(args[0]) {
      if ord != RequireOrder {
        assert Null !in args[1..];
        PlainScan(ord, opts, args[1..]);
      }
    } else {
      BringsPlain(opts, args);
      ScanElement(ord, opts, args);
      assert Null !in args[Uses(opts, args)..];
      PlainScan(ord, opts, args[Uses(opts, args)..]);
    }
  }

  /** The reference scan in permutation mode, where no option starts. */
  lemma {:induction false} ScanOther(opts: Options, args: seq<Arg>)
    ensures args == [] || args[0].Null? ==>
              Scan(Permute, opts, args) == Outcome([], [], args, []) && !Starved(opts, args)
    ensures args != [] && args[0] == Str("--") ==>
              Scan(Permute, opts, args) == Outcome([args[0]], args[1..], [], []) && !Starved(opts, args)
    ensures args != [] && NonOption(args[0]) ==>
              var t := Scan(Permute, opts, args[1..]);
              && Scan(Permute, opts, args) == t.(nonopts := [args[0]] + t.nonopts)
              && Starved(opts, args) == Starved(opts, args[1..])
  {
    hide ScanMid, LongStep;
  }

  /** The scan of the options found, then pending non-options, then the rest. */
  lemma {:induction false} ScanAgain(opts: Options, args: seq<Arg>, n: seq<Arg>)
    requires forall k :: 0 <= k < |n| ==> NonOption(n[k])
    ensures var r := Scan(Permute, opts, args);
            var again := Scan(Permute, opts, r.opts + n + r.nonopts + r.rest);
            again == r.(nonopts := n + r.nonopts) <==> !(Starved(opts, args) && n + r.nonopts != [])
    decreases |args|
  {
    hide Scan, Starved;
    var r := Scan(Permute, opts, args);
    ScanOther(opts, args);
    if args == [] || args[0].Null? {
      PassOver(opts, n, args);
      assert r.opts + n + r.nonopts + r.rest == n + args;
    } else if args[0] == Str("--") {
      var all := [args[0]] + (n + r.nonopts);
      assert r.opts + n + r.nonopts + r.rest == all && all[1..] == n + r.nonopts;
      ScanOther(opts, all);
    } else if NonOption(args[0]) {
      var t := Scan(Permute, opts, args[1..]);
      ScanAgain(opts, args[1..], n + [args[0]]);
      assert r.opts + n + r.nonopts + r.rest == t.opts + (n + [args[0]]) + t.nonopts + t.rest;
      assert n + r.nonopts == n + [args[0]] + t.nonopts;
    } else {
      OptionAgain(opts, args, n);
    }
  }

  lemma {:induction false} Regroup(a: seq<Arg>, b: seq<Arg>, c: seq<Arg>, d: seq<Arg>, e: seq<Arg>)
    ensures (a + b) + c + d + e == a + (b + c + d + e)
  {
    assert (a + b) + c == a + (b + c);
    assert (a + (b + c)) + d == a + (b + c + d);
    assert (a + (b + c + d)) + e == a + (b + c + d + e);
  }

  lemma {:induction false} OptionAgain(opts: Options, args: seq<Arg>, n: seq<Arg>)
    requires args != [] && OptionElement(args[0])
    requires forall k :: 0 <= k < |n| ==> NonOption(n[k])
    ensures var r := Scan(Permute, opts, args);
            var again := Scan(Permute, opts, r.opts + n + r.nonopts + r.rest);
            again == r.(nonopts := n + r.nonopts) <==> !(Starved(opts, args) && n + r.nonopts != [])
    decreases |args|, 0
  {
    hide Brings, Uses, ElementLacks, LongStep, ScanMid;
    var m, e := Uses(opts, args), Brings(opts, args);
    var r, t := Scan(Permute, opts, args), Scan(Permute, opts, args[m..]);
    var x := t.opts + n + t.nonopts + t.rest;
    ScanElement(Permute, opts, args);
    assert r == Prepend(args[..m], e, t);
    Regroup(args[..m], t.opts, n, t.nonopts, t.rest);
    if ElementLacks(opts, args) {
      ElementTakes(opts, args, n);
      assert t == Outcome([], [], [], []) && args[..m] == args;
      assert x == n && n + r.nonopts == n;
      if n != [] {
        ScanElement(Permute, opts, args + n);
        assert |Scan(Permute, opts, args + n).opts| > |args| == |r.opts|;
      } else {
        assert args + n == args && n + r.nonopts == r.nonopts;
      }
    } else {
      ElementAgain(opts, args, x);
      ScanElement(Permute, opts, args[..m] + x);
      assert (args[..m] + x)[..m] == args[..m] && (args[..m] + x)[m..] == x;
      ScanAgain(opts, args[m..], n);
      PrependSame(args[..m], e, Scan(Permute, opts, x), t.(nonopts := n + t.nonopts));
    }
  }

  lemma {:induction false} PrependSame(used: seq<Arg>, e: seq<Event>, r: Outcome, t: Outcome)
    ensures Prepend(used, e, r) == Prepend(used, e, t) <==> r == t
  {
    assert (used + r.opts)[|used|..] == r.opts && (used + t.opts)[|used|..] == t.opts;
    assert (e + r.events)[|e|..] == r.events && (e + t.events)[|e|..] == t.events;
  }

  /** Scanning the permuted argv once more returns the same values and leaves it as
      it is, with exactly one exception: an option at the very end that lacks its
      argument will, on the second scan, take a non-option moved behind it. */
  lemma {:induction false} PermutedIsStable(opts: Options, args: seq<Arg>)
    ensures var r := Scan(Permute, opts, args);
            Scan(Permute, opts, r.opts + r.nonopts + r.rest) == r <==> !(Starved(opts, args) && r.nonopts != [])
  {
    hide *;
    var r := Scan(Permute, opts, args);
    ScanAgain(opts, args, []);
    assert r.opts + [] + r.nonopts == r.opts + r.nonopts && [] + r.nonopts == r.nonopts;
  }

  /** "-a" alone with "a:" reports the missing argument. */
  lemma LonelyOption()
    ensures "-a"[1..] == "a" && KindOf(Options("a:", NoLong), 'a') == Required
    ensures Scan(Permute, Options("a:", NoLong), [Str("-a")]) == Outcome([Str("-a")], [], [], [Event('?' as int, Null)])
  {
    var opts, args := Options("a:", NoLong), [Str("-a")];
    assert StrChr("a:", 'a') == "a:" && args[1..] == [];
    assert ScanChars(opts, "a", []) == ([Event('?' as int, Null)], 1);
    ScanElement(Permute, opts, args);
  }

  /** The exception at work: "x -a" with "a:" reports the missing argument, and its
      permuted form "-a x" gives `x` to the option. */
  lemma SecondScanDiffers()
    ensures var args, opts := [Str("x"), Str("-a")], Options("a:", NoLong);
            var r := Scan(Permute, opts, args);
            && r == Outcome([Str("-a")], [Str("x")], [], [Event('?' as int, Null)])
            && Scan(Permute, opts, r.opts + r.nonopts).events == [Event('a' as int, Str("x"))]
  {
    var opts, args := Options("a:", NoLong), [Str("x"), Str("-a")];
    LonelyOption();
    assert args[1..] == [Str("-a")];
    var y := [Str("-a")] + [Str("x")];
    assert y[1..] == [Str("x")] && y[2..] == [];
    assert ScanChars(opts, "a", y[1..]) == ([Event('a' as int, Str("x"))], 2);
    ScanElement(Permute, opts, y);
  }

  lemma {:induction false} OneEvent(v: Outcome, e: Event, a: seq<Arg>, optind: int)
    requires v.events == [e]
    ensures !Finished(v, a, optind)
    ensures forall e', after :: Returned(v, e', after) ==> e' == e
  {
    forall e', after | Returned(v, e', after)
      ensures e' == e
    {
      assert v.events[0] == e';
    }
  }

  /** What the contract of a call says about the only element, "-a". */
  lemma {:induction false} LonelyHandled(a: seq<Arg>, at: int, cs: string, e: Event, optind: int, nextchar: Arg,
                                         before: int, optopt: int)
    requires a == [Str("prog"), Str("-a")]
    requires cs == "" ==> ElementHandled(Options("a:", NoLong), false, a, at, e, optind, before, optopt)
    requires cs != "" ==> CharacterHandled(Options("a:", NoLong), a, at, cs, e, optind, nextchar, before, optopt)
    requires cs != "" ==> Entered(Options("a:", NoLong), a, at, cs)
    ensures optopt == '?' as int
  {
    LonelyOption();
    assert a[2..] == [] && !NonOption(a[1]);
  }

  lemma {:induction false} SecondKept(a: seq<Arg>, b: seq<Arg>)
    requires |a| == |b| == 2 && a[0] == b[0] && multiset(a) == multiset(b)
    ensures a == b
  {
    assert a == [a[0], a[1]] && b == [a[0], b[1]];
    assert multiset(a) - multiset{a[0]} == multiset{a[1]} && multiset(b) - multiset{a[0]} == multiset{b[1]};
    assert a[1] in multiset{b[1]};
  }

  lemma LonelyCall(d: GetoptData, a: seq<Arg>)
    requires !d.initialized && d.optind == 1 && d.nextchar == Null && a == [Str("prog"), Str("-a")]
    ensures Body("a:") == "a:" && OrderingOf("a:", false) == Permute && d.Callable(|a|)
    ensures d.Outlook("a:", NoLong, false, a).events == [Event('?' as int, Null)]
    ensures Sound(d.Outlook("a:", NoLong, false, a))
  {
    LonelyOption();
    assert a[1..] == [Str("-a")];
    ViewStart(Permute, Options("a:", NoLong), a);
  }

  /** The call on "-a" with "a:" and nothing behind it: optopt loses the `a`. */
  method OptoptIsLost() returns (code: int, optopt: int)
    ensures code == '?' as int && optopt == '?' as int
  {
    hide *;
    var argv := new Arg[2] [Str("prog"), Str("-a")];
    var d := new GetoptData();
    ghost var a := argv[..];
    LonelyCall(d, a);
    ghost var look := d.Outlook("a:", NoLong, false, a);
    var c, longind, cs, at := d.GetoptInternal(argv, "a:", NoLong, false);
    OneEvent(look, Event('?' as int, Null), argv[..], d.optind);
    assert c == '?' as int;
    SecondKept(a, argv[..]);
    LonelyHandled(argv[..], at, cs, Event(c, d.optarg, longind), d.optind, d.nextchar, '?' as int, d.optopt);
    code, optopt := c, d.optopt;
  }
}
