/** The search loop and its accelerations (re_search_internal of
    src/regex/regexec.c, re_compile_fastmap of src/regex/regcomp.c). */
module Search {
  import opened Language
  import opened NodeSets
  import opened Closure
  import opened Dfa
  import opened Simulation
  import opened Match
  import opened Sift
  import N = Nfa

  /** A fastmap is usable when it marks every byte, or when no match is empty and
      every byte that can start a match is marked. */
  ghost predicate FastmapOk(re: Program, last: nat, fastmap: seq<bool>)
    requires re.init < |re.ecl|
  {
    && |fastmap| == 256
    && ((forall c: Byte :: fastmap[c])
        || (last !in Elems(re.ecl[re.init])
            && forall n, c: Byte :: n in Elems(re.ecl[re.init]) && n < |re.g.nodes| && Accepts(re.syn, re.g.nodes[n], c)
                 ==> fastmap[c]))
  }

  /** Some node of `p` accepts `c`. */
  ghost predicate Taken(re: Program, p: seq<nat>, c: Byte) {
    exists n :: n in p && n < |re.g.nodes| && Accepts(re.syn, re.g.nodes[n], c)
  }

  /** What the scan has marked after the nodes `p`. */
  ghost predicate Marked(re: Program, last: nat, p: seq<nat>, fastmap: seq<bool>) {
    |fastmap| == 256 && last !in p && forall c: Byte :: fastmap[c] <==> Taken(re, p, c)
  }

  lemma {:induction false} TakenMore(re: Program, p: seq<nat>, n: nat)
    requires n < |re.g.nodes|
    ensures forall c: Byte :: Taken(re, p + [n], c) <==> Taken(re, p, c) || Accepts(re.syn, re.g.nodes[n], c)
  {
    forall c: Byte
      ensures Taken(re, p + [n], c) <==> Taken(re, p, c) || Accepts(re.syn, re.g.nodes[n], c)
    {
      if Taken(re, p, c) {
        var m :| m in p && m < |re.g.nodes| && Accepts(re.syn, re.g.nodes[m], c);
        assert m in p + [n];
      }
      if Accepts(re.syn, re.g.nodes[n], c) {
        assert n in p + [n];
      }
    }
  }

  lemma {:induction false} MarkedIsOk(re: Program, last: nat, fastmap: seq<bool>)
    requires re.init < |re.ecl| && Marked(re, last, re.ecl[re.init], fastmap)
    ensures FastmapOk(re, last, fastmap)
  {
    forall n, c: Byte | n in Elems(re.ecl[re.init]) && n < |re.g.nodes| && Accepts(re.syn, re.g.nodes[n], c)
      ensures fastmap[c]
    {
      assert Taken(re, re.ecl[re.init], c);
    }
  }

  /** re_compile_fastmap. The scan stops at the first period or END_OF_RE and marks
      every byte; otherwise exactly the bytes some initial node accepts are marked.
      So `canBeNull` is set only when END_OF_RE comes before any period. */
  method CompileFastmap(re: Program, ghost last: nat, init: State) returns (fastmap: seq<bool>, canBeNull: bool)
    requires Compiled(re, last) && re.init < |re.ecl| && init.nodes == re.ecl[re.init]
    ensures FastmapOk(re, last, fastmap) || canBeNull
    ensures forall n :: n in init.nodes ==> n < |re.g.nodes|
    ensures canBeNull <==>
              exists i :: 0 <= i < |init.nodes| && init.nodes[i] == last
                          && forall j :: 0 <= j < i ==> re.g.nodes[init.nodes[j]] != Period
    ensures |fastmap| == 256
    ensures forall c: Byte ::
              fastmap[c] <==>
              || last in init.nodes
              || exists n :: n in init.nodes && (re.g.nodes[n] == Period || Accepts(re.syn, re.g.nodes[n], c))
  {
    var map_ := new bool[256](_ => false);
    canBeNull := false;
    var nodes := init.nodes;
    assert nodes[..0] == [];
    forall i | 0 <= i < |nodes| ensures nodes[i] < |re.g.nodes| {
      EndIsLast(re, last, nodes, i);
    }
    hide Compiled, FastmapOk, Taken;
    for i := 0 to |nodes|
      invariant Marked(re, last, nodes[..i], map_[..])
      invariant forall j :: 0 <= j < i ==> re.g.nodes[nodes[j]] != Period
      invariant !canBeNull
    {
      EndIsLast(re, last, nodes, i);
      assert nodes[..i + 1] == nodes[..i] + [nodes[i]];
      var tok := re.g.nodes[nodes[i]];
      if tok.Period? || tok.EndOfRe? {
        forall c | 0 <= c < 256 {
          map_[c] := true;
        }
        AllMarked(re, last, map_[..]);
        StopsAt(re, last, nodes, i);
        return map_[..], tok.EndOfRe?;
      }
      MarkedMore(re, last, nodes[..i], nodes[i], map_[..]);
      hide Marked;
      MarkBytes(map_, tok, re.syn);
    }
    assert nodes[..|nodes|] == nodes;
    fastmap := map_[..];
    MarkedIsOk(re, last, fastmap);
    MarkedText(re, last, nodes, fastmap);
  }

  lemma {:induction false} EndIsLast(re: Program, last: nat, nodes: seq<nat>, i: nat)
    requires Compiled(re, last) && re.init < |re.ecl| && nodes == re.ecl[re.init] && i < |nodes|
    ensures nodes[i] < |re.g.nodes| && (nodes[i] == last <==> re.g.nodes[nodes[i]].EndOfRe?)
  {
    InRange(re.g, re.init, nodes);
    assert N.Closed1(re.g, nodes[i], last);
  }

  lemma {:induction false} AllMarked(re: Program, last: nat, fastmap: seq<bool>)
    requires re.init < |re.ecl| && |fastmap| == 256 && forall c :: 0 <= c < 256 ==> fastmap[c]
    ensures FastmapOk(re, last, fastmap)
  {
  }

  /** Adding the bytes `n` accepts brings the marks up to date. */
  lemma {:induction false} MarkedMore(re: Program, last: nat, p: seq<nat>, n: nat, fastmap: seq<bool>)
    requires Marked(re, last, p, fastmap) && n < |re.g.nodes| && n != last
    ensures forall m: seq<bool> ::
              |m| == 256 && (forall c: Byte :: m[c] <==> fastmap[c] || Accepts(re.syn, re.g.nodes[n], c))
              ==> Marked(re, last, p + [n], m)
  {
    TakenMore(re, p, n);
  }

  /** Where the scan stops: at the first END_OF_RE or period. */
  lemma {:induction false} StopsAt(re: Program, last: nat, nodes: seq<nat>, i: nat)
    requires i < |nodes| && last !in nodes[..i] && forall j :: 0 <= j < |nodes| ==> nodes[j] < |re.g.nodes|
    requires forall j :: 0 <= j < i ==> re.g.nodes[nodes[j]] != Period
    requires nodes[i] == last || re.g.nodes[nodes[i]] == Period
    requires nodes[i] == last ==> re.g.nodes[nodes[i]] != Period
    ensures nodes[i] == last <==>
              exists k :: 0 <= k < |nodes| && nodes[k] == last
                          && forall j :: 0 <= j < k ==> re.g.nodes[nodes[j]] != Period
    ensures last in nodes || exists n :: n in nodes && re.g.nodes[n] == Period
  {
    forall k | 0 <= k < i ensures nodes[k] != last {
      assert nodes[..i][k] == nodes[k];
    }
    assert nodes[i] in nodes;
  }

  lemma {:induction false} MarkedText(re: Program, last: nat, nodes: seq<nat>, fastmap: seq<bool>)
    requires Marked(re, last, nodes, fastmap) && forall j :: 0 <= j < |nodes| ==> nodes[j] < |re.g.nodes|
    requires forall j :: 0 <= j < |nodes| ==> re.g.nodes[nodes[j]] != Period
    ensures last !in nodes && |fastmap| == 256
    ensures forall c: Byte ::
              fastmap[c] <==>
              exists n :: n in nodes && (re.g.nodes[n] == Period || Accepts(re.syn, re.g.nodes[n], c))
  {
  }

  /** The marks a character or a bracket makes. */
  method MarkBytes(map_: array<bool>, tok: Token, syn: Syntax)
    requires map_.Length == 256 && !tok.Period?
    modifies map_
    ensures forall c: Byte :: map_[c] <==> old(map_[c]) || Accepts(syn, tok, c)
  {
    if tok.Character? {
      map_[tok.c] := true;
    } else if tok.SimpleBracket? {
      for ch := 0 to 256
        invariant forall c: Byte :: map_[c] <==> old(map_[c]) || (c < ch && c in tok.sbcset)
      {
        if ch in tok.sbcset {
          map_[ch] := true;
        }
      }
    }
  }

  /** What the matcher sees from position `i`. */
  function Visible(str: seq<Byte>, i: nat, stop: nat): seq<Byte>
    requires i <= |str| && stop <= |str|
  {
    if i <= stop then str[i..stop] else []
  }

  /** Some match begins at `i`. */
  ghost predicate Hits(re: Program, last: nat, str: seq<Byte>, stop: nat, i: nat)
    requires re.init < |re.ecl| && i <= |str| && stop <= |str|
  {
    exists e :: 0 <= e <= |Visible(str, i, stop)| && Halts(re, last, Visible(str, i, stop)[..e])
  }

  /** An unmarked byte cannot start a match, and neither can the end of the text. */
  lemma {:induction false} UnmarkedMisses(re: Program, last: nat, fastmap: seq<bool>, str: seq<Byte>, stop: nat, i: nat)
    requires Compiled(re, last) && re.init < |re.ecl| && FastmapOk(re, last, fastmap)
    requires i <= |str| && stop <= |str| && !fastmap[if i < |str| then str[i] else 0]
    ensures !Hits(re, last, str, stop, i)
  {
    var v := Visible(str, i, stop);
    forall e | 0 <= e <= |v| ensures !Halts(re, last, v[..e]) {
      if e == 0 {
        assert v[..e] == [];
      } else {
        assert v[0] == str[i] && v[..1] == [str[i]] && v[..1][..0] == [];
        forall n: nat | n in After(re, []) && n < |re.g.nodes| ensures !Accepts(re.syn, re.g.nodes[n], str[i]) {
        }
        assert SetStep(re, After(re, []), str[i]) == {};
        DeadStaysDead(re, v[..1], v[1..e]);
        assert v[..1] + v[1..e] == v[..e];
      }
    }
  }

  /** No match begins in `lo .. hi`. */
  ghost predicate Missed(re: Program, last: nat, str: seq<Byte>, stop: nat, lo: int, hi: int)
    requires re.init < |re.ecl| && stop <= |str|
  {
    forall i :: 0 <= i <= |str| && lo <= i < hi ==> !Hits(re, last, str, stop, i)
  }

  /** The fields of `regex_t` the search reads, and `has_plural_match`. */
  datatype Regex = Regex(fastmap: seq<bool>, haveFastmap: bool, canBeNull: bool, noSub: bool, nsub: nat, plural: bool)

  ghost predicate RegexOk(re: Program, last: nat, rx: Regex)
    requires re.init < |re.ecl|
  {
    && (rx.haveFastmap ==> FastmapOk(re, last, rx.fastmap) || rx.canBeNull)
    && (!rx.noSub && rx.nsub > 0 && rx.plural ==> re.hasInv)
  }

  /** Match from one start position, pruning the log when registers are wanted. */
  method Attempt(d: Dfa, init: State, input: seq<Byte>, nmatch: nat, rx: Regex, track: bool)
    returns (matchLast: int, advance: nat)
    requires d.Valid() && init in d.states && d.re.init < |d.re.ecl| && init.nodes == d.re.ecl[d.re.init]
    requires RegexOk(d.re, d.last, rx) && nmatch <= rx.nsub + 1
    modifies d`stateTable, d`states, d.states`trtable, d.states`inveclosure
    ensures d.Valid() && old(d.states) <= d.states && fresh(d.states - old(d.states))
    ensures BestEnd(d.re, d.last, input, nmatch != 0, matchLast)
    ensures (matchLast >= 0 || !track ==> advance == 0) && advance <= |input|
    ensures matchLast == -1 ==> NoStartsWithin(d.re, d.last, input, advance)
  {
    hide Registered, TableOk, CacheOk, Compiled, NoStartsWithin;
    var log;
    matchLast, advance, log := CheckMatching(d, init, input, nmatch != 0, track);
    if matchLast != -1 && !rx.noSub && nmatch > 1 && rx.plural {
      var ok, pruned := PruneImpossibleNodes(d, input, log, matchLast);
      if !ok {
        matchLast := -1;
      }
    }
  }

  lemma {:induction false} MissedMore(re: Program, last: nat, str: seq<Byte>, stop: nat, lo: int, mid: int, hi: int)
    requires re.init < |re.ecl| && stop <= |str|
    requires Missed(re, last, str, stop, lo, mid) && Missed(re, last, str, stop, mid, hi)
    ensures Missed(re, last, str, stop, lo, hi)
  {
  }

  /** A failed attempt rules out its start and the starts it skipped. */
  lemma {:induction false} AttemptMissed(re: Program, last: nat, str: seq<Byte>, stop: nat, i: nat, longest: bool,
                                         n: nat)
    requires re.init < |re.ecl| && stop <= |str| && i <= |str| && n <= |Visible(str, i, stop)|
    requires BestEnd(re, last, Visible(str, i, stop), longest, -1)
    requires NoStartsWithin(re, last, Visible(str, i, stop), n)
    ensures Missed(re, last, str, stop, i, i + n + 1)
  {
    var v := Visible(str, i, stop);
    forall j | 0 <= j <= |str| && i <= j < i + n + 1 ensures !Hits(re, last, str, stop, j) {
      var k := j - i;
      var u := Visible(str, j, stop);
      assert u == v[k..];
      forall e | 0 <= e <= |u| ensures !Halts(re, last, u[..e]) {
        assert u[..e] == v[k..k + e];
        assert k == 0 ==> u[..e] == v[..e];
      }
    }
  }

  /** Match kind 6: advance to the next marked byte, but not past the limit. */
  method SkipForward(re: Program, ghost last: nat, fastmap: seq<bool>, str: seq<Byte>, ghost stop: nat,
                     from: nat, rightLim: nat) returns (m: nat)
    requires Compiled(re, last) && re.init < |re.ecl| && FastmapOk(re, last, fastmap)
    requires from <= rightLim <= |str| && stop <= |str|
    ensures from <= m <= rightLim && Missed(re, last, str, stop, from, m)
  {
    hide Missed, Hits, Compiled;
    m := from;
    NothingMissed(re, last, str, stop, from);
    while m < rightLim && !fastmap[str[m]]
      invariant from <= m <= rightLim && Missed(re, last, str, stop, from, m)
    {
      UnmarkedMisses(re, last, fastmap, str, stop, m);
      OneMissed(re, last, str, stop, m);
      MissedMore(re, last, str, stop, from, m, m + 1);
      m := m + 1;
    }
  }

  /** Match kind 4: retreat to the previous marked byte. */
  method SkipBackward(re: Program, ghost last: nat, fastmap: seq<bool>, str: seq<Byte>, ghost stop: nat,
                      from: nat, leftLim: nat) returns (m: int)
    requires Compiled(re, last) && re.init < |re.ecl| && FastmapOk(re, last, fastmap)
    requires leftLim <= from <= |str| && stop <= |str|
    ensures leftLim - 1 <= m <= from && Missed(re, last, str, stop, m + 1, from + 1)
  {
    hide Missed, Hits, Compiled;
    m := from;
    NothingMissed(re, last, str, stop, from);
    while m >= leftLim
      invariant leftLim - 1 <= m <= from && Missed(re, last, str, stop, m + 1, from + 1)
    {
      var ch: Byte := if m >= |str| then 0 else str[m];
      if fastmap[ch] {
        break;
      }
      UnmarkedMisses(re, last, fastmap, str, stop, m);
      OneMissed(re, last, str, stop, m);
      MissedMore(re, last, str, stop, m, m + 1, from + 1);
      m := m - 1;
    }
  }

  /** The starts tried so far, from `start` up to `m` in the direction of the search. */
  ghost predicate RuledOut(re: Program, last: nat, str: seq<Byte>, stop: nat, start: nat, forward: bool, m: int)
    requires re.init < |re.ecl| && stop <= |str|
  {
    if forward then Missed(re, last, str, stop, start, m) else Missed(re, last, str, stop, m + 1, start + 1)
  }

  /** The match the search has to return: the first start in the direction of the
      search, and the best end for it. */
  ghost predicate SearchResult(re: Program, last: nat, str: seq<Byte>, start: nat, lastStart: nat, stop: nat,
                               longest: bool, matchFirst: int, matchLast: int)
    requires re.init < |re.ecl| && start <= |str| && lastStart <= |str| && stop <= |str|
  {
    if matchLast == -1 then
      Missed(re, last, str, stop, if start <= lastStart then start else lastStart,
             (if start <= lastStart then lastStart else start) + 1)
    else
      && matchLast >= 0 && 0 <= matchFirst <= |str|
      && BestEnd(re, last, Visible(str, matchFirst, stop), longest, matchLast)
      && (start <= lastStart ==> start <= matchFirst <= lastStart && Missed(re, last, str, stop, start, matchFirst))
      && (start > lastStart ==>
            lastStart <= matchFirst <= start && Missed(re, last, str, stop, matchFirst + 1, start + 1))
  }

  lemma {:induction false} MissedText(re: Program, last: nat, str: seq<Byte>, stop: nat, lo: int, hi: int)
    requires re.init < |re.ecl| && stop <= |str| && 0 <= lo && hi <= |str| + 1 && Missed(re, last, str, stop, lo, hi)
    ensures forall i, j :: lo <= i < hi && i <= j <= stop ==> !Halts(re, last, str[i..j])
  {
    forall i, j | lo <= i < hi && i <= j <= stop ensures !Halts(re, last, str[i..j]) {
      assert !Hits(re, last, str, stop, i);
      assert Visible(str, i, stop)[..j - i] == str[i..j];
    }
  }

  /** The result in terms of the text: what is found ends at or before `stop` and is as long
      (or as short) as any at its start, and none begins where the search passed. */
  lemma {:induction false} ResultText(re: Program, last: nat, str: seq<Byte>, start: nat, lastStart: nat, stop: nat,
                                      longest: bool, first: int, len: int)
    requires re.init < |re.ecl| && start <= |str| && lastStart <= |str| && stop <= |str|
    requires SearchResult(re, last, str, start, lastStart, stop, longest, first, len)
    ensures len != -1 ==>
              0 <= len && 0 <= first <= |str|
              && if first <= stop then
                   first + len <= stop && Halts(re, last, str[first..first + len])
                   && forall j :: first <= j <= stop && (if longest then j > first + len else j < first + len) ==>
                                    !Halts(re, last, str[first..j])
                 else len == 0 && Halts(re, last, [])
    ensures start <= lastStart ==>
              forall i, j :: start <= i < (if len == -1 then lastStart + 1 else first) && i <= j <= stop ==>
                               !Halts(re, last, str[i..j])
    ensures start > lastStart ==>
              forall i, j :: (if len == -1 then lastStart else first + 1) <= i <= start && i <= j <= stop ==>
                               !Halts(re, last, str[i..j])
  {
    hide Missed, Halts, Hits;
    if start <= lastStart {
      MissedText(re, last, str, stop, start, if len == -1 then lastStart + 1 else first);
    } else {
      MissedText(re, last, str, stop, if len == -1 then lastStart else first + 1, start + 1);
    }
    if len != -1 {
      var v := Visible(str, first, stop);
      if first <= stop {
        forall j | first <= j <= stop ensures v[..j - first] == str[first..j] {
        }
      } else {
        assert v[..0] == [];
      }
    }
  }

  /** re_search_internal, forward (`start <= lastStart`) or backward. */
  method ReSearchInternal(d: Dfa, init: State, rx: Regex, str: seq<Byte>, start: nat, lastStart: nat, stop: nat,
                          nmatch: nat)
    returns (matchFirst: int, matchLast: int)
    requires d.Valid() && init in d.states && d.re.init < |d.re.ecl| && init.nodes == d.re.ecl[d.re.init]
    requires RegexOk(d.re, d.last, rx) && start <= |str| && lastStart <= |str| && stop <= |str|
    modifies d`stateTable, d`states, d.states`trtable, d.states`inveclosure
    ensures d.Valid() && old(d.states) <= d.states && fresh(d.states - old(d.states))
    ensures SearchResult(d.re, d.last, str, start, lastStart, stop, nmatch != 0, matchFirst, matchLast)
  {
    hide Compiled, NoStartsWithin, BestEnd, Hits, FastmapOk, Missed, Visible, Dfa.Valid;
    InitInRange(d);
    var extraNmatch := if nmatch > rx.nsub then nmatch - (rx.nsub + 1) else 0;
    var nmatch' := nmatch - extraNmatch;
    var useFastmap := rx.haveFastmap && start != lastStart && !rx.canBeNull;
    var forward := start <= lastStart;
    var leftLim := if forward then start else lastStart;
    var rightLim := if forward then lastStart else start;
    var incr := if forward then 1 else -1;
    matchFirst := start;
    NothingMissed(d.re, d.last, str, stop, start);
    assert RuledOut(d.re, d.last, str, stop, start, forward, matchFirst);
    while true
      invariant leftLim - 1 <= matchFirst && (forward ==> start <= matchFirst) && (!forward ==> matchFirst <= start)
      invariant d.Valid() && old(d.states) <= d.states && fresh(d.states - old(d.states)) && init in d.states
      invariant RuledOut(d.re, d.last, str, stop, start, forward, matchFirst)
      decreases if forward then rightLim + 1 - matchFirst else matchFirst + 1 - leftLim
    {
      matchLast := -1;
      if matchFirst < leftLim || rightLim < matchFirst {
        AllRuledOut(d.re, d.last, str, stop, start, forward, matchFirst, leftLim, rightLim);
        return;
      }
      if useFastmap {
        var miss;
        matchFirst, miss := NextPlausible(d.re, d.last, rx.fastmap, str, start, leftLim, rightLim, stop, matchFirst,
                                          forward);
        if miss {
          return;
        }
      }
      var advance;
      matchLast, advance := Attempt(d, init, Visible(str, matchFirst, stop), nmatch', rx, forward);
      if matchLast != -1 {
        BestEndRange(d.re, d.last, Visible(str, matchFirst, stop), nmatch' != 0, matchLast);
        return;
      }
      AttemptRulesOut(d.re, d.last, str, stop, start, forward, matchFirst, nmatch' != 0, advance);
      matchFirst := matchFirst + advance + incr;
    }
  }

  lemma {:induction false} AttemptRulesOut(re: Program, last: nat, str: seq<Byte>, stop: nat, start: nat, forward: bool,
                                           i: nat, longest: bool, n: nat)
    requires re.init < |re.ecl| && stop <= |str| && i <= |str| && n <= |Visible(str, i, stop)| && (!forward ==> n == 0)
    requires BestEnd(re, last, Visible(str, i, stop), longest, -1) && NoStartsWithin(re, last, Visible(str, i, stop), n)
    requires RuledOut(re, last, str, stop, start, forward, i)
    ensures RuledOut(re, last, str, stop, start, forward, i + n + if forward then 1 else -1)
  {
    hide Visible, BestEnd, NoStartsWithin, Missed;
    AttemptMissed(re, last, str, stop, i, longest, n);
    if forward {
      MissedMore(re, last, str, stop, start, i, i + n + 1);
    } else {
      MissedMore(re, last, str, stop, i, i + 1, start + 1);
    }
  }

  lemma {:induction false} AllRuledOut(re: Program, last: nat, str: seq<Byte>, stop: nat, start: nat, forward: bool,
                                       m: int, leftLim: nat, rightLim: nat)
    requires re.init < |re.ecl| && stop <= |str| && RuledOut(re, last, str, stop, start, forward, m)
    requires if forward then start == leftLim && rightLim < m else start == rightLim && m < leftLim
    ensures Missed(re, last, str, stop, leftLim, rightLim + 1)
  {
    MissedPart(re, last, str, stop, if forward then start else m + 1, if forward then m else start + 1, leftLim,
               rightLim + 1);
  }

  lemma {:induction false} BestEndRange(re: Program, last: nat, input: seq<Byte>, longest: bool, m: int)
    requires re.init < |re.ecl| && BestEnd(re, last, input, longest, m)
    ensures m >= -1
  {
  }

  lemma {:induction false} NothingMissed(re: Program, last: nat, str: seq<Byte>, stop: nat, start: nat)
    requires re.init < |re.ecl| && stop <= |str|
    ensures Missed(re, last, str, stop, start, start) && Missed(re, last, str, stop, start + 1, start + 1)
  {
  }

  lemma {:induction false} MissedPart(re: Program, last: nat, str: seq<Byte>, stop: nat, lo: int, hi: int, lo': int,
                                      hi': int)
    requires re.init < |re.ecl| && stop <= |str| && lo <= lo' && hi' <= hi
    requires Missed(re, last, str, stop, lo, hi)
    ensures Missed(re, last, str, stop, lo', hi')
  {
  }

  /** The switch on the match kind: move to a plausible start, or give up. */
  method NextPlausible(re: Program, ghost last: nat, fastmap: seq<bool>, str: seq<Byte>, ghost start: nat,
                       leftLim: nat, rightLim: nat, ghost stop: nat, from: nat, forward: bool)
    returns (matchFirst: int, miss: bool)
    requires Compiled(re, last) && re.init < |re.ecl| && FastmapOk(re, last, fastmap)
    requires leftLim <= from <= rightLim <= |str| && stop <= |str|
             && (if forward then start == leftLim else start == rightLim)
    requires RuledOut(re, last, str, stop, start, forward, from)
    ensures miss ==> Missed(re, last, str, stop, leftLim, rightLim + 1)
    ensures !miss ==> if forward then from <= matchFirst <= rightLim else leftLim <= matchFirst <= from
    ensures !miss ==> RuledOut(re, last, str, stop, start, forward, matchFirst)
  {
    hide Missed, Compiled;
    assert |fastmap| == 256;
    miss := false;
    if forward {
      matchFirst := SkipForward(re, last, fastmap, str, stop, from, rightLim);
      MissedMore(re, last, str, stop, start, from, matchFirst);
      if matchFirst == rightLim {
        var ch: Byte := if matchFirst >= |str| then 0 else str[matchFirst];
        if !fastmap[ch] {
          UnmarkedMisses(re, last, fastmap, str, stop, matchFirst);
          OneMissed(re, last, str, stop, matchFirst);
          MissedMore(re, last, str, stop, start, matchFirst, matchFirst + 1);
          miss := true;
        }
      }
    } else {
      matchFirst := SkipBackward(re, last, fastmap, str, stop, from, leftLim);
      MissedMore(re, last, str, stop, matchFirst + 1, from + 1, start + 1);
      miss := matchFirst < leftLim;
    }
  }

  lemma {:induction false} OneMissed(re: Program, last: nat, str: seq<Byte>, stop: nat, i: nat)
    requires re.init < |re.ecl| && stop <= |str| && i <= |str| && !Hits(re, last, str, stop, i)
    ensures Missed(re, last, str, stop, i, i + 1)
  {
  }
}
