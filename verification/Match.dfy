/** Running the DFA: check_matching and the fastmap
    (src/regex/regexec.c, src/regex/regcomp.c). */
module Match {
  import opened Language
  import opened NodeSets
  import opened Closure
  import opened Dfa
  import opened Simulation

  /** The simulation accepts `w`. */
  ghost predicate Halts(re: Program, last: nat, w: seq<Byte>)
    requires re.init < |re.ecl|
  {
    last in After(re, w)
  }

  /** `s` is the DFA state after `w`; NULL stands for the empty node set. */
  ghost predicate At(re: Program, s: State?, w: seq<Byte>)
    requires re.init < |re.ecl|
  {
    if s == null then After(re, w) == {} else Elems(s.nodes) == After(re, w)
  }

  /** The state log: one entry for each prefix that was read. */
  ghost predicate LogOk(re: Program, states: set<State>, input: seq<Byte>, log: seq<State?>)
    requires re.init < |re.ecl|
  {
    && 0 < |log| <= |input| + 1
    && forall i :: 0 <= i < |log| ==> At(re, log[i], input[..i]) && (log[i] != null ==> log[i] in states)
  }

  /** No prefix up to `pos` is accepted, except those up to `m`. */
  ghost predicate NoneAfter(re: Program, last: nat, input: seq<Byte>, m: int, pos: int)
    requires re.init < |re.ecl|
  {
    forall e :: 0 <= e <= |input| && m < e <= pos ==> !Halts(re, last, input[..e])
  }

  /** What check_matching promises about the end it returns. */
  ghost predicate BestEnd(re: Program, last: nat, input: seq<Byte>, longest: bool, m: int)
    requires re.init < |re.ecl|
  {
    && -1 <= m <= |input|
    && (m >= 0 ==> Halts(re, last, input[..m]))
    && (m == -1 || longest ==> NoneAfter(re, last, input, m, |input|))
    && (m >= 0 && !longest ==> NoneAfter(re, last, input, -1, m - 1))
  }

  /** No match begins at any of the `n` positions after the first. */
  ghost predicate NoStartsWithin(re: Program, last: nat, input: seq<Byte>, n: nat)
    requires re.init < |re.ecl|
  {
    forall k, e :: 0 < k <= n && k <= e <= |input| ==> !Halts(re, last, input[k..e])
  }

  /** The DFA was in its initial state after each of the first `n` bytes. */
  ghost predicate Idle(re: Program, input: seq<Byte>, n: nat)
    requires re.init < |re.ecl|
  {
    n <= |input| && forall k :: 0 <= k <= n ==> After(re, input[..k]) == After(re, [])
  }

  lemma {:induction false} AtStep(re: Program, last: nat, states: set<State>, s: State, t: State?, input: seq<Byte>,
                                  pos: nat)
    requires Compiled(re, last) && re.init < |re.ecl| && pos < |input| && At(re, s, input[..pos])
    requires NodesIn(re, s.nodes) && EntryOk(re, states, s, input[pos], t)
    ensures At(re, t, input[..pos + 1])
  {
    StepIsSetStep(re, last, s.nodes, input[pos]);
    assert input[..pos + 1][..pos] == input[..pos];
  }

  lemma {:induction false} Dead(re: Program, last: nat, input: seq<Byte>, m: int, pos: nat)
    requires re.init < |re.ecl| && pos <= |input| && At(re, null, input[..pos]) && NoneAfter(re, last, input, m, pos)
    ensures NoneAfter(re, last, input, m, |input|)
  {
    forall e | 0 <= e <= |input| && m < e <= |input| ensures !Halts(re, last, input[..e]) {
      if e > pos {
        DeadStaysDead(re, input[..pos], input[pos..e]);
        assert input[..pos] + input[pos..e] == input[..e];
      }
    }
  }

  /** The skip-ahead of check_matching is sound. */
  lemma {:induction false} IdleSkips(re: Program, last: nat, input: seq<Byte>, n: nat)
    requires re.init < |re.ecl| && Idle(re, input, n) && NoneAfter(re, last, input, -1, |input|)
    ensures NoStartsWithin(re, last, input, n)
  {
    forall k, e | 0 < k <= n && k <= e <= |input| ensures !Halts(re, last, input[k..e]) {
      BackAtStart(re, input[..k], input[k..e]);
      assert input[..k] + input[k..e] == input[..e];
    }
  }

  lemma {:induction false} HaltFlag(d: Dfa, s: State, w: seq<Byte>)
    requires d.Valid() && s in d.states && d.re.init < |d.re.ecl| && At(d.re, s, w)
    ensures s.halt <==> Halts(d.re, d.last, w)
  {
    assert StateOk(d.re, d.last, s);
  }

  lemma {:induction false} InitInRange(d: Dfa)
    requires d.Valid()
    ensures d.re.init < |d.re.ecl| && Compiled(d.re, d.last)
  {
  }

  /** create_initial_state. */
  method CreateInitialState(d: Dfa) returns (init: State)
    requires d.Valid()
    modifies d`stateTable, d`states
    ensures d.Valid() && old(d.states) <= d.states && fresh(d.states - old(d.states))
    ensures d.re.init < |d.re.ecl| && init in d.states && init.nodes == d.re.ecl[d.re.init]
  {
    InitInRange(d);
    var initNodes := d.re.ecl[d.re.init];
    assert Exact(d.re.g, d.re.init, initNodes);
    InRange(d.re.g, d.re.init, initNodes);
    ReachesSelf(d.re.g, d.re.init, {});
    assert d.re.init in Elems(initNodes);
    var s := d.Acquire(initNodes);
    init := s;
  }

  /** Where the scanning loop stands after `pos` bytes. */
  ghost predicate Scanned(re: Program, last: nat, states: set<State>, input: seq<Byte>, longest: bool,
                          cur: State, log: seq<State?>, pos: nat, m: int)
    requires re.init < |re.ecl|
  {
    && pos <= |input| && cur in states && At(re, cur, input[..pos])
    && LogOk(re, states, input, log) && |log| == pos + 1
    && -1 <= m <= pos && (m >= 0 ==> longest && Halts(re, last, input[..m]))
    && NoneAfter(re, last, input, m, pos)
  }

  /** One more byte led to state `t`, whose halt flag decides the new end. */
  lemma {:induction false} ScanStep(re: Program, last: nat, states: set<State>, states': set<State>, input: seq<Byte>,
                                    longest: bool, cur: State, log: seq<State?>, pos: nat, m: int, t: State, halt: bool)
    requires re.init < |re.ecl| && Scanned(re, last, states, input, longest, cur, log, pos, m)
    requires pos < |input| && states <= states' && t in states' && At(re, t, input[..pos + 1])
    requires halt <==> Halts(re, last, input[..pos + 1])
    ensures LogOk(re, states', input, log + [t])
    ensures halt && !longest ==> BestEnd(re, last, input, longest, pos + 1)
    ensures !halt || longest ==>
              Scanned(re, last, states', input, longest, t, log + [t], pos + 1, if halt then pos + 1 else m)
  {
    var log' := log + [t];
    forall i | 0 <= i < |log'| ensures At(re, log'[i], input[..i]) && (log'[i] != null ==> log'[i] in states') {
      assert i < |log| ==> log'[i] == log[i];
    }
  }

  lemma {:induction false} ScanDies(re: Program, last: nat, states: set<State>, states': set<State>, input: seq<Byte>,
                                    longest: bool, cur: State, log: seq<State?>, pos: nat, m: int)
    requires re.init < |re.ecl| && Scanned(re, last, states, input, longest, cur, log, pos, m)
    requires pos < |input| && states <= states' && At(re, null, input[..pos + 1])
    ensures LogOk(re, states', input, log + [null]) && BestEnd(re, last, input, longest, m)
  {
    var log' := log + [null];
    forall i | 0 <= i < |log'| ensures At(re, log'[i], input[..i]) && (log'[i] != null ==> log'[i] in states') {
      assert i < |log| ==> log'[i] == log[i];
    }
    assert !Halts(re, last, input[..pos + 1]);
    Dead(re, last, input, m, pos + 1);
  }

  lemma {:induction false} ScanEnds(re: Program, last: nat, states: set<State>, input: seq<Byte>,
                                    longest: bool, cur: State, log: seq<State?>, m: int)
    requires re.init < |re.ecl| && Scanned(re, last, states, input, longest, cur, log, |input|, m)
    ensures BestEnd(re, last, input, longest, m)
  {
  }

  /** Where the skip-ahead stands: `nextStart` bytes were read in the initial state. */
  ghost predicate Skipping(re: Program, input: seq<Byte>, init: State, cur: State, track: bool, tracking: bool,
                           atInit: bool, nextStart: nat, pos: nat, m: int)
    requires re.init < |re.ecl|
  {
    && Idle(re, input, nextStart) && At(re, init, [])
    && (atInit ==> track && nextStart == pos && cur == init)
    && (tracking ==> track) && (!track ==> nextStart == 0)
    && (tracking && m >= 0 ==> m == 0 && nextStart == 0)
    && (!tracking && track ==> m >= 0)
  }

  lemma {:induction false} SkipStep(re: Program, last: nat, input: seq<Byte>, init: State, cur: State, t: State,
                                    track: bool, tracking: bool, atInit: bool, nextStart: nat, pos: nat, m: int,
                                    halt: bool)
    requires re.init < |re.ecl| && pos < |input|
    requires Skipping(re, input, init, cur, track, tracking, atInit, nextStart, pos, m)
    requires At(re, t, input[..pos + 1]) && (t == init && m >= 0 ==> halt || m > 0)
    ensures var stay := atInit && t == cur;
            Skipping(re, input, init, t, track, tracking && !halt, stay, if stay then pos + 1 else nextStart, pos + 1,
                     if halt then pos + 1 else m)
  {
    if atInit && t == cur {
      forall k | 0 <= k <= pos + 1 ensures After(re, input[..k]) == After(re, []) {
        assert k <= pos ==> After(re, input[..k]) == After(re, []);
      }
    }
  }

  lemma {:induction false} ScanFacts(re: Program, last: nat, states: set<State>, input: seq<Byte>, longest: bool,
                                     cur: State, log: seq<State?>, pos: nat, m: int)
    requires re.init < |re.ecl| && Scanned(re, last, states, input, longest, cur, log, pos, m)
    ensures pos <= |input| && At(re, cur, input[..pos]) && -1 <= m <= pos
    ensures LogOk(re, states, input, log)
  {
  }

  /** What holds whenever the loop is left. */
  ghost predicate Finished(re: Program, last: nat, input: seq<Byte>, longest: bool, track: bool, tracking: bool,
                           nextStart: nat, m: int)
    requires re.init < |re.ecl|
  {
    && BestEnd(re, last, input, longest, m) && nextStart <= |input|
    && (tracking ==> track && (m >= 0 ==> nextStart == 0))
    && (m == -1 ==> NoStartsWithin(re, last, input, if tracking then nextStart else 0))
  }

  lemma {:induction false} SkipEnds(re: Program, last: nat, input: seq<Byte>, init: State, cur: State, longest: bool,
                                    track: bool, tracking: bool, atInit: bool, nextStart: nat, pos: nat, m: int)
    requires re.init < |re.ecl| && BestEnd(re, last, input, longest, m)
    requires Skipping(re, input, init, cur, track, tracking, atInit, nextStart, pos, m)
    ensures Finished(re, last, input, longest, track, tracking, nextStart, m)
  {
    if m == -1 {
      IdleSkips(re, last, input, nextStart);
    }
  }

  /** The scanning loop between two bytes. */
  ghost predicate Running(re: Program, last: nat, states: set<State>, input: seq<Byte>, longest: bool, init: State,
                          cur: State, log: seq<State?>, track: bool, tracking: bool, atInit: bool, nextStart: nat,
                          pos: nat, m: int)
    requires re.init < |re.ecl|
  {
    && init in states && (m == 0 ==> init.halt)
    && Scanned(re, last, states, input, longest, cur, log, pos, m)
    && Skipping(re, input, init, cur, track, tracking, atInit, nextStart, pos, m)
  }

  lemma {:induction false} RunFacts(re: Program, last: nat, states: set<State>, input: seq<Byte>, longest: bool,
                                    init: State, cur: State, log: seq<State?>, track: bool, tracking: bool,
                                    atInit: bool, nextStart: nat, pos: nat, m: int)
    requires re.init < |re.ecl|
    requires Running(re, last, states, input, longest, init, cur, log, track, tracking, atInit, nextStart, pos, m)
    ensures cur in states && pos <= |input| && At(re, cur, input[..pos]) && |log| == pos + 1 && -1 <= m <= pos
    ensures LogOk(re, states, input, log)
    ensures pos == |input| ==> Finished(re, last, input, longest, track, tracking, nextStart, m)
  {
    hide At, LogOk, Idle, NoneAfter, Halts, BestEnd, Finished;
    if pos == |input| {
      ScanEnds(re, last, states, input, longest, cur, log, m);
      SkipEnds(re, last, input, init, cur, longest, track, tracking, atInit, nextStart, pos, m);
    }
  }

  /** No state: the end found so far is final. */
  lemma {:induction false} RunDies(re: Program, last: nat, states: set<State>, states': set<State>, input: seq<Byte>,
                                   longest: bool, init: State, cur: State, log: seq<State?>, track: bool,
                                   tracking: bool, atInit: bool, nextStart: nat, pos: nat, m: int)
    requires re.init < |re.ecl|
    requires Running(re, last, states, input, longest, init, cur, log, track, tracking, atInit, nextStart, pos, m)
    requires pos < |input| && states <= states' && At(re, null, input[..pos + 1])
    ensures LogOk(re, states', input, log + [null]) && Finished(re, last, input, longest, track, tracking, nextStart, m)
  {
    hide At, LogOk, Idle, NoneAfter, Halts, BestEnd, Finished, Scanned, Skipping;
    ScanDies(re, last, states, states', input, longest, cur, log, pos, m);
    SkipEnds(re, last, input, init, cur, longest, track, tracking, atInit, nextStart, pos, m);
  }

  /** One more byte led to state `t`. A halting state ends the search for a shortest match. */
  lemma {:induction false} RunStep(re: Program, last: nat, states: set<State>, states': set<State>, input: seq<Byte>,
                                   longest: bool, init: State, cur: State, log: seq<State?>, track: bool,
                                   tracking: bool, atInit: bool, nextStart: nat, pos: nat, m: int, t: State)
    requires re.init < |re.ecl|
    requires Running(re, last, states, input, longest, init, cur, log, track, tracking, atInit, nextStart, pos, m)
    requires pos < |input| && states <= states' && t in states' && At(re, t, input[..pos + 1])
    requires t.halt <==> Halts(re, last, input[..pos + 1])
    ensures LogOk(re, states', input, log + [t])
    ensures var stay := atInit && t == cur;
            var next := if stay then pos + 1 else nextStart;
            if t.halt && !longest then Finished(re, last, input, longest, track, false, next, pos + 1)
            else Running(re, last, states', input, longest, init, t, log + [t], track, tracking && !t.halt, stay, next,
                         pos + 1, if t.halt then pos + 1 else m)
  {
    ScanFacts(re, last, states, input, longest, cur, log, pos, m);
    hide At, LogOk, Idle, NoneAfter, Halts, BestEnd, Finished, Scanned, Skipping;
    ScanStep(re, last, states, states', input, longest, cur, log, pos, m, t, t.halt);
    SkipStep(re, last, input, init, cur, t, track, tracking, atInit, nextStart, pos, m, t.halt);
    if t.halt && !longest {
      var stay := atInit && t == cur;
      SkipEnds(re, last, input, init, t, longest, track, false, stay, if stay then pos + 1 else nextStart, pos + 1,
               pos + 1);
    }
  }

  /** check_matching. `track` is `p_match_first != NULL`; `advance` is what is
      added to the start position. */
  method CheckMatching(d: Dfa, init: State, input: seq<Byte>, longest: bool, track: bool)
    returns (matchLast: int, advance: nat, log: seq<State?>)
    requires d.Valid() && init in d.states && d.re.init < |d.re.ecl| && init.nodes == d.re.ecl[d.re.init]
    modifies d`stateTable, d`states, d.states`trtable
    ensures d.Valid() && old(d.states) <= d.states && fresh(d.states - old(d.states))
    ensures BestEnd(d.re, d.last, input, longest, matchLast)
    ensures LogOk(d.re, d.states, input, log) && matchLast < |log|
    ensures matchLast >= 0 || !track ==> advance == 0
    ensures advance <= |input| && (matchLast == -1 ==> NoStartsWithin(d.re, d.last, input, advance))
  {
    hide Halts, At, LogOk, BestEnd, NoneAfter, NoStartsWithin, EntryOk, Finished, Running, Compiled, Accepts, NodesIn,
      Dfa.Valid;
    advance, matchLast, log := 0, -1, [init];
    var cur: State := init;
    InitInRange(d);
    Started(d, init, input, longest, track);
    if cur.halt {
      if !longest {
        return 0, 0, log;
      }
      matchLast := 0;
    }
    var pos := 0;
    var tracking, atInit, nextStart := track, track, 0;
    while pos < |input|
      invariant d.Valid() && old(d.states) <= d.states && fresh(d.states - old(d.states))
      invariant Running(d.re, d.last, d.states, input, longest, init, cur, log, track, tracking, atInit, nextStart,
                        pos, matchLast)
      invariant pos <= |input| && LogOk(d.re, d.states, input, log) && matchLast < |log|
      invariant pos == |input| ==> Finished(d.re, d.last, input, longest, track, tracking, nextStart, matchLast)
    {
      ghost var states0 := d.states;
      RunFacts(d.re, d.last, states0, input, longest, init, cur, log, track, tracking, atInit, nextStart, pos,
               matchLast);
      var t := d.TransitState(cur, input[pos]);
      AtStep(d.re, d.last, d.states, cur, t, input, pos);
      if t == null {
        RunDies(d.re, d.last, states0, d.states, input, longest, init, cur, log, track, tracking, atInit, nextStart,
                pos, matchLast);
        pos, log := pos + 1, log + [t];
        break;
      }
      HaltFlag(d, t, input[..pos + 1]);
      RunStep(d.re, d.last, states0, d.states, input, longest, init, cur, log, track, tracking, atInit, nextStart, pos,
              matchLast, t);
      var old_ := cur;
      pos, log := pos + 1, log + [t];
      cur := t;
      if atInit {
        if old_ == cur {
          nextStart := pos;
        } else {
          atInit := false;
        }
      }
      if cur.halt {
        matchLast := pos;
        tracking := false;
        if !longest {
          break;
        }
      }
      RunFacts(d.re, d.last, d.states, input, longest, init, cur, log, track, tracking, atInit, nextStart, pos,
               matchLast);
    }
    FinishedFacts(d.re, d.last, input, longest, track, tracking, nextStart, matchLast);
    if tracking {
      advance := nextStart;
    }
  }

  lemma {:induction false} FinishedFacts(re: Program, last: nat, input: seq<Byte>, longest: bool, track: bool,
                                         tracking: bool, nextStart: nat, m: int)
    requires re.init < |re.ecl| && Finished(re, last, input, longest, track, tracking, nextStart, m)
    ensures BestEnd(re, last, input, longest, m) && nextStart <= |input|
    ensures tracking ==> track && (m >= 0 ==> nextStart == 0)
    ensures m == -1 ==> NoStartsWithin(re, last, input, if tracking then nextStart else 0)
  {
  }

  lemma {:induction false} Started(d: Dfa, init: State, input: seq<Byte>, longest: bool, track: bool)
    requires d.Valid() && init in d.states && d.re.init < |d.re.ecl| && init.nodes == d.re.ecl[d.re.init]
    ensures LogOk(d.re, d.states, input, [init])
    ensures init.halt && !longest ==> BestEnd(d.re, d.last, input, longest, 0)
    ensures !init.halt || longest ==>
              var m := if init.halt then 0 else -1;
              Running(d.re, d.last, d.states, input, longest, init, init, [init], track, track, track, 0, 0, m)
              && (input == [] ==> Finished(d.re, d.last, input, longest, track, track, 0, m))
  {
    assert input[..0] == [];
    HaltFlag(d, init, input[..0]);
    if !init.halt || longest {
      var m := if init.halt then 0 else -1;
      RunFacts(d.re, d.last, d.states, input, longest, init, init, [init], track, track, track, 0, 0, m);
    }
  }
}
