/** The subset simulation decides the language: the bridge from node sets to
    the parse tree. */
module Simulation {
  import opened Language
  import opened NodeSets
  import opened Closure
  import opened Dfa
  import N = Nfa

  /** StepSet on sets. */
  ghost function SetStep(re: Program, p: set<nat>, ch: Byte): set<nat> {
    set n, x | n in p && n < |re.g.nodes| == |re.g.nexts| && Accepts(re.syn, re.g.nodes[n], ch)
               && 0 <= re.g.nexts[n] < |re.ecl| && x in Elems(re.ecl[re.g.nexts[n]]) :: x
  }

  lemma {:induction false} StepIsSetStep(re: Program, last: nat, p: seq<nat>, ch: Byte)
    requires Compiled(re, last) && NodesIn(re, p)
    ensures StepSet(re, p, ch) == SetStep(re, Elems(p), ch)
  {
  }

  lemma {:induction false} InStep(re: Program, p: set<nat>, ch: Byte, n: nat, x: nat)
    requires n in p && n < |re.g.nodes| == |re.g.nexts| && Accepts(re.syn, re.g.nodes[n], ch)
    requires 0 <= re.g.nexts[n] < |re.ecl| && x in Elems(re.ecl[re.g.nexts[n]])
    ensures x in SetStep(re, p, ch)
  {
  }

  /** The node set after reading `w`. */
  ghost function After(re: Program, w: seq<Byte>): set<nat>
    requires re.init < |re.ecl|
  {
    if w == [] then Elems(re.ecl[re.init])
    else SetStep(re, After(re, w[..|w| - 1]), w[|w| - 1])
  }

  ghost predicate EpsClosed(g: N.Nfa, p: set<nat>) {
    forall q, e :: q in p && q < |g.edests| && e in g.edests[q] ==> e in p
  }

  /** Some node of `p` spells `w`. */
  ghost predicate SetSpells(re: Program, p: set<nat>, w: seq<Byte>) {
    exists q :: q in p && N.Spells(re.syn, re.g, q, w)
  }

  lemma {:induction false} ClosureClosed(re: Program, last: nat, q: nat)
    requires Compiled(re, last) && q < |re.ecl|
    ensures EpsClosed(re.g, Elems(re.ecl[q]))
  {
    assert Exact(re.g, q, re.ecl[q]);
    forall a, e | a in Elems(re.ecl[q]) && a < |re.g.edests| && e in re.g.edests[a]
      ensures e in Elems(re.ecl[q])
    {
      assert N.Closed1(re.g, a, last);
      ReachesSelf(re.g, e, {});
      ReachesEdge(re.g, a, e, e);
      ReachesTrans(re.g, q, a, e);
    }
  }

  lemma {:induction false} StepClosed(re: Program, last: nat, p: set<nat>, ch: Byte)
    requires Compiled(re, last)
    ensures EpsClosed(re.g, SetStep(re, p, ch))
  {
    forall a, e | a in SetStep(re, p, ch) && a < |re.g.edests| && e in re.g.edests[a]
      ensures e in SetStep(re, p, ch)
    {
      var n: nat :| n in p && n < |re.g.nodes| == |re.g.nexts| && Accepts(re.syn, re.g.nodes[n], ch)
                    && 0 <= re.g.nexts[n] < |re.ecl| && a in Elems(re.ecl[re.g.nexts[n]]);
      ClosureClosed(re, last, re.g.nexts[n]);
      assert e in Elems(re.ecl[re.g.nexts[n]]);
      InStep(re, p, ch, n, e);
    }
  }

  lemma {:induction false} AfterClosed(re: Program, last: nat, w: seq<Byte>)
    requires Compiled(re, last)
    ensures re.init < |re.ecl| && EpsClosed(re.g, After(re, w))
  {
    if w == [] {
      ClosureClosed(re, last, re.init);
    } else {
      StepClosed(re, last, After(re, w[..|w| - 1]), w[|w| - 1]);
    }
  }

  /** An epsilon path can be put in front of a run. */
  lemma {:induction false} RunBack(re: Program, p: seq<nat>, a: nat, b: nat, w: seq<Byte>)
    requires |re.g.nodes| == |re.g.nexts| == |re.g.edests|
    requires Path(re.g, p, a, b, {}) && N.Spells(re.syn, re.g, b, w)
    ensures N.Spells(re.syn, re.g, a, w)
    decreases |p|
  {
    if |p| > 1 {
      assert Path(re.g, p[1..], p[1], b, {});
      RunBack(re, p[1..], p[1], b, w);
      var n :| N.Run(re.syn, re.g, p[1], w, n);
      N.EpsilonMove(re.syn, re.g, a, p[1], w, n);
    }
  }

  /** A closed set accepts the empty word exactly when it holds END_OF_RE. */
  lemma {:induction false} HaltIsEmptyWord(re: Program, last: nat, p: set<nat>)
    requires Compiled(re, last) && EpsClosed(re.g, p)
    ensures SetSpells(re, p, []) <==> last in p
  {
    assert N.Closed1(re.g, last, last);
    if last in p {
      assert N.Run(re.syn, re.g, last, [], 0);
    }
    forall q, n | q in p && N.Run(re.syn, re.g, q, [], n) ensures last in p {
      EmptyRun(re, last, p, q, n);
    }
  }

  lemma {:induction false} EmptyRun(re: Program, last: nat, p: set<nat>, q: nat, n: nat)
    requires Compiled(re, last) && EpsClosed(re.g, p) && q in p && N.Run(re.syn, re.g, q, [], n)
    ensures last in p
    decreases n
  {
    assert N.Closed1(re.g, q, last);
    if n > 0 {
      var e :| e in re.g.edests[q] && N.Run(re.syn, re.g, e, [], n - 1);
      EmptyRun(re, last, p, e, n - 1);
    }
  }

  /** Reading one byte. */
  lemma {:induction false} StepReads(re: Program, last: nat, p: set<nat>, c: Byte, v: seq<Byte>)
    requires Compiled(re, last) && EpsClosed(re.g, p)
    ensures SetSpells(re, p, [c] + v) <==> SetSpells(re, SetStep(re, p, c), v)
  {
    forall q, n | q in p && N.Run(re.syn, re.g, q, [c] + v, n)
      ensures SetSpells(re, SetStep(re, p, c), v)
    {
      RunReads(re, last, p, c, v, q, n);
    }
    forall x | x in SetStep(re, p, c) && N.Spells(re.syn, re.g, x, v)
      ensures SetSpells(re, p, [c] + v)
    {
      var q :| q in p && q < |re.g.nodes| == |re.g.nexts| && Accepts(re.syn, re.g.nodes[q], c)
               && 0 <= re.g.nexts[q] < |re.ecl| && x in Elems(re.ecl[re.g.nexts[q]]);
      StepBack(re, last, q, x, c, v);
    }
  }

  lemma {:induction false} RunReads(re: Program, last: nat, p: set<nat>, c: Byte, v: seq<Byte>, q: nat, n: nat)
    requires Compiled(re, last) && EpsClosed(re.g, p) && q in p && N.Run(re.syn, re.g, q, [c] + v, n)
    ensures SetSpells(re, SetStep(re, p, c), v)
    decreases n
  {
    var w := [c] + v;
    assert w[0] == c && w[1..] == v && n > 0;
    if e :| e in re.g.edests[q] && N.Run(re.syn, re.g, e, w, n - 1) {
      RunReads(re, last, p, c, v, e, n - 1);
    } else {
      assert N.Closed1(re.g, q, last);
      assert Accepts(re.syn, re.g.nodes[q], w[0]) && N.Run(re.syn, re.g, re.g.nexts[q], w[1..], n - 1);
      var x: nat := re.g.nexts[q];
      assert Exact(re.g, x, re.ecl[x]);
      ReachesSelf(re.g, x, {});
      InStep(re, p, c, q, x);
    }
  }

  lemma {:induction false} StepBack(re: Program, last: nat, q: nat, x: nat, c: Byte, v: seq<Byte>)
    requires Compiled(re, last) && q < |re.g.nodes| && Accepts(re.syn, re.g.nodes[q], c)
    requires q < |re.g.nexts| && 0 <= re.g.nexts[q] < |re.ecl| && x in Elems(re.ecl[re.g.nexts[q]])
    requires N.Spells(re.syn, re.g, x, v)
    ensures N.Spells(re.syn, re.g, q, [c] + v)
  {
    var y: nat := re.g.nexts[q];
    assert Exact(re.g, y, re.ecl[y]);
    var p :| Path(re.g, p, y, x, {});
    RunBack(re, p, y, x, v);
    var n: nat :| N.Run(re.syn, re.g, y, v, n);
    assert ([c] + v)[0] == c && ([c] + v)[1..] == v;
    assert N.Run(re.syn, re.g, q, [c] + v, n + 1);
  }

  /** After `u`, what is left to spell is what follows. */
  lemma {:induction false} AfterReads(re: Program, last: nat, u: seq<Byte>, v: seq<Byte>)
    requires Compiled(re, last)
    ensures re.init < |re.ecl|
    ensures SetSpells(re, After(re, []), u + v) <==> SetSpells(re, After(re, u), v)
    decreases |u|
  {
    if u == [] {
      assert u + v == v;
    } else {
      var t, c := u[..|u| - 1], u[|u| - 1];
      AfterClosed(re, last, t);
      AfterReads(re, last, t, [c] + v);
      StepReads(re, last, After(re, t), c, v);
      assert u + v == t + ([c] + v);
    }
  }

  /** From the node sets to the tree: the simulation halts on exactly the words
      of the pattern. */
  lemma {:induction false} HaltsOnLanguage(re: Program, last: nat, t: N.ITree, w: seq<Byte>)
    requires Compiled(re, last) && N.Wired(re.g, t, last) && re.init == N.Entry(t, last)
    ensures re.init < |re.ecl|
    ensures last in After(re, w) <==> In(re.syn, N.Erase(t), w)
  {
    AfterClosed(re, last, w);
    HaltIsEmptyWord(re, last, After(re, w));
    AfterReads(re, last, w, []);
    assert w + [] == w;
    assert N.Closed1(re.g, last, last);
    N.NfaSpellsLanguage(re.syn, re.g, t, last, w);
    InitSpells(re, last, w);
  }

  lemma {:induction false} InitSpells(re: Program, last: nat, w: seq<Byte>)
    requires Compiled(re, last)
    ensures re.init < |re.ecl|
    ensures SetSpells(re, After(re, []), w) <==> N.Spells(re.syn, re.g, re.init, w)
  {
    assert Exact(re.g, re.init, re.ecl[re.init]);
    ReachesSelf(re.g, re.init, {});
    forall q | q in After(re, []) && N.Spells(re.syn, re.g, q, w) ensures N.Spells(re.syn, re.g, re.init, w) {
      var p :| Path(re.g, p, re.init, q, {});
      RunBack(re, p, re.init, q, w);
    }
  }

  /** Once the node set is empty it stays empty. */
  lemma {:induction false} DeadStaysDead(re: Program, u: seq<Byte>, v: seq<Byte>)
    requires re.init < |re.ecl| && After(re, u) == {}
    ensures After(re, u + v) == {}
    decreases |v|
  {
    if v == [] {
      assert u + v == u;
    } else {
      var w := u + v;
      DeadStaysDead(re, u, v[..|v| - 1]);
      assert w[..|w| - 1] == u + v[..|v| - 1];
    }
  }

  /** Bytes that lead back to the initial set might as well not have been read. */
  lemma {:induction false} BackAtStart(re: Program, u: seq<Byte>, v: seq<Byte>)
    requires re.init < |re.ecl| && After(re, u) == After(re, [])
    ensures After(re, u + v) == After(re, v)
    decreases |v|
  {
    if v == [] {
      assert u + v == u;
    } else {
      var w := u + v;
      BackAtStart(re, u, v[..|v| - 1]);
      assert w[..|w| - 1] == u + v[..|v| - 1] && w[|w| - 1] == v[|v| - 1];
    }
  }
}
