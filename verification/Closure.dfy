/** Epsilon closures and their converse
    (calc_eclosure, calc_eclosure_iter and calc_inveclosure of src/regex/regcomp.c). */
module Closure {
  import opened Language
  import opened NodeSets
  import N = Nfa

  /** `p` walks epsilon edges from `a` to `b` and keeps off `avoid`. */
  ghost predicate Path(g: N.Nfa, p: seq<nat>, a: nat, b: nat, avoid: set<nat>) {
    && p != [] && p[0] == a && p[|p| - 1] == b
    && (forall i :: 0 <= i < |p| ==> p[i] < |g.edests| && p[i] !in avoid)
    && (forall i :: 0 <= i < |p| - 1 ==> p[i + 1] in g.edests[p[i]])
  }

  ghost predicate ReachesOff(g: N.Nfa, a: nat, b: nat, avoid: set<nat>) {
    exists p :: Path(g, p, a, b, avoid)
  }

  ghost predicate Reaches(g: N.Nfa, a: nat, b: nat) {
    ReachesOff(g, a, b, {})
  }

  lemma {:induction false} ReachesSelf(g: N.Nfa, a: nat, avoid: set<nat>)
    requires a < |g.edests| && a !in avoid
    ensures ReachesOff(g, a, a, avoid)
  {
    assert Path(g, [a], a, a, avoid);
  }

  lemma {:induction false} ReachesEdge(g: N.Nfa, a: nat, e: nat, b: nat)
    requires a < |g.edests| && e in g.edests[a] && Reaches(g, e, b)
    ensures Reaches(g, a, b)
  {
    var p :| Path(g, p, e, b, {});
    assert Path(g, [a] + p, a, b, {});
  }

  lemma {:induction false} ReachesTrans(g: N.Nfa, a: nat, b: nat, c: nat)
    requires Reaches(g, a, b) && Reaches(g, b, c)
    ensures Reaches(g, a, c)
  {
    var p :| Path(g, p, a, b, {});
    var q :| Path(g, q, b, c, {});
    var r := p + q[1..];
    forall i | 0 <= i < |r| - 1 ensures r[i + 1] in g.edests[r[i]] {
      if i == |p| - 1 {
        assert r[i + 1] == q[1] && r[i] == q[0];
      } else if i >= |p| {
        assert r[i] == q[i - |p| + 1] && r[i + 1] == q[i - |p| + 2];
      }
    }
    assert Path(g, r, a, c, {});
  }

  /** The last time a path leaves `a`, it never comes back: so the rest of it
      starts at a successor of `a` and also keeps off `a`. */
  lemma {:induction false} LastExit(g: N.Nfa, p: seq<nat>, a: nat, b: nat, avoid: set<nat>)
    requires Path(g, p, a, b, avoid)
    ensures a == b || exists e :: e in g.edests[a] && ReachesOff(g, e, b, avoid + {a})
    decreases |p|
  {
    if |p| > 1 {
      if k :| 0 < k < |p| && p[k] == a {
        assert Path(g, p[k..], a, b, avoid);
        LastExit(g, p[k..], a, b, avoid);
      } else {
        assert Path(g, p[1..], p[1], b, avoid + {a});
      }
    }
  }

  /** `s` is the epsilon closure of `n`, sorted. */
  ghost predicate Exact(g: N.Nfa, n: nat, s: seq<nat>) {
    Increasing(s) && forall x :: x in Elems(s) <==> Reaches(g, n, x)
  }

  /** `acc` has everything reachable from `e` off `avoid`. */
  ghost predicate Covers(g: N.Nfa, acc: set<nat>, e: nat, avoid: set<nat>) {
    forall x :: ReachesOff(g, e, x, avoid) ==> x in acc
  }

  ghost predicate Sound(g: N.Nfa, acc: set<nat>, n: nat) {
    forall x :: x in acc ==> Reaches(g, n, x)
  }

  /** The three meanings of `nelem`: 0, -1 and positive. */
  datatype Slot = Unset | InProgress | Done(elems: seq<nat>)

  ghost function Busy(slots: seq<Slot>): set<nat> {
    set q | 0 <= q < |slots| && slots[q].InProgress?
  }

  ghost function Free(slots: seq<Slot>): set<nat> {
    set q | 0 <= q < |slots| && !slots[q].InProgress?
  }

  ghost predicate SlotsValid(g: N.Nfa, slots: seq<Slot>) {
    |slots| == |g.edests| && forall q :: 0 <= q < |slots| && slots[q].Done? ==> Exact(g, q, slots[q].elems)
  }

  /** Nothing finished is lost. */
  ghost predicate Extends(old_: seq<Slot>, new_: seq<Slot>) {
    |old_| == |new_| && forall q :: 0 <= q < |old_| && old_[q].Done? ==> new_[q] == old_[q]
  }

  ghost predicate EdgesIn(g: N.Nfa) {
    && |g.nodes| == |g.edests|
    && forall q :: 0 <= q < |g.edests| ==>
         && (forall e :: e in g.edests[q] ==> e < |g.edests|)
         && (!IsEpsilon(g.nodes[q]) ==> g.edests[q] == [])
  }

  /** What the loop has merged into `acc` after the destinations `es`. */
  ghost predicate Merged(g: N.Nfa, node: nat, es: seq<nat>, acc: set<nat>, busy: set<nat>, slots: seq<Slot>,
                         incomplete: bool) {
    && node in acc && Sound(g, acc, node)
    && (forall e :: e in es ==> Covers(g, acc, e, busy))
    && (!incomplete ==> forall e :: e in es ==>
          e < |slots| && slots[e].Done? && Elems(slots[e].elems) <= acc)
  }

  /** When every destination's closure was complete, so is the merged one. */
  lemma {:induction false} MergedComplete(g: N.Nfa, node: nat, acc: set<nat>, busy: set<nat>, slots: seq<Slot>)
    requires node < |g.edests| && SlotsValid(g, slots)
    requires Merged(g, node, g.edests[node], acc, busy, slots, false)
    ensures forall x :: x in acc <==> Reaches(g, node, x)
  {
    forall x | Reaches(g, node, x) ensures x in acc {
      var p :| Path(g, p, node, x, {});
      if |p| > 1 {
        var e := p[1];
        assert Path(g, p[1..], e, x, {}) && e in g.edests[node];
        assert Exact(g, e, slots[e].elems) && x in Elems(slots[e].elems);
      }
    }
  }

  /** In any case it has all that can be reached off the nodes in progress. */
  lemma {:induction false} MergedCovers(g: N.Nfa, node: nat, acc: set<nat>, busy: set<nat>, slots: seq<Slot>,
                                        incomplete: bool)
    requires node < |g.edests| && Merged(g, node, g.edests[node], acc, busy + {node}, slots, incomplete)
    ensures Covers(g, acc, node, busy)
  {
    forall x | ReachesOff(g, node, x, busy) ensures x in acc {
      var p :| Path(g, p, node, x, busy);
      LastExit(g, p, node, x, busy);
      if node != x {
        var e :| e in g.edests[node] && ReachesOff(g, e, x, busy + {node});
        assert Covers(g, acc, e, busy + {node});
      }
    }
  }

  /** Merging the result for one more destination. */
  lemma {:induction false} MergeOne(g: N.Nfa, node: nat, es: seq<nat>, acc: set<nat>, busy: set<nat>, slots: seq<Slot>,
                                    incomplete: bool, e: nat, got: set<nat>, slots': seq<Slot>)
    requires node < |g.edests| && e in g.edests[node] && Extends(slots, slots')
    requires Merged(g, node, es, acc, busy, slots, incomplete)
    requires Sound(g, got, e) && Covers(g, got, e, busy)
    ensures var incomplete' := incomplete || !(e < |slots'| && slots'[e].Done? && Elems(slots'[e].elems) <= got);
            Merged(g, node, es + [e], acc + got, busy, slots', incomplete')
  {
    forall x | x in got ensures Reaches(g, node, x) {
      ReachesEdge(g, node, e, x);
    }
  }

  lemma {:induction false} ExactCovers(g: N.Nfa, n: nat, s: seq<nat>, avoid: set<nat>)
    requires Exact(g, n, s)
    ensures Sound(g, Elems(s), n) && Covers(g, Elems(s), n, avoid)
  {
    forall x | ReachesOff(g, n, x, avoid) ensures x in Elems(s) {
      var p :| Path(g, p, n, x, avoid);
      assert Path(g, p, n, x, {});
    }
  }

  lemma {:induction false} BusyCovers(g: N.Nfa, e: nat, avoid: set<nat>)
    requires e in avoid
    ensures Sound(g, {}, e) && Covers(g, {}, e, avoid)
  {
    forall x: nat, p: seq<nat> ensures !Path(g, p, e, x, avoid) {
      if p != [] && p[0] == e {
        assert p[0] in avoid;
      }
    }
  }

  /** `eclosures` of `re_dfa_t` while it is being filled. */
  class Eclosures {
    const g: N.Nfa
    var slots: seq<Slot>

    constructor (g: N.Nfa)
      ensures this.g == g && slots == seq(|g.edests|, i => Unset)
    {
      this.g := g;
      slots := seq(|g.edests|, i => Unset);
    }

    /** calc_eclosure_iter. A result that was cut short by a node in progress is
        handed to the caller but not kept, except at the root, where nothing else
        is in progress and the result is complete all the same. */
    method CalcIter(node: nat, root: bool) returns (newSet: seq<nat>)
      requires EdgesIn(g) && SlotsValid(g, slots) && node < |slots| && slots[node].Unset?
      requires root ==> Busy(slots) == {}
      modifies this`slots
      ensures SlotsValid(g, slots) && Extends(old(slots), slots) && Busy(slots) == old(Busy(slots))
      ensures Increasing(newSet) && Sound(g, Elems(newSet), node) && Covers(g, Elems(newSet), node, old(Busy(slots)))
      ensures slots[node].Unset? || slots[node] == Done(newSet)
      ensures root ==> slots[node].Done?
      decreases Free(slots), 0
    {
      hide Merged, Covers, Sound, Exact, Increasing, Elems, EdgesIn, Busy, Free;
      ghost var slots0 := slots;
      ghost var busy := Busy(slots) + {node};
      var eclosure := new NodeSet.Alloc(|g.edests[node]| + 1);
      Single(g, node);
      assert forall y: nat :: y !in Elems(eclosure.Items());
      eclosure.InsertLast(node);
      slots := slots[node := InProgress];
      Enter(g, node, slots0, slots);
      var incomplete := false;
      NoDests(g, node);
      if IsEpsilon(g.nodes[node]) {
        incomplete := MergeDests(node, eclosure, busy);
      }
      newSet := eclosure.elems[..eclosure.nelem];
      ghost var slots1 := slots;
      if incomplete && !root {
        slots := slots[node := Unset];
      } else {
        slots := slots[node := Done(newSet)];
      }
      Leave(g, node, newSet, slots0, slots1, slots, incomplete, root);
    }

    /** The loop over the epsilon destinations of a node in progress. */
    method MergeDests(node: nat, eclosure: NodeSet, ghost busy: set<nat>) returns (incomplete: bool)
      requires EdgesIn(g) && SlotsValid(g, slots) && node < |slots| && Busy(slots) == busy
      requires eclosure.Valid()
      requires Merged(g, node, [], Elems(eclosure.Items()), busy, slots, false)
      modifies this`slots, eclosure, eclosure.elems
      ensures SlotsValid(g, slots) && Extends(old(slots), slots) && Busy(slots) == busy
      ensures eclosure.Valid()
      ensures Merged(g, node, g.edests[node], Elems(eclosure.Items()), busy, slots, incomplete)
      decreases Free(slots), 2
    {
      hide Merged, Covers, Sound, Exact, Increasing, Elems, EdgesIn, Busy, Free;
      ghost var slots0 := slots;
      var edests := g.edests[node];
      incomplete := false;
      assert edests[..0] == [];
      for i := 0 to |edests|
        invariant SlotsValid(g, slots) && Extends(slots0, slots) && Busy(slots) == busy
        invariant eclosure.Valid()
        invariant eclosure.elems == old(eclosure.elems) || fresh(eclosure.elems)
        invariant Merged(g, node, edests[..i], Elems(eclosure.Items()), busy, slots, incomplete)
      {
        EdgeFacts(g, node, i);
        SameFree(slots0, slots);
        incomplete := MergeDest(node, edests[i], edests[..i], eclosure, busy, incomplete);
      }
      assert edests[..|edests|] == edests;
    }

    /** One destination: skip it when in progress, take its closure when known,
        compute it otherwise. */
    method MergeDest(node: nat, edest: nat, ghost done: seq<nat>, eclosure: NodeSet, ghost busy: set<nat>, cut: bool)
      returns (incomplete: bool)
      requires EdgesIn(g) && SlotsValid(g, slots) && node < |g.edests| && Busy(slots) == busy
      requires edest in g.edests[node] && edest < |slots| && eclosure.Valid()
      requires Merged(g, node, done, Elems(eclosure.Items()), busy, slots, cut)
      modifies this`slots, eclosure, eclosure.elems
      ensures SlotsValid(g, slots) && Extends(old(slots), slots) && Busy(slots) == busy
      ensures eclosure.Valid() && (eclosure.elems == old(eclosure.elems) || fresh(eclosure.elems))
      ensures Merged(g, node, done + [edest], Elems(eclosure.Items()), busy, slots, incomplete)
      decreases Free(slots), 1
    {
      hide Merged, Covers, Sound, Exact, Increasing, Elems, EdgesIn, Busy, Free;
      ghost var acc, slots0 := Elems(eclosure.Items()), slots;
      Reflexive(g, slots, edest);
      if slots[edest].InProgress? {
        BusyCovers(g, edest, busy);
        MergeOne(g, node, done, acc, busy, slots0, cut, edest, {}, slots);
        assert acc + {} == acc;
        return true;
      }
      var elem: seq<nat>;
      if slots[edest].Unset? {
        elem := CalcIter(edest, false);
      } else {
        elem := slots[edest].elems;
        ExactCovers(g, edest, elem, busy);
      }
      eclosure.Merge(elem);
      MergeOne(g, node, done, acc, busy, slots0, cut, edest, Elems(elem), slots);
      incomplete := cut || slots[edest].Unset?;
    }

    /** calc_eclosure. The pass over the nodes never has to be repeated: a root
        call always keeps its result. */
    method Calc()
      requires EdgesIn(g) && slots == seq(|g.edests|, i => Unset)
      modifies this`slots
      ensures SlotsValid(g, slots) && forall q :: 0 <= q < |slots| ==> slots[q].Done?
    {
      var nodeIdx := 0;
      var incomplete := false;
      while true
        invariant 0 <= nodeIdx <= |slots| && !incomplete
        invariant SlotsValid(g, slots) && Busy(slots) == {}
        invariant forall q :: 0 <= q < nodeIdx ==> slots[q].Done?
        decreases |slots| - nodeIdx
      {
        if nodeIdx == |slots| {
          if !incomplete {
            break;
          }
          incomplete := false;
          nodeIdx := 0;
        }
        if slots[nodeIdx].Unset? {
          Idle(slots, nodeIdx);
          var elem := CalcIter(nodeIdx, true);
          if slots[nodeIdx].Unset? {
            incomplete := true;
          }
        }
        Idle(slots, nodeIdx);
        nodeIdx := nodeIdx + 1;
      }
    }
  }

  lemma {:induction false} Idle(slots: seq<Slot>, q: nat)
    requires q < |slots| && Busy(slots) == {}
    ensures !slots[q].InProgress?
  {
    assert slots[q].InProgress? ==> q in Busy(slots);
  }

  lemma {:induction false} Single(g: N.Nfa, node: nat)
    requires node < |g.edests|
    ensures Elems([]) == {} && Elems([node]) == {node}
    ensures [] + [node] == [node]
    ensures Sound(g, {node}, node)
  {
    ReachesSelf(g, node, {});
  }

  lemma {:induction false} Enter(g: N.Nfa, node: nat, slots0: seq<Slot>, slots1: seq<Slot>)
    requires SlotsValid(g, slots0) && node < |slots0| && slots0[node].Unset? && slots1 == slots0[node := InProgress]
    ensures SlotsValid(g, slots1) && Extends(slots0, slots1) && node !in Busy(slots0)
    ensures Busy(slots1) == Busy(slots0) + {node} && Free(slots1) < Free(slots0)
    ensures forall acc: set<nat> :: node in acc && Sound(g, acc, node) ==>
              Merged(g, node, [], acc, Busy(slots1), slots1, false)
  {
    assert node in Free(slots0) && node !in Free(slots1);
  }

  lemma {:induction false} Leave(g: N.Nfa, node: nat, newSet: seq<nat>, slots0: seq<Slot>, slots1: seq<Slot>,
                                 slots2: seq<Slot>, incomplete: bool, root: bool)
    requires EdgesIn(g) && SlotsValid(g, slots1) && Extends(slots0, slots1)
    requires node < |slots0| && slots0[node].Unset? && Busy(slots1) == Busy(slots0) + {node}
    requires Merged(g, node, g.edests[node], Elems(newSet), Busy(slots0) + {node}, slots1, incomplete)
    requires Increasing(newSet)
    requires root ==> Busy(slots0) == {}
    requires slots2 == slots1[node := if incomplete && !root then Unset else Done(newSet)]
    ensures SlotsValid(g, slots2) && Extends(slots0, slots2) && Busy(slots2) == Busy(slots0)
    ensures Sound(g, Elems(newSet), node) && Covers(g, Elems(newSet), node, Busy(slots0))
  {
    MergedCovers(g, node, Elems(newSet), Busy(slots0), slots1, incomplete);
    if !incomplete {
      MergedComplete(g, node, Elems(newSet), Busy(slots0) + {node}, slots1);
    }
    assert node !in Busy(slots0);
    forall q ensures q in Busy(slots2) <==> q in Busy(slots0) {
      assert q in Busy(slots1) <==> q in Busy(slots0) || q == node;
    }
  }

  lemma {:induction false} EdgeFacts(g: N.Nfa, node: nat, i: nat)
    requires EdgesIn(g) && node < |g.edests| && i < |g.edests[node]|
    ensures var es := g.edests[node];
            es[i] in es && es[i] < |g.edests| && es[..i + 1] == es[..i] + [es[i]]
  {
    assert g.edests[node][i] in g.edests[node];
  }

  lemma {:induction false} NoDests(g: N.Nfa, node: nat)
    requires EdgesIn(g) && node < |g.edests|
    ensures |g.nodes| == |g.edests| && (!IsEpsilon(g.nodes[node]) ==> g.edests[node] == [])
  {
  }

  lemma {:induction false} SameFree(a: seq<Slot>, b: seq<Slot>)
    requires |a| == |b| && Busy(a) == Busy(b)
    ensures Free(a) == Free(b)
  {
    forall q ensures q in Free(a) <==> q in Free(b) {
      assert q in Busy(a) <==> q in Busy(b);
    }
  }

  /** What a call that has changed nothing yet knows about the slots. */
  lemma {:induction false} Reflexive(g: N.Nfa, slots: seq<Slot>, e: nat)
    requires SlotsValid(g, slots) && e < |slots|
    ensures Extends(slots, slots) && (slots[e].InProgress? <==> e in Busy(slots))
    ensures slots[e].Done? ==> Exact(g, e, slots[e].elems) && Increasing(slots[e].elems)
  {
  }

  /** The eclosure table of a compiled pattern. */
  ghost predicate Eclosed(g: N.Nfa, ecl: seq<seq<nat>>) {
    |ecl| == |g.edests| && forall q :: 0 <= q < |ecl| ==> Exact(g, q, ecl[q])
  }

  method CalcEclosures(g: N.Nfa) returns (ecl: seq<seq<nat>>)
    requires EdgesIn(g)
    ensures Eclosed(g, ecl)
  {
    var e := new Eclosures(g);
    assert Busy(e.slots) == {};
    e.Calc();
    var slots := e.slots;
    ecl := seq(|slots|, q requires 0 <= q < |slots| => if slots[q].Done? then slots[q].elems else []);
  }

  /** Where calc_inveclosure stands: all sources below `src` and the part `part`
      of the closure of `src` have been entered. */
  ghost predicate Inverted(ecl: seq<seq<nat>>, inv: seq<seq<nat>>, src: nat, part: seq<nat>) {
    |inv| == |ecl| && forall d :: 0 <= d < |inv| ==> Inverted1(ecl, inv[d], d, src, part)
  }

  ghost predicate Inverted1(ecl: seq<seq<nat>>, line: seq<nat>, d: nat, src: nat, part: seq<nat>) {
    && Increasing(line)
    && forall s: nat :: s in Elems(line) <==>
         (s < src && s < |ecl| && d in Elems(ecl[s])) || (s == src && d in Elems(part))
  }

  /** The converse table: who can reach `d`. */
  ghost predicate Inverse(g: N.Nfa, inv: seq<seq<nat>>) {
    |inv| == |g.edests| && forall d :: 0 <= d < |inv| ==>
      Increasing(inv[d]) && forall s: nat :: s in Elems(inv[d]) <==> s < |inv| && Reaches(g, s, d)
  }

  lemma {:induction false} InvertStep(ecl: seq<seq<nat>>, inv: seq<seq<nat>>, src: nat, closure: seq<nat>, idx: nat)
    requires idx < |closure| && closure[idx] < |inv| && Increasing(closure)
    requires Inverted(ecl, inv, src, closure[..idx])
    ensures Increasing(inv[closure[idx]]) && forall y :: y in Elems(inv[closure[idx]]) ==> y < src
    ensures var d := closure[idx]; Inverted(ecl, inv[d := inv[d] + [src]], src, closure[..idx + 1])
  {
    var d, part := closure[idx], closure[..idx];
    assert closure[..idx + 1] == part + [d];
    Prefix(closure, idx);
    assert Inverted1(ecl, inv[d], d, src, part);
    Snoc(inv[d], src);
    Snoc(part, d);
    var inv' := inv[d := inv[d] + [src]];
    forall c | 0 <= c < |inv| ensures Inverted1(ecl, inv'[c], c, src, part + [d]) {
      assert Inverted1(ecl, inv[c], c, src, part);
      assert c in Elems(part + [d]) <==> c in Elems(part) || c == d;
    }
  }

  lemma {:induction false} Prefix(s: seq<nat>, i: nat)
    requires Increasing(s) && i < |s|
    ensures Increasing(s[..i]) && forall y :: y in Elems(s[..i]) ==> y < s[i]
  {
  }

  lemma {:induction false} InvertNext(ecl: seq<seq<nat>>, inv: seq<seq<nat>>, src: nat)
    requires src < |ecl| && Inverted(ecl, inv, src, ecl[src])
    ensures Inverted(ecl, inv, src + 1, [])
  {
    forall d | 0 <= d < |inv| ensures Inverted1(ecl, inv[d], d, src + 1, []) {
      assert Inverted1(ecl, inv[d], d, src, ecl[src]);
      assert d !in Elems([]);
    }
  }

  method CalcInveclosure(g: N.Nfa, ecl: seq<seq<nat>>) returns (inv: seq<seq<nat>>)
    requires EdgesIn(g) && Eclosed(g, ecl)
    ensures Inverse(g, inv)
  {
    hide Inverted, Inverted1, Increasing, Elems, Reaches;
    inv := seq(|ecl|, i => []);
    NoneInverted(ecl, inv);
    for src := 0 to |ecl|
      invariant |inv| == |ecl| && Inverted(ecl, inv, src, [])
    {
      var closure := ecl[src];
      InRange(g, src, closure);
      assert closure[..0] == [];
      for idx := 0 to |closure|
        invariant |inv| == |ecl| && Inverted(ecl, inv, src, closure[..idx])
      {
        var d := closure[idx];
        InvertStep(ecl, inv, src, closure, idx);
        inv := inv[d := inv[d] + [src]];
      }
      assert closure[..|closure|] == closure;
      InvertNext(ecl, inv, src);
    }
    InvertDone(g, ecl, inv);
  }

  lemma {:induction false} NoneInverted(ecl: seq<seq<nat>>, inv: seq<seq<nat>>)
    requires |inv| == |ecl| && forall d :: 0 <= d < |inv| ==> inv[d] == []
    ensures Inverted(ecl, inv, 0, [])
  {
    assert Elems([]) == {};
    forall d | 0 <= d < |inv| ensures Inverted1(ecl, inv[d], d, 0, []) {
      assert inv[d] == [];
    }
  }

  lemma {:induction false} InRange(g: N.Nfa, n: nat, s: seq<nat>)
    requires Exact(g, n, s)
    ensures Increasing(s) && forall i :: 0 <= i < |s| ==> s[i] < |g.edests|
  {
    forall i | 0 <= i < |s| ensures s[i] < |g.edests| {
      assert s[i] in Elems(s);
      var p :| Path(g, p, n, s[i], {});
    }
  }

  lemma {:induction false} InvertDone(g: N.Nfa, ecl: seq<seq<nat>>, inv: seq<seq<nat>>)
    requires Eclosed(g, ecl) && Inverted(ecl, inv, |ecl|, [])
    ensures Inverse(g, inv)
  {
    forall d | 0 <= d < |inv|
      ensures Increasing(inv[d]) && forall s: nat :: s in Elems(inv[d]) <==> s < |inv| && Reaches(g, s, d)
    {
      assert Inverted1(ecl, inv[d], d, |ecl|, []);
      assert d !in Elems([]);
      forall s: nat | s < |ecl| ensures d in Elems(ecl[s]) <==> Reaches(g, s, d) {
        assert Exact(g, s, ecl[s]);
      }
    }
  }
}
