/** The backward sift (sift_states_backward, build_sifted_states,
    update_cur_sifted_state and add_epsilon_src_nodes of src/regex/regexec.c). */
module Sift {
  import opened Language
  import opened NodeSets
  import opened Closure
  import opened Dfa
  import opened Simulation
  import opened Match
  import N = Nfa

  /** A path of `n` moves from `q` to `m` that spells `w`. */
  ghost predicate RunTo(re: Program, q: int, w: seq<Byte>, m: nat, n: nat)
    decreases n
  {
    && 0 <= q < |re.g.nodes| == |re.g.nexts| == |re.g.edests|
    && if n == 0 then q == m && w == []
       else
         || (w != [] && Accepts(re.syn, re.g.nodes[q], w[0]) && RunTo(re, re.g.nexts[q], w[1..], m, n - 1))
         || exists e :: e in re.g.edests[q] && RunTo(re, e, w, m, n - 1)
  }

  ghost predicate CanReach(re: Program, q: int, w: seq<Byte>, m: nat) {
    exists n :: RunTo(re, q, w, m, n)
  }

  /** What `sifted_states[i]` has to hold: the logged nodes from which `m` at
      position `end` can still be reached. */
  ghost function Target(re: Program, input: seq<Byte>, i: nat, m: nat, end: nat): set<nat>
    requires re.init < |re.ecl| && i <= end <= |input|
  {
    set n | n in After(re, input[..i]) && CanReach(re, n, input[i..end], m)
  }

  lemma {:induction false} EpsBack(re: Program, p: seq<nat>, a: nat, b: nat, w: seq<Byte>, m: nat)
    requires |re.g.nodes| == |re.g.nexts| == |re.g.edests|
    requires Path(re.g, p, a, b, {}) && CanReach(re, b, w, m)
    ensures CanReach(re, a, w, m)
    decreases |p|
  {
    if |p| > 1 {
      assert Path(re.g, p[1..], p[1], b, {});
      EpsBack(re, p[1..], p[1], b, w, m);
      var n: nat :| RunTo(re, p[1], w, m, n);
      assert RunTo(re, a, w, m, n + 1);
    }
  }

  lemma {:induction false} RunToEps(re: Program, q: nat, m: nat, n: nat)
    requires RunTo(re, q, [], m, n)
    ensures Reaches(re.g, q, m)
    decreases n
  {
    if n == 0 {
      ReachesSelf(re.g, q, {});
    } else {
      var e :| e in re.g.edests[q] && RunTo(re, e, [], m, n - 1);
      RunToEps(re, e, m, n - 1);
      ReachesEdge(re.g, q, e, m);
    }
  }

  /** With nothing left to read, reaching is epsilon reachability. */
  lemma {:induction false} ReachNow(re: Program, q: nat, m: nat)
    requires |re.g.nodes| == |re.g.nexts| == |re.g.edests|
    ensures CanReach(re, q, [], m) <==> Reaches(re.g, q, m)
  {
    forall n | RunTo(re, q, [], m, n) ensures Reaches(re.g, q, m) {
      RunToEps(re, q, m, n);
    }
    if Reaches(re.g, q, m) {
      var p :| Path(re.g, p, q, m, {});
      assert RunTo(re, m, [], m, 0);
      EpsBack(re, p, q, m, [], m);
    }
  }

  /** A path that reads a byte reads it at some node reached by epsilon moves. */
  lemma {:induction false} ReachReads(re: Program, q: nat, c: Byte, v: seq<Byte>, m: nat, n: nat) returns (p: nat)
    requires RunTo(re, q, [c] + v, m, n)
    ensures p < |re.g.nodes| == |re.g.nexts| == |re.g.edests| && Reaches(re.g, q, p)
    ensures Accepts(re.syn, re.g.nodes[p], c) && CanReach(re, re.g.nexts[p], v, m)
    decreases n
  {
    var w := [c] + v;
    assert w[0] == c && w[1..] == v && n > 0;
    if e :| e in re.g.edests[q] && RunTo(re, e, w, m, n - 1) {
      p := ReachReads(re, e, c, v, m, n - 1);
      ReachesEdge(re.g, q, e, p);
    } else {
      p := q;
      ReachesSelf(re.g, q, {});
      assert Accepts(re.syn, re.g.nodes[q], w[0]) && RunTo(re, re.g.nexts[q], w[1..], m, n - 1);
    }
  }

  lemma {:induction false} ReadsReach(re: Program, q: nat, p: nat, c: Byte, v: seq<Byte>, m: nat)
    requires p < |re.g.nodes| == |re.g.nexts| == |re.g.edests| && Reaches(re.g, q, p)
    requires Accepts(re.syn, re.g.nodes[p], c) && CanReach(re, re.g.nexts[p], v, m)
    ensures CanReach(re, q, [c] + v, m)
  {
    var n: nat :| RunTo(re, re.g.nexts[p], v, m, n);
    var w := [c] + v;
    assert w[0] == c && w[1..] == v;
    assert RunTo(re, p, w, m, n + 1);
    var path :| Path(re.g, path, q, p, {});
    EpsBack(re, path, q, p, w, m);
  }

  lemma {:induction false} ClosedReach(re: Program, s: set<nat>, p: seq<nat>, a: nat, b: nat)
    requires EpsClosed(re.g, s) && a in s && Path(re.g, p, a, b, {})
    ensures b in s
    decreases |p|
  {
    if |p| > 1 {
      assert Path(re.g, p[1..], p[1], b, {});
      ClosedReach(re, s, p[1..], p[1], b);
    }
  }

  /** The node `n` accepts `ch` and leads into `next`. */
  ghost predicate Feeds(re: Program, n: nat, ch: Byte, next: set<nat>) {
    n < |re.g.nodes| == |re.g.nexts| && Accepts(re.syn, re.g.nodes[n], ch) && re.g.nexts[n] in next
  }

  /** The nodes build_sifted_states picks of `cur`: those that accept `ch` into `next`. */
  ghost function Feeders(re: Program, cur: set<nat>, ch: Byte, next: set<nat>): set<nat> {
    set n | n in cur && Feeds(re, n, ch, next)
  }

  /** The nodes of `s` that can reach `d` by epsilon moves. */
  ghost function EpsInto(re: Program, s: set<nat>, d: set<nat>): set<nat> {
    set n | n in s && exists p :: p in d && Reaches(re.g, n, p)
  }

  /** The nodes of a position that survive, given those of the next one. */
  ghost function Survivors(re: Program, cur: set<nat>, ch: Byte, next: set<nat>): set<nat> {
    EpsInto(re, cur, Feeders(re, cur, ch, next))
  }

  lemma {:induction false} TargetAtEnd(re: Program, last: nat, input: seq<Byte>, m: nat, end: nat)
    requires Compiled(re, last) && re.init < |re.ecl| && end <= |input|
    ensures Target(re, input, end, m, end) == EpsInto(re, After(re, input[..end]), {m})
  {
    assert input[end..end] == [];
    forall n: nat ensures CanReach(re, n, [], m) <==> Reaches(re.g, n, m) {
      ReachNow(re, n, m);
    }
  }

  /** One step back: the exact set at `i` comes from the exact set at `i + 1`. */
  lemma {:induction false} TargetBefore(re: Program, last: nat, input: seq<Byte>, i: nat, m: nat, end: nat)
    requires Compiled(re, last) && re.init < |re.ecl| && i < end <= |input|
    ensures Target(re, input, i, m, end) ==
            Survivors(re, After(re, input[..i]), input[i], Target(re, input, i + 1, m, end))
  {
    var here, next := After(re, input[..i]), Target(re, input, i + 1, m, end);
    var c, v := input[i], input[i + 1..end];
    assert input[i..end] == [c] + v;
    AfterClosed(re, last, input[..i]);
    forall n | n in Target(re, input, i, m, end) ensures n in Survivors(re, here, input[i], next) {
      var k: nat :| RunTo(re, n, [c] + v, m, k);
      var p := ReachReads(re, n, c, v, m, k);
      var path :| Path(re.g, path, n, p, {});
      ClosedReach(re, here, path, n, p);
      SuccessorLogged(re, last, input, i, p);
      assert p in Feeders(re, After(re, input[..i]), input[i], next);
    }
    forall n | n in Survivors(re, here, input[i], next) ensures n in Target(re, input, i, m, end) {
      var p :| p in Feeders(re, After(re, input[..i]), input[i], next) && Reaches(re.g, n, p);
      assert N.Closed1(re.g, p, last);
      ReadsReach(re, n, p, c, v, m);
    }
  }

  /** The successor of a logged node that accepts the next byte is logged. */
  lemma {:induction false} SuccessorLogged(re: Program, last: nat, input: seq<Byte>, i: nat, p: nat)
    requires Compiled(re, last) && re.init < |re.ecl| && i < |input|
    requires p in After(re, input[..i]) && p < |re.g.nodes| && Accepts(re.syn, re.g.nodes[p], input[i])
    ensures p < |re.g.nexts| && 0 <= re.g.nexts[p] && re.g.nexts[p] in After(re, input[..i + 1])
  {
    Successor(re, last, p);
    var x: nat := re.g.nexts[p];
    ReachesSelf(re.g, x, {});
    InStep(re, After(re, input[..i]), input[i], p, x);
    assert input[..i + 1][..i] == input[..i];
  }

  /** A logged node was put there by the successor of an earlier one. */
  lemma {:induction false} ComesFrom(re: Program, last: nat, input: seq<Byte>, i: nat, x: nat, w: seq<Byte>, m: nat)
    returns (p: nat)
    requires Compiled(re, last) && re.init < |re.ecl| && i < |input|
    requires x in After(re, input[..i + 1]) && CanReach(re, x, w, m)
    ensures p in After(re, input[..i]) && p < |re.g.nodes| == |re.g.nexts| == |re.g.edests|
    ensures Accepts(re.syn, re.g.nodes[p], input[i]) && CanReach(re, re.g.nexts[p], w, m)
  {
    assert input[..i + 1][..i] == input[..i];
    p :| p in After(re, input[..i]) && p < |re.g.nodes| == |re.g.nexts| && Accepts(re.syn, re.g.nodes[p], input[i])
         && 0 <= re.g.nexts[p] < |re.ecl| && x in Elems(re.ecl[re.g.nexts[p]]);
    var y: nat := re.g.nexts[p];
    assert Exact(re.g, y, re.ecl[y]);
    var path :| Path(re.g, path, y, x, {});
    EpsBack(re, path, y, x, w, m);
  }

  /** Every logged node is reached from some node of any earlier entry. */
  lemma {:induction false} TargetNotEmpty(re: Program, last: nat, input: seq<Byte>, i: nat, m: nat, end: nat)
    requires Compiled(re, last) && re.init < |re.ecl| && i <= end <= |input| && m in After(re, input[..end])
    ensures Target(re, input, i, m, end) != {}
    decreases end - i
  {
    hide After, Target, Compiled;
    if i == end {
      TargetAtEnd(re, last, input, m, end);
      AfterInRange(re, last, input[..end], m);
      LeadsToSelf(re, After(re, input[..end]), {m}, m);
    } else {
      TargetNotEmpty(re, last, input, i + 1, m, end);
      var x :| x in Target(re, input, i + 1, m, end);
      var p := TakerOf(re, last, input, i, x, m, end);
      TargetBefore(re, last, input, i, m, end);
      LeadsToSelf(re, After(re, input[..i]),
                  Feeders(re, After(re, input[..i]), input[i], Target(re, input, i + 1, m, end)), p);
    }
  }

  lemma {:induction false} LeadsToSelf(re: Program, from: set<nat>, to: set<nat>, p: nat)
    requires p in from && p in to && p < |re.g.edests|
    ensures p in EpsInto(re, from, to)
  {
    ReachesSelf(re.g, p, {});
  }

  /** A node of the next target was reached by reading a byte. */
  lemma {:induction false} TakerOf(re: Program, last: nat, input: seq<Byte>, i: nat, x: nat, m: nat, end: nat)
    returns (p: nat)
    requires Compiled(re, last) && re.init < |re.ecl| && i < end <= |input| && x in Target(re, input, i + 1, m, end)
    ensures p in After(re, input[..i]) && p < |re.g.edests|
    ensures p in Feeders(re, After(re, input[..i]), input[i], Target(re, input, i + 1, m, end))
  {
    hide After, CanReach, Reaches, Compiled;
    p := ComesFrom(re, last, input, i, x, input[i + 1..end], m);
    SuccessorLogged(re, last, input, i, p);
    assert p in Feeders(re, After(re, input[..i]), input[i], Target(re, input, i + 1, m, end));
    AfterInRange(re, last, input[..i], p);
  }

  lemma {:induction false} AfterInRange(re: Program, last: nat, w: seq<Byte>, n: nat)
    requires Compiled(re, last) && re.init < |re.ecl| && n in After(re, w)
    ensures n < |re.g.nodes| == |re.g.edests|
  {
    var q: nat := re.init;
    if w != [] {
      var p: nat :| p in After(re, w[..|w| - 1]) && p < |re.g.nodes| == |re.g.nexts|
                    && Accepts(re.syn, re.g.nodes[p], w[|w| - 1])
                    && 0 <= re.g.nexts[p] < |re.ecl| && n in Elems(re.ecl[re.g.nexts[p]]);
      q := re.g.nexts[p];
    }
    InRange(re.g, q, re.ecl[q]);
    assert exists k :: 0 <= k < |re.ecl[q]| && re.ecl[q][k] == n;
  }

  lemma {:induction false} SourcesAppend(re: Program, p: seq<nat>, n: nat)
    requires n < |re.inv|
    ensures Sources(re, p + [n]) == Sources(re, p) + Elems(re.inv[n])
  {
  }

  /** Intersecting with the merged converse closures picks the nodes that can
      reach `d` by epsilon moves. */
  lemma {:induction false} SourcesAreEps(re: Program, last: nat, s: set<nat>, d: seq<nat>)
    requires Compiled(re, last) && re.hasInv && NodesIn(re, d) && Elems(d) <= s
    ensures Elems(d) + s * Sources(re, d) == EpsInto(re, s, Elems(d))
  {
    forall n | n in s ensures n in Sources(re, d) <==> exists p :: p in Elems(d) && Reaches(re.g, n, p) {
      if n in Sources(re, d) {
        var p :| p in d && p < |re.inv| && n in Elems(re.inv[p]);
        assert p in Elems(d) && Reaches(re.g, n, p);
      }
      if exists p :: p in Elems(d) && Reaches(re.g, n, p) {
        var p :| p in Elems(d) && Reaches(re.g, n, p);
        var path :| Path(re.g, path, n, p, {});
        assert n in Elems(re.inv[p]);
      }
    }
    forall n | n in Elems(d) ensures n in EpsInto(re, s, Elems(d)) {
      assert n in d;
      ReachesSelf(re.g, n, {});
    }
  }

  /** The merged converse closures of a state, computed once and kept. */
  method InverseOf(d: Dfa, state: State) returns (inv: seq<nat>)
    requires d.Valid() && state in d.states && d.re.hasInv
    modifies state`inveclosure
    ensures d.Valid() && Increasing(inv) && Elems(inv) == Sources(d.re, state.nodes)
  {
    if state.inveclosure.Empty? {
      assert StateOk(d.re, d.last, state);
      var merged := MergeInverse(d.re, d.last, state.nodes);
      state.inveclosure := Cached(merged);
    }
    assert CacheOk(d.re, state);
    inv := state.inveclosure.elems;
  }

  method MergeInverse(re: Program, ghost last: nat, nodes: seq<nat>) returns (inv: seq<nat>)
    requires Compiled(re, last) && re.hasInv && NodesIn(re, nodes)
    ensures Increasing(inv) && Elems(inv) == Sources(re, nodes)
  {
    hide Elems, Increasing, Sources;
    var merged := new NodeSet.Alloc(|nodes|);
    NoSources(re);
    assert merged.Items() == [] && nodes[..0] == [];
    for i := 0 to |nodes|
      invariant merged.Valid() && fresh(merged) && fresh(merged.elems)
      invariant Elems(merged.Items()) == Sources(re, nodes[..i])
    {
      assert nodes[..i + 1] == nodes[..i] + [nodes[i]] && nodes[i] in nodes;
      SourcesAppend(re, nodes[..i], nodes[i]);
      merged.Merge(re.inv[nodes[i]]);
    }
    assert nodes[..|nodes|] == nodes;
    inv := merged.elems[..merged.nelem];
  }

  lemma {:induction false} NoSources(re: Program)
    ensures Sources(re, []) == {} && Elems([]) == {} && Increasing([])
  {
  }

  /** add_epsilon_src_nodes: add the candidates that can epsilon-transit into `dest`. */
  method AddEpsilonSrcNodes(d: Dfa, dest: NodeSet, candidates: seq<nat>)
    requires d.Valid() && d.re.hasInv && dest.Valid() && dest.nelem > 0
    requires Increasing(candidates) && NodesIn(d.re, candidates) && Elems(dest.Items()) <= Elems(candidates)
    modifies d`stateTable, d`states, d.states`inveclosure, dest, dest.elems
    ensures d.Valid() && old(d.states) <= d.states && fresh(d.states - old(d.states))
    ensures dest.Valid() && (dest.elems == old(dest.elems) || fresh(dest.elems))
    ensures Elems(dest.Items()) == EpsInto(d.re, Elems(candidates), old(Elems(dest.Items())))
  {
    hide Elems, Increasing, EpsInto, Registered, TableOk, CacheOk, Compiled;
    ghost var items := dest.elems[..dest.nelem];
    ItemsIn(d.re, items, candidates);
    InitInRange(d);
    var state := d.Acquire(dest.elems[..dest.nelem]);
    var inv := InverseOf(d, state);
    SourcesAreEps(d.re, d.last, Elems(candidates), items);
    dest.AddIntersect(candidates, inv);
  }

  lemma {:induction false} ItemsIn(re: Program, items: seq<nat>, candidates: seq<nat>)
    requires Elems(items) <= Elems(candidates) && NodesIn(re, candidates)
    ensures NodesIn(re, items)
  {
    forall n | n in items ensures n < |re.g.nodes| {
      assert n in Elems(candidates);
    }
  }

  /** A sifted entry holds exactly `t`; NULL stands for the empty set. */
  ghost predicate Holds(states: set<State>, s: State?, t: set<nat>) {
    if s == null then t == {} else s in states && Elems(s.nodes) == t
  }

  /** update_cur_sifted_state. */
  method UpdateCurSiftedState(d: Dfa, candidates: State?, dest: NodeSet) returns (s: State?)
    requires d.Valid() && d.re.hasInv && dest.Valid() && (candidates != null ==> candidates in d.states)
    requires if candidates == null then dest.nelem == 0 else Elems(dest.Items()) <= Elems(candidates.nodes)
    modifies d`stateTable, d`states, d.states`inveclosure, dest, dest.elems
    ensures d.Valid() && old(d.states) <= d.states && fresh(d.states - old(d.states))
    ensures dest.Valid() && (dest.elems == old(dest.elems) || fresh(dest.elems))
    ensures Holds(d.states, s, EpsInto(d.re, if candidates == null then {} else Elems(candidates.nodes),
                                       old(Elems(dest.Items()))))
  {
    hide Increasing, EpsInto, Registered, TableOk, CacheOk, Compiled;
    NoElems(dest.elems[..dest.nelem]);
    EpsIntoNone(d.re, if candidates == null then {} else Elems(candidates.nodes));
    if dest.nelem == 0 {
      return null;
    }
    d.StateFacts(candidates);
    AddEpsilonSrcNodes(d, dest, candidates.nodes);
    EpsIntoKeeps(d, candidates.nodes, old(Elems(dest.Items())), dest.elems[..dest.nelem]);
    s := d.Acquire(dest.elems[..dest.nelem]);
  }

  lemma {:induction false} EpsIntoNone(re: Program, s: set<nat>)
    ensures EpsInto(re, s, {}) == {}
  {
  }

  lemma {:induction false} EpsIntoKeeps(d: Dfa, s: seq<nat>, old_: set<nat>, new_: seq<nat>)
    requires d.Valid() && NodesIn(d.re, s) && old_ <= Elems(s) && old_ != {}
    requires Elems(new_) == EpsInto(d.re, Elems(s), old_)
    ensures NodesIn(d.re, new_) && new_ != []
  {
    var n :| n in old_;
    ReachesSelf(d.re.g, n, {});
    assert n in Elems(new_);
    forall x | x in new_ ensures x < |d.re.g.nodes| {
      assert x in Elems(new_);
    }
  }

  lemma {:induction false} NonEpsilonFacts(toks: seq<Token>, nodes: seq<nat>)
    requires Increasing(nodes) && forall n :: n in nodes ==> n < |toks|
    ensures Increasing(NonEpsilon(toks, nodes))
  {
    if nodes != [] {
      assert nodes == [nodes[0]] + nodes[1..];
      Uncons(nodes);
      assert forall n :: n in nodes[1..] ==> n in nodes;
      NonEpsilonFacts(toks, nodes[1..]);
      var rest := NonEpsilon(toks, nodes[1..]);
      forall y | y in Elems(rest) ensures nodes[0] < y {
        assert y in Elems(nodes[1..]);
      }
      Cons(nodes[0], rest);
    }
  }

  /** build_sifted_states: of the nodes that are not epsilon nodes, those that
      accept the byte and whose successor survived at the next position. */
  method BuildSiftedStates(d: Dfa, cur: State, ch: Byte, next: State?, dest: NodeSet)
    requires d.Valid() && cur in d.states && dest.Valid() && dest.nelem == 0
    modifies dest, dest.elems
    ensures dest.Valid() && (dest.elems == old(dest.elems) || fresh(dest.elems))
    ensures forall n :: n in Elems(dest.Items()) <==>
              n in Elems(cur.nodes) && Feeds(d.re, n, ch, if next == null then {} else Elems(next.nodes))
  {
    var curSrc := cur.nonEps;
    ghost var nexts := if next == null then {} else Elems(next.nodes);
    assert StateOk(d.re, d.last, cur);
    NonEpsilonFacts(d.re.g.nodes, cur.nodes);
    NodesClosed(d, cur, ch, nexts);
    hide Increasing, Elems, Feeds;
    assert curSrc[..0] == [] && dest.Items() == [];
    NoSources(d.re);
    for i := 0 to |curSrc|
      invariant dest.Valid() && (dest.elems == old(dest.elems) || fresh(dest.elems))
      invariant forall n :: n in Elems(dest.Items()) <==> n in Elems(curSrc[..i]) && Feeds(d.re, n, ch, nexts)
    {
      var prevNode := curSrc[i];
      ghost var items := dest.elems[..dest.nelem];
      SrcStep(curSrc, i, items);
      FeedsTest(d.re, prevNode, ch, nexts, next);
      if Accepts(d.re.syn, d.re.g.nodes[prevNode], ch) && next != null && d.re.g.nexts[prevNode] in next.nodes {
        dest.Insert(prevNode);
      }
    }
    assert curSrc[..|curSrc|] == curSrc;
  }

  lemma {:induction false} NodesClosed(d: Dfa, cur: State, ch: Byte, next: set<nat>)
    requires d.Valid() && cur in d.states
    ensures |d.re.g.nodes| == |d.re.g.nexts|
    ensures forall n :: n in cur.nonEps ==> n < |d.re.g.nodes|
    ensures forall n ::
              n in Elems(cur.nodes) && Feeds(d.re, n, ch, next) <==> n in Elems(cur.nonEps) && Feeds(d.re, n, ch, next)
  {
    assert StateOk(d.re, d.last, cur);
  }

  lemma {:induction false} SrcStep(s: seq<nat>, i: nat, items: seq<nat>)
    requires Increasing(s) && i < |s| && Increasing(items) && Elems(items) <= Elems(s[..i])
    ensures s[i] in s && Elems(s[..i + 1]) == Elems(s[..i]) + {s[i]}
    ensures s[i] !in items && Elems(Inserted(items, s[i])) == Elems(items) + {s[i]}
    ensures s[i] !in Elems(items) && s[i] !in Elems(s[..i])
  {
    assert s[..i + 1] == s[..i] + [s[i]];
    Prefix(s, i);
    assert s[i] !in Elems(items);
    InsertedFacts(items, s[i]);
  }

  lemma {:induction false} FeedsTest(re: Program, n: nat, ch: Byte, nexts: set<nat>, next: State?)
    requires n < |re.g.nodes| == |re.g.nexts| && nexts == if next == null then {} else Elems(next.nodes)
    ensures Feeds(re, n, ch, nexts) <==>
              Accepts(re.syn, re.g.nodes[n], ch) && next != null && re.g.nexts[n] in next.nodes
  {
  }

  ghost function NodesOf(s: State?): set<nat> {
    if s == null then {} else Elems(s.nodes)
  }

  /** A log of registered states whose node sets are closed under epsilon moves. */
  ghost predicate LogClosed(re: Program, states: set<State>, input: seq<Byte>, log: seq<State?>) {
    && 0 < |log| <= |input| + 1
    && forall i :: 0 <= i < |log| && log[i] != null ==> log[i] in states && EpsClosed(re.g, NodesOf(log[i]))
  }

  /** The rule of the source: `q` at position `i` stays when it is `m` at `end`, or when
      a move leads from it to a node of the log that stays. Here, in `n` moves. */
  ghost predicate StaysIn(re: Program, input: seq<Byte>, log: seq<State?>, q: int, i: nat, m: nat, end: nat, n: nat)
    requires end < |log| <= |input| + 1
    decreases n
  {
    && 0 <= q < |re.g.nodes| == |re.g.nexts| == |re.g.edests| && i <= end && q in NodesOf(log[i])
    && if n == 0 then q == m && i == end
       else
         || (i < end && Accepts(re.syn, re.g.nodes[q], input[i])
             && StaysIn(re, input, log, re.g.nexts[q], i + 1, m, end, n - 1))
         || exists e :: e in re.g.edests[q] && StaysIn(re, input, log, e, i, m, end, n - 1)
  }

  ghost predicate Stays(re: Program, input: seq<Byte>, log: seq<State?>, q: int, i: nat, m: nat, end: nat)
    requires end < |log| <= |input| + 1
  {
    exists n :: StaysIn(re, input, log, q, i, m, end, n)
  }

  /** What `sifted_states[i]` has to hold, for any log. */
  ghost function Keep(re: Program, input: seq<Byte>, log: seq<State?>, i: nat, m: nat, end: nat): set<nat>
    requires i <= end < |log| <= |input| + 1
  {
    set q | q in NodesOf(log[i]) && Stays(re, input, log, q, i, m, end)
  }

  /** Staying is inherited backwards along epsilon moves. */
  lemma {:induction false} StaysBack(re: Program, input: seq<Byte>, log: seq<State?>, p: seq<nat>, a: nat, b: nat,
                                     i: nat, m: nat, end: nat)
    requires i <= end < |log| <= |input| + 1 && EpsClosed(re.g, NodesOf(log[i])) && a in NodesOf(log[i])
    requires |re.g.nodes| == |re.g.nexts| == |re.g.edests|
    requires Path(re.g, p, a, b, {}) && Stays(re, input, log, b, i, m, end)
    ensures Stays(re, input, log, a, i, m, end)
    decreases |p|
  {
    if |p| > 1 {
      assert Path(re.g, p[1..], p[1], b, {});
      StaysBack(re, input, log, p[1..], p[1], b, i, m, end);
      var n: nat :| StaysIn(re, input, log, p[1], i, m, end, n);
      assert StaysIn(re, input, log, a, i, m, end, n + 1);
    }
  }

  /** A node that stays at the end has an epsilon path to `m`. */
  lemma {:induction false} StaysAtEnd(re: Program, input: seq<Byte>, log: seq<State?>, q: nat, m: nat, end: nat, n: nat)
    requires end < |log| <= |input| + 1 && StaysIn(re, input, log, q, end, m, end, n)
    ensures Reaches(re.g, q, m)
    decreases n
  {
    if n == 0 {
      ReachesSelf(re.g, q, {});
    } else {
      var e :| e in re.g.edests[q] && StaysIn(re, input, log, e, end, m, end, n - 1);
      StaysAtEnd(re, input, log, e, m, end, n - 1);
      ReachesEdge(re.g, q, e, m);
    }
  }

  /** One that stays before the end has an epsilon path to a node of the log that
      accepts the next byte into a node that stays. */
  lemma {:induction false} StaysByReading(re: Program, input: seq<Byte>, log: seq<State?>, q: nat, i: nat, m: nat,
                                          end: nat, n: nat) returns (p: nat)
    requires i < end < |log| <= |input| + 1 && StaysIn(re, input, log, q, i, m, end, n)
    ensures p in NodesOf(log[i]) && Reaches(re.g, q, p) && Feeds(re, p, input[i], Keep(re, input, log, i + 1, m, end))
    decreases n
  {
    if e :| e in re.g.edests[q] && StaysIn(re, input, log, e, i, m, end, n - 1) {
      p := StaysByReading(re, input, log, e, i, m, end, n - 1);
      ReachesEdge(re.g, q, e, p);
    } else {
      p := q;
      ReachesSelf(re.g, q, {});
      assert StaysIn(re, input, log, re.g.nexts[q], i + 1, m, end, n - 1);
    }
  }

  /** What has to be kept at the end ... */
  lemma {:induction false} KeepAtEnd(re: Program, last: nat, states: set<State>, input: seq<Byte>, log: seq<State?>,
                                     m: nat, end: nat)
    requires Compiled(re, last) && LogClosed(re, states, input, log) && end < |log| && m < |re.g.nodes|
    requires m in NodesOf(log[end])
    ensures Keep(re, input, log, end, m, end) == EpsInto(re, NodesOf(log[end]), {m})
  {
    var here := NodesOf(log[end]);
    forall q | q in Keep(re, input, log, end, m, end) ensures q in EpsInto(re, here, {m}) {
      var n: nat :| StaysIn(re, input, log, q, end, m, end, n);
      StaysAtEnd(re, input, log, q, m, end, n);
    }
    assert StaysIn(re, input, log, m, end, m, end, 0);
    forall q | q in EpsInto(re, here, {m}) ensures q in Keep(re, input, log, end, m, end) {
      var p :| Path(re.g, p, q, m, {});
      StaysBack(re, input, log, p, q, m, end, m, end);
    }
  }

  /** ... and before a position, from what is kept after it. */
  lemma {:induction false} KeepBefore(re: Program, last: nat, states: set<State>, input: seq<Byte>, log: seq<State?>,
                                      i: nat, m: nat, end: nat)
    requires Compiled(re, last) && LogClosed(re, states, input, log) && i < end < |log|
    ensures Keep(re, input, log, i, m, end) ==
            Survivors(re, NodesOf(log[i]), input[i], Keep(re, input, log, i + 1, m, end))
  {
    var here, next := NodesOf(log[i]), Keep(re, input, log, i + 1, m, end);
    forall q | q in Keep(re, input, log, i, m, end) ensures q in Survivors(re, here, input[i], next) {
      var n: nat :| StaysIn(re, input, log, q, i, m, end, n);
      var p := StaysByReading(re, input, log, q, i, m, end, n);
      assert p in Feeders(re, here, input[i], next);
    }
    forall q | q in Survivors(re, here, input[i], next) ensures q in Keep(re, input, log, i, m, end) {
      var p :| p in Feeders(re, here, input[i], next) && Reaches(re.g, q, p);
      var n: nat :| StaysIn(re, input, log, re.g.nexts[p], i + 1, m, end, n);
      assert StaysIn(re, input, log, p, i, m, end, n + 1);
      var path :| Path(re.g, path, q, p, {});
      StaysBack(re, input, log, path, q, p, i, m, end);
    }
  }

  /** The early exit: where nothing stays, nothing stays before. */
  lemma {:induction false} KeepEmptyBelow(re: Program, last: nat, states: set<State>, input: seq<Byte>,
                                          log: seq<State?>, i: nat, m: nat, end: nat, k: nat)
    requires Compiled(re, last) && LogClosed(re, states, input, log) && k <= i <= end < |log|
    requires Keep(re, input, log, i, m, end) == {}
    ensures Keep(re, input, log, k, m, end) == {}
    decreases i - k
  {
    if k < i {
      hide Keep, LogClosed, Compiled;
      KeepBefore(re, last, states, input, log, i - 1, m, end);
      NoFeeders(re, NodesOf(log[i - 1]), input[i - 1]);
      KeepEmptyBelow(re, last, states, input, log, i - 1, m, end, k);
    }
  }

  lemma {:induction false} NoFeeders(re: Program, cur: set<nat>, ch: Byte)
    ensures Survivors(re, cur, ch, {}) == {}
  {
    assert Feeders(re, cur, ch, {}) == {};
  }

  /** The exit is taken: a NULL entry of the log leaves nothing at or before it. */
  lemma {:induction false} NullEmpties(re: Program, last: nat, states: set<State>, input: seq<Byte>, log: seq<State?>,
                                       i: nat, m: nat, end: nat, k: nat)
    requires Compiled(re, last) && LogClosed(re, states, input, log) && k <= i <= end < |log| && log[i] == null
    ensures Keep(re, input, log, k, m, end) == {}
  {
    assert Keep(re, input, log, i, m, end) == {};
    KeepEmptyBelow(re, last, states, input, log, i, m, end, k);
  }

  /** The log of check_matching: its entries are what the simulation reaches. */
  lemma {:induction false} LogOkIsClosed(re: Program, last: nat, states: set<State>, input: seq<Byte>, log: seq<State?>)
    requires Compiled(re, last) && re.init < |re.ecl| && LogOk(re, states, input, log)
    ensures LogClosed(re, states, input, log)
    ensures forall i :: 0 <= i < |log| ==> NodesOf(log[i]) == After(re, input[..i])
  {
    forall i | 0 <= i < |log| ensures EpsClosed(re.g, NodesOf(log[i])) && NodesOf(log[i]) == After(re, input[..i]) {
      assert At(re, log[i], input[..i]);
      AfterClosed(re, last, input[..i]);
    }
  }

  /** There, staying in the log is reaching the final node by the text in between. */
  lemma {:induction false} KeepIsTarget(re: Program, last: nat, states: set<State>, input: seq<Byte>, log: seq<State?>,
                                        i: nat, m: nat, end: nat)
    requires Compiled(re, last) && re.init < |re.ecl| && LogOk(re, states, input, log)
    requires i <= end < |log| && m < |re.g.nodes| && m in After(re, input[..end])
    ensures end <= |input| && Keep(re, input, log, i, m, end) == Target(re, input, i, m, end)
    decreases end - i
  {
    LogOkIsClosed(re, last, states, input, log);
    hide LogOk, After, Compiled, Keep, Target, LogClosed;
    if i == end {
      KeepAtEnd(re, last, states, input, log, m, end);
      TargetAtEnd(re, last, input, m, end);
    } else {
      KeepIsTarget(re, last, states, input, log, i + 1, m, end);
      KeepBefore(re, last, states, input, log, i, m, end);
      TargetBefore(re, last, input, i, m, end);
    }
  }

  /** Everything from `i` on is exact. */
  ghost predicate SiftedFrom(re: Program, states: set<State>, input: seq<Byte>, log: seq<State?>, m: nat, end: nat,
                             sifted: seq<State?>, i: nat)
    requires end < |log| <= |input| + 1
  {
    |sifted| == end + 1 && forall k :: i <= k <= end ==> Holds(states, sifted[k], Keep(re, input, log, k, m, end))
  }

  /** Every entry holds the nodes the simulation reaches there from which `m` at `end`
      is reachable by the text in between. */
  ghost predicate SiftedExactly(re: Program, states: set<State>, input: seq<Byte>, m: nat, end: nat,
                                sifted: seq<State?>)
    requires re.init < |re.ecl| && end <= |input|
  {
    |sifted| == end + 1 && forall k :: 0 <= k <= end ==> Holds(states, sifted[k], Target(re, input, k, m, end))
  }

  lemma {:induction false} SiftEnd(re: Program, last: nat, states: set<State>, states': set<State>, input: seq<Byte>,
                                   log: seq<State?>, m: nat, end: nat, sifted: seq<State?>)
    requires Compiled(re, last) && LogClosed(re, states, input, log) && end < |log| && m < |re.g.nodes|
    requires m in NodesOf(log[end]) && |sifted| == end + 1
    requires Holds(states', sifted[end], EpsInto(re, NodesOf(log[end]), {m}))
    ensures SiftedFrom(re, states', input, log, m, end, sifted, end)
  {
    KeepAtEnd(re, last, states, input, log, m, end);
  }

  /** One step of the backward loop. */
  lemma {:induction false} SiftStep(re: Program, last: nat, states: set<State>, states': set<State>, input: seq<Byte>,
                                    log: seq<State?>, m: nat, end: nat, sifted: seq<State?>, i: nat, s: State?)
    requires Compiled(re, last) && LogClosed(re, states, input, log) && i < end < |log|
    requires SiftedFrom(re, states, input, log, m, end, sifted, i + 1) && states <= states'
    requires Holds(states', s, Survivors(re, NodesOf(log[i]), input[i], NodesOf(sifted[i + 1])))
    ensures SiftedFrom(re, states', input, log, m, end, sifted[i := s], i)
  {
    LogEntries(re, states, input, log);
    hide Compiled, LogClosed, Keep, Survivors;
    KeepBefore(re, last, states, input, log, i, m, end);
    assert NodesOf(sifted[i + 1]) == Keep(re, input, log, i + 1, m, end);
  }

  /** The body of the backward loop: the sifted state of one position. */
  method SiftPosition(d: Dfa, cur: State?, ch: Byte, next: State?, curDest: NodeSet) returns (s: State?)
    requires d.Valid() && d.re.hasInv && (cur != null ==> cur in d.states) && curDest.Valid()
    modifies d`stateTable, d`states, d.states`inveclosure, curDest, curDest.elems
    ensures d.Valid() && old(d.states) <= d.states && fresh(d.states - old(d.states))
    ensures curDest.Valid() && (curDest.elems == old(curDest.elems) || fresh(curDest.elems))
    ensures Holds(d.states, s, Survivors(d.re, NodesOf(cur), ch, NodesOf(next)))
  {
    hide Increasing, EpsInto, Feeds, Compiled, Registered, TableOk, CacheOk, Holds;
    curDest.nelem := 0;
    NoSources(d.re);
    assert curDest.Items() == [];
    if cur != null {
      BuildSiftedStates(d, cur, ch, next, curDest);
    }
    assert Elems(curDest.Items()) == Feeders(d.re, NodesOf(cur), ch, NodesOf(next));
    s := UpdateCurSiftedState(d, cur, curDest);
  }

  /** The loop body writes the entry of position `i`. */
  method SiftBelow(d: Dfa, input: seq<Byte>, log: seq<State?>, ghost m: nat, end: nat, sifted: array<State?>, i: nat,
                   curDest: NodeSet)
    requires d.Valid() && d.re.hasInv && LogClosed(d.re, d.states, input, log) && curDest.Valid() && i < end < |log|
    requires end < |log| <= |input| + 1 && SiftedFrom(d.re, d.states, input, log, m, end, sifted[..], i + 1)
    modifies d`stateTable, d`states, d.states`inveclosure, curDest, curDest.elems, sifted
    ensures d.Valid() && old(d.states) <= d.states && fresh(d.states - old(d.states))
    ensures curDest.Valid() && (curDest.elems == old(curDest.elems) || fresh(curDest.elems))
    ensures LogClosed(d.re, d.states, input, log) && SiftedFrom(d.re, d.states, input, log, m, end, sifted[..], i)
  {
    hide LogClosed, SiftedFrom, Holds, Survivors, Compiled, Dfa.Valid, NodesOf, NodeSet.Valid;
    LogEntries(d.re, d.states, input, log);
    SiftedLength(d.re, d.states, input, log, m, end, sifted[..], i + 1);
    ValidDfa(d);
    ghost var states1, sifted1 := d.states, sifted[..];
    var s := SiftPosition(d, log[i], input[i], sifted[i + 1], curDest);
    SiftStep(d.re, d.last, states1, d.states, input, log, m, end, sifted1, i, s);
    LogGrows(d.re, states1, d.states, input, log);
    assert sifted[..] == sifted1;
    sifted[i] := s;
    assert sifted[..] == sifted1[i := s];
  }

  lemma {:induction false} ValidDfa(d: Dfa)
    requires d.Valid()
    ensures Compiled(d.re, d.last)
  {
  }

  lemma {:induction false} SiftedLength(re: Program, states: set<State>, input: seq<Byte>, log: seq<State?>, m: nat,
                                        end: nat, sifted: seq<State?>, i: nat)
    requires end < |log| <= |input| + 1 && SiftedFrom(re, states, input, log, m, end, sifted, i)
    ensures |sifted| == end + 1
  {
  }

  /** The sifted state of the last position: what leads to the final node. */
  method SiftLast(d: Dfa, cur: State, lastNode: nat) returns (s: State?, curDest: NodeSet)
    requires d.Valid() && d.re.hasInv && cur in d.states && lastNode in cur.nodes
    modifies d`stateTable, d`states, d.states`inveclosure
    ensures d.Valid() && old(d.states) <= d.states && fresh(d.states - old(d.states))
    ensures curDest.Valid() && fresh(curDest) && fresh(curDest.elems)
    ensures Holds(d.states, s, EpsInto(d.re, NodesOf(cur), {lastNode}))
  {
    hide Increasing, EpsInto, Feeds, Compiled, Registered, TableOk, CacheOk, Holds;
    LastInRange(d, cur, lastNode);
    curDest := new NodeSet.Alloc(1);
    NoSources(d.re);
    assert curDest.Items() == [];
    curDest.InsertLast(lastNode);
    assert Elems(curDest.Items()) == {lastNode};
    s := UpdateCurSiftedState(d, cur, curDest);
  }

  /** sift_states_backward, on any closed log. An empty entry of the result ends the
      loop, and the rest is filled with NULL. */
  method SiftStatesBackward(d: Dfa, input: seq<Byte>, log: seq<State?>, lastNode: nat, end: nat)
    returns (result: seq<State?>)
    requires d.Valid() && d.re.hasInv && LogClosed(d.re, d.states, input, log)
    requires end < |log| && log[end] != null && lastNode in log[end].nodes
    modifies d`stateTable, d`states, d.states`inveclosure
    ensures d.Valid() && old(d.states) <= d.states && fresh(d.states - old(d.states))
    ensures SiftedFrom(d.re, d.states, input, log, lastNode, end, result, 0)
  {
    hide LogClosed, SiftedFrom, Holds, EpsInto, Compiled, Dfa.Valid, NodesOf, NodeSet.Valid;
    LogEntries(d.re, d.states, input, log);
    LastInRange(d, log[end], lastNode);
    ValidDfa(d);
    ghost var states0 := d.states;
    var sifted := new State?[end + 1](_ => null);
    var s, curDest := SiftLast(d, log[end], lastNode);
    sifted[end] := s;
    SiftEnd(d.re, d.last, states0, d.states, input, log, lastNode, end, sifted[..]);
    LogGrows(d.re, states0, d.states, input, log);
    var strIdx, nullCnt := end, 0;
    while strIdx > 0
      invariant 0 <= strIdx <= end
      invariant d.Valid() && old(d.states) <= d.states && fresh(d.states - old(d.states))
      invariant LogClosed(d.re, d.states, input, log)
      invariant curDest.Valid() && fresh(curDest.elems)
      invariant SiftedFrom(d.re, d.states, input, log, lastNode, end, sifted[..], strIdx)
    {
      nullCnt := if sifted[strIdx] == null then nullCnt + 1 else 0;
      if nullCnt > 0 {
        ZeroFill(d.re, d.last, d.states, input, log, lastNode, end, sifted, strIdx);
        return sifted[..];
      }
      strIdx := strIdx - 1;
      SiftBelow(d, input, log, lastNode, end, sifted, strIdx, curDest);
    }
    result := sifted[..];
  }

  lemma {:induction false} LastInRange(d: Dfa, s: State, m: nat)
    requires d.Valid() && s in d.states && m in s.nodes
    ensures m < |d.re.g.nodes| && m in NodesOf(s)
  {
    d.StateFacts(s);
  }

  lemma {:induction false} LogEntries(re: Program, states: set<State>, input: seq<Byte>, log: seq<State?>)
    requires LogClosed(re, states, input, log)
    ensures 0 < |log| <= |input| + 1
    ensures forall i :: 0 <= i < |log| && log[i] != null ==> log[i] in states
  {
  }

  lemma {:induction false} LogGrows(re: Program, states: set<State>, states': set<State>, input: seq<Byte>,
                                    log: seq<State?>)
    requires LogClosed(re, states, input, log) && states <= states'
    ensures LogClosed(re, states', input, log)
  {
  }

  /** memset of the entries below `i`. */
  method ZeroFill(re: Program, ghost last: nat, ghost states: set<State>, ghost input: seq<Byte>,
                  ghost log: seq<State?>, ghost m: nat, ghost end: nat, sifted: array<State?>, i: nat)
    requires Compiled(re, last) && LogClosed(re, states, input, log) && i <= end < |log|
    requires SiftedFrom(re, states, input, log, m, end, sifted[..], i) && sifted[..][i] == null
    modifies sifted
    ensures SiftedFrom(re, states, input, log, m, end, sifted[..], 0)
  {
    LogEntries(re, states, input, log);
    hide Compiled, LogClosed, Keep;
    ghost var before := sifted[..];
    assert Holds(states, before[i], Keep(re, input, log, i, m, end));
    forall k | 0 <= k < i {
      sifted[k] := null;
    }
    forall k | 0 <= k <= end ensures Holds(states, sifted[..][k], Keep(re, input, log, k, m, end)) {
      if k < i {
        KeepEmptyBelow(re, last, states, input, log, i, m, end, k);
      } else {
        assert sifted[..][k] == before[k];
      }
    }
  }

  /** check_halt_state_context without constraints: the END_OF_RE node of a halt state. */
  method CheckHaltState(d: Dfa, state: State) returns (node: nat)
    requires d.Valid() && state in d.states && state.halt
    ensures node == d.last && node in state.nodes
  {
    d.StateFacts(state);
    HaltMeansLast(d.re, d.last, state.nodes);
    node := 0;
    for i := 0 to |state.nodes|
      invariant forall k :: 0 <= k < i ==> state.nodes[k] != d.last
    {
      assert N.Closed1(d.re.g, state.nodes[i], d.last);
      if d.re.g.nodes[state.nodes[i]] == EndOfRe {
        return state.nodes[i];
      }
    }
    assert false;
  }

  /** prune_impossible_nodes without back-references. A match that check_matching
      found is never rejected here. */
  method PruneImpossibleNodes(d: Dfa, input: seq<Byte>, log: seq<State?>, matchLast: nat)
    returns (ok: bool, pruned: seq<State?>)
    requires d.Valid() && d.re.hasInv && d.re.init < |d.re.ecl| && LogOk(d.re, d.states, input, log)
    requires matchLast < |log| && Halts(d.re, d.last, input[..matchLast])
    modifies d`stateTable, d`states, d.states`inveclosure
    ensures d.Valid() && old(d.states) <= d.states && fresh(d.states - old(d.states))
    ensures ok && SiftedExactly(d.re, d.states, input, d.last, matchLast, pruned)
  {
    var pstate := log[matchLast];
    assert At(d.re, pstate, input[..matchLast]);
    hide LogOk, At, Compiled, Target, After, Dfa.Valid;
    InitInRange(d);
    TargetNotEmpty(d.re, d.last, input, 0, d.last, matchLast);
    HaltFlag(d, pstate, input[..matchLast]);
    LogOkIsClosed(d.re, d.last, d.states, input, log);
    var haltNode := CheckHaltState(d, pstate);
    ghost var states := d.states;
    LastInRange(d, pstate, haltNode);
    hide LogClosed, Halts;
    pruned := SiftStatesBackward(d, input, log, haltNode, matchLast);
    SiftedInText(d.re, d.last, states, d.states, input, log, d.last, matchLast, pruned);
    ok := pruned[0] != null;
  }

  lemma {:induction false} SiftedInText(re: Program, last: nat, states: set<State>, states': set<State>,
                                        input: seq<Byte>, log: seq<State?>, m: nat, end: nat, sifted: seq<State?>)
    requires Compiled(re, last) && re.init < |re.ecl| && LogOk(re, states, input, log) && end < |log|
    requires m < |re.g.nodes| && m in After(re, input[..end]) && SiftedFrom(re, states', input, log, m, end, sifted, 0)
    ensures end <= |input| && SiftedExactly(re, states', input, m, end, sifted)
    ensures Target(re, input, 0, m, end) != {} ==> sifted[0] != null
  {
    hide Compiled, LogOk, Target, After, Keep;
    LogOkIsClosed(re, last, states, input, log);
    forall k | 0 <= k <= end ensures Holds(states', sifted[k], Target(re, input, k, m, end)) {
      KeepIsTarget(re, last, states, input, log, k, m, end);
    }
  }
}
