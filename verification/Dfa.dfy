/** The lazily built DFA: interned states and their transition tables
    (re_acquire_state, register_state of src/regex/regex_internal.c; transit_state,
    build_trtable of src/regex/regexec.c). */
module Dfa {
  import opened Language
  import opened NodeSets
  import opened Closure
  import opened Groups
  import N = Nfa

  /** The part of `re_dfa_t` that compilation fixes. */
  datatype Program = Program(syn: Syntax, g: N.Nfa, ecl: seq<seq<nat>>, inv: seq<seq<nat>>, hasInv: bool, init: nat)

  ghost predicate Compiled(re: Program, last: nat) {
    && N.Closed(re.g, last) && last < |re.g.nodes| && re.init < |re.g.nodes|
    && Eclosed(re.g, re.ecl) && Hungry(re.syn, re.g.nodes)
    && (re.hasInv ==> Inverse(re.g, re.inv))
  }

  ghost predicate NodesIn(re: Program, p: seq<nat>) {
    forall n :: n in p ==> n < |re.g.nodes|
  }

  /** The closures of the successors of `p`: what build_trtable merges for one
      destination. */
  ghost function Follow(re: Program, p: seq<nat>): set<nat> {
    set n, x | n in p && n < |re.g.nexts| && 0 <= re.g.nexts[n] < |re.ecl| && x in Elems(re.ecl[re.g.nexts[n]]) :: x
  }

  /** The node set transit_state_sb computes: the closures of the successors of
      the nodes that accept `ch`. */
  ghost function StepSet(re: Program, p: seq<nat>, ch: Byte): set<nat>
    requires NodesIn(re, p)
  {
    Follow(re, Takers(re.syn, re.g.nodes, p, ch))
  }

  lemma {:induction false} FollowAppend(re: Program, p: seq<nat>, n: nat)
    requires n < |re.g.nexts| && 0 <= re.g.nexts[n] < |re.ecl|
    ensures Follow(re, p + [n]) == Follow(re, p) + Elems(re.ecl[re.g.nexts[n]])
  {
  }

  function HashFrom(nodes: seq<nat>, hash: nat): nat {
    if nodes == [] then hash else HashFrom(nodes[1..], (hash + nodes[0]) % 0x1_0000_0000)
  }

  /** calc_state_hash in context 0, on a 32-bit re_hashval_t. */
  function Hash(nodes: seq<nat>): nat {
    HashFrom(nodes, |nodes| % 0x1_0000_0000)
  }

  function NonEpsilon(toks: seq<Token>, nodes: seq<nat>): (r: seq<nat>)
    requires forall n :: n in nodes ==> n < |toks|
    ensures forall n :: n in r <==> n in nodes && !IsEpsilon(toks[n])
  {
    if nodes == [] then []
    else
      assert nodes == [nodes[0]] + nodes[1..] && nodes[0] in nodes;
      assert forall n :: n in nodes[1..] ==> n in nodes;
      var rest := NonEpsilon(toks, nodes[1..]);
      if IsEpsilon(toks[nodes[0]]) then rest else [nodes[0]] + rest
  }

  /** `inveclosure` of a state: not computed yet, or the merged converse closures. */
  datatype Cache = Empty | Cached(elems: seq<nat>)

  class State {
    const nodes: seq<nat>
    const nonEps: seq<nat>
    const halt: bool
    const hash: nat
    /** Empty until build_trtable fills it. */
    var trtable: seq<State?>
    var inveclosure: Cache

    constructor (nodes: seq<nat>, nonEps: seq<nat>, halt: bool, hash: nat)
      ensures this.nodes == nodes && this.nonEps == nonEps && this.halt == halt && this.hash == hash
      ensures trtable == [] && inveclosure == Empty
    {
      this.nodes, this.nonEps, this.halt, this.hash := nodes, nonEps, halt, hash;
      trtable, inveclosure := [], Empty;
    }
  }

  /** The constant part of a state is right. */
  ghost predicate StateOk(re: Program, last: nat, s: State) {
    && s.nodes != [] && Increasing(s.nodes) && NodesIn(re, s.nodes)
    && s.nonEps == NonEpsilon(re.g.nodes, s.nodes)
    && (s.halt <==> last in s.nodes)
    && s.hash == Hash(s.nodes)
  }

  /** A table entry agrees with the simulation: NULL exactly when no node accepts
      the byte, otherwise the registered state of the successor set. */
  ghost predicate EntryOk(re: Program, states: set<State>, s: State, ch: Byte, t: State?)
    requires NodesIn(re, s.nodes)
  {
    if t == null then StepSet(re, s.nodes, ch) == {}
    else t in states && Elems(t.nodes) == StepSet(re, s.nodes, ch)
  }

  ghost predicate TableOk(re: Program, states: set<State>, s: State)
    reads s`trtable
    requires NodesIn(re, s.nodes)
  {
    s.trtable != [] ==> |s.trtable| == 256 && forall ch: Byte :: EntryOk(re, states, s, ch, s.trtable[ch])
  }

  ghost function Sources(re: Program, p: seq<nat>): set<nat> {
    set n, x | n in p && n < |re.inv| && x in Elems(re.inv[n]) :: x
  }

  ghost predicate CacheOk(re: Program, s: State)
    reads s`inveclosure
  {
    s.inveclosure.Cached? ==>
      Increasing(s.inveclosure.elems) && Elems(s.inveclosure.elems) == Sources(re, s.nodes)
  }

  /** Buckets and the set of states they hold; equal node sets mean one state. */
  ghost predicate Registered(re: Program, last: nat, table: seq<seq<State>>, states: set<State>) {
    && |table| > 0
    && (forall b, i :: 0 <= b < |table| && 0 <= i < |table[b]| ==> table[b][i] in states)
    && (forall s :: s in states ==> StateOk(re, last, s) && s in table[s.hash % |table|])
    && (forall s, t :: s in states && t in states && s.nodes == t.nodes ==> s == t)
  }

  /** The halt flag, as the creation loop finds it. */
  function HasEnd(toks: seq<Token>, nodes: seq<nat>): (r: bool)
    requires forall n :: n in nodes ==> n < |toks|
    ensures r <==> exists n :: n in nodes && toks[n] == EndOfRe
  {
    if nodes == [] then false
    else
      assert nodes == [nodes[0]] + nodes[1..] && nodes[0] in nodes;
      assert forall n :: n in nodes[1..] ==> n in nodes;
      toks[nodes[0]] == EndOfRe || HasEnd(toks, nodes[1..])
  }

  class Dfa {
    const re: Program
    ghost const last: nat
    var stateTable: seq<seq<State>>
    ghost var states: set<State>

    ghost predicate Valid()
      reads this, states`trtable, states`inveclosure
    {
      && Compiled(re, last) && Registered(re, last, stateTable, states)
      && forall s :: s in states ==> TableOk(re, states, s) && CacheOk(re, s)
    }

    constructor (re: Program, tableSize: nat, ghost last: nat)
      requires Compiled(re, last) && tableSize > 0
      ensures this.re == re && this.last == last && Valid() && states == {}
    {
      this.re := re;
      this.last := last;
      stateTable := seq(tableSize, i => []);
      states := {};
    }

    /** Find the state in its bucket. */
    method Lookup(nodes: seq<nat>, hash: nat) returns (s: State?)
      requires Registered(re, last, stateTable, states) && hash == Hash(nodes)
      ensures s != null ==> s in states && s.nodes == nodes
      ensures s == null ==> forall t :: t in states ==> t.nodes != nodes
    {
      var spot := stateTable[hash % |stateTable|];
      for i := 0 to |spot|
        invariant forall k :: 0 <= k < i ==> spot[k].nodes != nodes
      {
        if spot[i].hash == hash && spot[i].nodes == nodes {
          return spot[i];
        }
      }
      forall t | t in states ensures t.nodes != nodes {
        assert StateOk(re, last, t) && t in stateTable[t.hash % |stateTable|];
        assert t.nodes == nodes ==> t in spot;
      }
      return null;
    }

    /** re_acquire_state(_context): one state per node set, NULL for none. */
    method Acquire(nodes: seq<nat>) returns (s: State?)
      requires Valid() && Increasing(nodes) && NodesIn(re, nodes)
      modifies this`stateTable, this`states
      ensures Valid() && old(states) <= states && fresh(states - old(states))
      ensures if nodes == [] then s == null else s != null && s in states && s.nodes == nodes
    {
      if nodes == [] {
        return null;
      }
      var hash := Hash(nodes);
      s := Lookup(nodes, hash);
      if s == null {
        s := new State(nodes, NonEpsilon(re.g.nodes, nodes), HasEnd(re.g.nodes, nodes), hash);
        var spot := hash % |stateTable|;
        HaltMeansLast(re, last, nodes);
        AddState(re, last, stateTable, states, s);
        AddTables(re, states, s);
        hide Registered, TableOk, CacheOk;
        stateTable := stateTable[spot := stateTable[spot] + [s]];
        states := states + {s};
      }
    }

    /** Merge the closures of the successors of `p` into `follows`. */
    method MergeFollows(p: seq<nat>, follows: NodeSet)
      requires Compiled(re, last) && NodesIn(re, p) && forall n :: n in p ==> Consumes(re.g.nodes[n])
      modifies follows, follows.elems
      ensures follows.Valid() && (follows.elems == old(follows.elems) || fresh(follows.elems))
      ensures Elems(follows.Items()) == Follow(re, p)
    {
      hide Follow, Elems, Increasing, Compiled, N.Closed, Eclosed;
      follows.nelem := 0;
      EmptyFollow(re);
      assert follows.Items() == [] && p[..0] == [];
      for j := 0 to |p|
        invariant follows.Valid() && (follows.elems == old(follows.elems) || fresh(follows.elems))
        invariant Elems(follows.Items()) == Follow(re, p[..j])
      {
        assert p[..j + 1] == p[..j] + [p[j]] && p[j] in p;
        Successor(re, last, p[j]);
        FollowAppend(re, p[..j], p[j]);
        var nextNode := re.g.nexts[p[j]];
        if nextNode != -1 {
          follows.Merge(re.ecl[nextNode]);
        }
      }
      assert p[..|p|] == p;
    }

    /** The destination states of all classes. */
    method BuildDests(nodes: seq<nat>, dn: seq<seq<nat>>, dc: seq<set<Byte>>) returns (dests: seq<State>)
      requires Valid() && NodesIn(re, nodes) && Partition(re.syn, re.g.nodes, nodes, dn, dc)
      modifies this`stateTable, this`states
      ensures Valid() && old(states) <= states && fresh(states - old(states))
      ensures |dests| == |dn| == |dc|
      ensures forall k :: 0 <= k < |dests| ==> dests[k] in states && Elems(dests[k].nodes) == Follow(re, dn[k])
    {
      hide Partition, Follow, Elems, Increasing, Compiled, Registered, TableOk, CacheOk;
      dests := [];
      var follows := new NodeSet.Alloc(|dn| + 1);
      PartitionSize(re.syn, re.g.nodes, nodes, dn, dc);
      for i := 0 to |dn|
        invariant Valid() && old(states) <= states && fresh(states - old(states))
        invariant fresh(follows) && fresh(follows.elems)
        invariant |dests| == i
        invariant forall k :: 0 <= k < i ==> dests[k] in states && Elems(dests[k].nodes) == Follow(re, dn[k])
      {
        ClassNodes(re, nodes, dn, dc, i);
        MergeFollows(dn[i], follows);
        var f := follows.elems[..follows.nelem];
        FollowFacts(re, last, dn[i], f);
        var d := Acquire(f);
        dests := dests + [d];
      }
    }

    /** build_trtable. Without constraints the word and newline variants of a
        destination are the destination itself, so one table is built. */
    method BuildTrtable(state: State)
      requires Valid() && state in states
      modifies this`stateTable, this`states, state`trtable
      ensures Valid() && old(states) <= states && fresh(states - old(states))
      ensures state.trtable != []
    {
      hide Partition, Elems, Increasing, Compiled, EntryOk;
      StateFacts(state);
      var dn, dc := GroupNodes(re.syn, re.g.nodes, state.nodes);
      var dests := BuildDests(state.nodes, dn, dc);
      var table := FillTable(state, dn, dc, dests);
      state.trtable := table;
    }

    lemma StateFacts(state: State)
      requires Valid() && state in states
      ensures Compiled(re, last) && StateOk(re, last, state) && Hungry(re.syn, re.g.nodes)
    {
    }

    /** The loop over all bytes. */
    method FillTable(state: State, dn: seq<seq<nat>>, dc: seq<set<Byte>>, dests: seq<State>)
      returns (table: seq<State?>)
      requires NodesIn(re, state.nodes) && Partition(re.syn, re.g.nodes, state.nodes, dn, dc)
      requires |dests| == |dn| == |dc|
      requires forall k :: 0 <= k < |dests| ==> dests[k] in states && Elems(dests[k].nodes) == Follow(re, dn[k])
      ensures |table| == 256 && forall c: Byte :: EntryOk(re, states, state, c, table[c])
    {
      hide Partition, Elems, Follow, EntryOk;
      var trtable := new State?[256](_ => null);
      for ch := 0 to 256
        invariant forall c: Byte :: c < ch ==> EntryOk(re, states, state, c, trtable[c])
        invariant forall c: Byte :: c >= ch ==> trtable[c] == null
      {
        var j := ClassOf(dc, ch);
        EntryFacts(re, states, state, dn, dc, dests, ch, j);
        if j < |dc| {
          trtable[ch] := dests[j];
        }
      }
      table := trtable[..];
    }

    /** transit_state: read the table, building it first when there is none. */
    method TransitState(state: State, ch: Byte) returns (t: State?)
      requires Valid() && state in states
      modifies this`stateTable, this`states, state`trtable
      ensures Valid() && old(states) <= states && fresh(states - old(states))
      ensures NodesIn(re, state.nodes) && EntryOk(re, states, state, ch, t)
      ensures t == null <==> forall n :: n in state.nodes ==> !Accepts(re.syn, re.g.nodes[n], ch)
    {
      if state.trtable == [] {
        BuildTrtable(state);
      }
      StateFacts(state);
      assert TableOk(re, states, state);
      t := state.trtable[ch];
      NullMeansNone(this, state, ch, t);
    }

    /** The loop of transit_state_sb: scan the nodes and merge the closures of the
        successors of those that accept. */
    method Simulate(cur: seq<nat>, ch: Byte) returns (f: seq<nat>)
      requires Compiled(re, last) && NodesIn(re, cur)
      ensures Increasing(f) && NodesIn(re, f) && Elems(f) == StepSet(re, cur, ch)
      ensures f == [] <==> StepSet(re, cur, ch) == {}
    {
      hide Elems, Increasing, Compiled, Follow, Takers;
      var next := new NodeSet.Alloc(|cur| + 1);
      EmptyFollow(re);
      TakersNone(re, ch);
      assert next.Items() == [] && cur[..0] == [];
      for i := 0 to |cur|
        invariant next.Valid() && fresh(next) && fresh(next.elems)
        invariant NodesIn(re, cur[..i]) && Elems(next.Items()) == StepSet(re, cur[..i], ch)
      {
        assert cur[..i + 1] == cur[..i] + [cur[i]] && cur[i] in cur;
        TakersAppend(re.syn, re.g.nodes, cur[..i], cur[i], ch);
        if Accepts(re.syn, re.g.nodes[cur[i]], ch) {
          Successor(re, last, cur[i]);
          FollowAppend(re, Takers(re.syn, re.g.nodes, cur[..i], ch), cur[i]);
          next.Merge(re.ecl[re.g.nexts[cur[i]]]);
        } else {
          assert Takers(re.syn, re.g.nodes, cur[..i], ch) + [] == Takers(re.syn, re.g.nodes, cur[..i], ch);
        }
      }
      assert cur[..|cur|] == cur;
      f := next.elems[..next.nelem];
      StepNodesIn(re, last, cur, ch, f);
    }

    /** transit_state_sb, the simulation the table replaces. */
    method TransitStateSb(state: State, ch: Byte) returns (t: State?)
      requires Valid() && state in states
      modifies this`stateTable, this`states
      ensures Valid() && old(states) <= states && fresh(states - old(states))
      ensures NodesIn(re, state.nodes) && EntryOk(re, states, state, ch, t)
      ensures t == null <==> forall n :: n in state.nodes ==> !Accepts(re.syn, re.g.nodes[n], ch)
    {
      StateFacts(state);
      var f := Simulate(state.nodes, ch);
      t := Acquire(f);
      NullMeansNone(this, state, ch, t);
    }
  }

  /** Whatever two ways of stepping agree with the simulation, they yield the same
      state object: the table entry is the state transit_state_sb returns. */
  lemma {:induction false} SameEntry(d: Dfa, s: State, ch: Byte, t: State?, u: State?)
    requires d.Valid() && s in d.states && NodesIn(d.re, s.nodes)
    requires EntryOk(d.re, d.states, s, ch, t) && EntryOk(d.re, d.states, s, ch, u)
    ensures t == u
  {
    forall x: State | x in d.states ensures Increasing(x.nodes) && Elems(x.nodes) != {} {
      assert StateOk(d.re, d.last, x);
      NoElems(x.nodes);
    }
    if t != null && u != null {
      SameElemsSameSeq(t.nodes, u.nodes);
    }
  }

  /** A right entry is NULL exactly when no node of the state accepts the byte. */
  lemma {:induction false} NullMeansNone(d: Dfa, s: State, ch: Byte, t: State?)
    requires d.Valid() && s in d.states && NodesIn(d.re, s.nodes) && EntryOk(d.re, d.states, s, ch, t)
    ensures t == null <==> forall n :: n in s.nodes ==> !Accepts(d.re.syn, d.re.g.nodes[n], ch)
  {
    var takers := Takers(d.re.syn, d.re.g.nodes, s.nodes, ch);
    EmptyFollow(d.re);
    if takers != [] {
      var n := takers[0];
      assert n in takers;
      d.StateFacts(s);
      Successor(d.re, d.last, n);
      var x: nat := d.re.g.nexts[n];
      ReachesSelf(d.re.g, x, {});
      assert x in Elems(d.re.ecl[x]);
      assert x in Follow(d.re, takers);
    }
    if t != null {
      assert StateOk(d.re, d.last, t);
      NoElems(t.nodes);
    }
  }

  lemma {:induction false} TakersNone(re: Program, ch: Byte)
    ensures NodesIn(re, []) && Takers(re.syn, re.g.nodes, [], ch) == []
  {
  }

  lemma {:induction false} StepNodesIn(re: Program, last: nat, p: seq<nat>, ch: Byte, f: seq<nat>)
    requires Compiled(re, last) && NodesIn(re, p) && Elems(f) == StepSet(re, p, ch)
    ensures NodesIn(re, f) && (f == [] <==> StepSet(re, p, ch) == {})
  {
    NoElems(f);
    if f != [] {
      var takers := Takers(re.syn, re.g.nodes, p, ch);
      EmptyFollow(re);
      FollowFacts(re, last, takers, f);
    }
  }

  lemma {:induction false} EmptyFollow(re: Program)
    ensures Follow(re, []) == {} && Elems([]) == {} && Increasing([])
  {
  }

  /** A byte-consuming node has a successor whose closure is known. */
  lemma {:induction false} Successor(re: Program, last: nat, n: nat)
    requires Compiled(re, last) && n < |re.g.nodes| && Consumes(re.g.nodes[n])
    ensures n < |re.g.nexts| && 0 <= re.g.nexts[n] < |re.ecl| == |re.g.nodes| == |re.g.edests|
    ensures Exact(re.g, re.g.nexts[n], re.ecl[re.g.nexts[n]]) && Increasing(re.ecl[re.g.nexts[n]])
  {
    assert N.Closed1(re.g, n, last);
  }

  lemma {:induction false} ClassNodes(re: Program, nodes: seq<nat>, dn: seq<seq<nat>>, dc: seq<set<Byte>>, i: nat)
    requires NodesIn(re, nodes) && Partition(re.syn, re.g.nodes, nodes, dn, dc) && i < |dn|
    ensures dn[i] != [] && NodesIn(re, dn[i]) && forall n :: n in dn[i] ==> Consumes(re.g.nodes[n])
  {
    var c :| c in dc[i];
    assert dn[i] == Takers(re.syn, re.g.nodes, nodes, c);
    AllHas(dc, c);
  }

  lemma {:induction false} FollowFacts(re: Program, last: nat, p: seq<nat>, f: seq<nat>)
    requires Compiled(re, last) && NodesIn(re, p) && p != [] && forall n :: n in p ==> Consumes(re.g.nodes[n])
    requires Elems(f) == Follow(re, p)
    ensures f != [] && NodesIn(re, f)
  {
    var n := p[0];
    assert n in p;
    Successor(re, last, n);
    var x := re.g.nexts[n];
    ReachesSelf(re.g, x, {});
    assert x in Elems(re.ecl[x]);
    assert x in Follow(re, p);
    forall y | y in f ensures y < |re.g.nodes| {
      assert y in Elems(f);
      var m :| m in p && m < |re.g.nexts| && 0 <= re.g.nexts[m] < |re.ecl| && y in Elems(re.ecl[re.g.nexts[m]]);
      InRange(re.g, re.g.nexts[m], re.ecl[re.g.nexts[m]]);
    }
  }

  /** The class that holds a byte, searched from the first. */
  method ClassOf(dc: seq<set<Byte>>, ch: Byte) returns (j: nat)
    ensures j <= |dc| && (j < |dc| ==> ch in dc[j])
    ensures j == |dc| ==> ch !in All(dc)
  {
    j := 0;
    while j < |dc| && ch !in dc[j]
      invariant 0 <= j <= |dc| && forall k :: 0 <= k < j ==> ch !in dc[k]
    {
      j := j + 1;
    }
    AllHas(dc, ch);
  }

  lemma {:induction false} EntryFacts(re: Program, states: set<State>, s: State, dn: seq<seq<nat>>, dc: seq<set<Byte>>,
                                      dests: seq<State>, ch: Byte, j: nat)
    requires NodesIn(re, s.nodes) && Partition(re.syn, re.g.nodes, s.nodes, dn, dc)
    requires |dests| == |dn| == |dc| && j <= |dc|
    requires forall k :: 0 <= k < |dests| ==> dests[k] in states && Elems(dests[k].nodes) == Follow(re, dn[k])
    requires if j < |dc| then ch in dc[j] else ch !in All(dc)
    ensures EntryOk(re, states, s, ch, if j < |dc| then dests[j] else null)
  {
    if j < |dc| {
      assert dn[j] == Takers(re.syn, re.g.nodes, s.nodes, ch);
    } else {
      EmptyFollow(re);
    }
  }

  lemma {:induction false} HaltMeansLast(re: Program, last: nat, nodes: seq<nat>)
    requires Compiled(re, last) && NodesIn(re, nodes)
    ensures HasEnd(re.g.nodes, nodes) <==> last in nodes
  {
    assert N.Closed1(re.g, last, last);
    forall n | n in nodes ensures re.g.nodes[n] == EndOfRe <==> n == last {
      assert N.Closed1(re.g, n, last);
    }
  }

  lemma {:induction false} AddTables(re: Program, states: set<State>, s: State)
    requires forall t :: t in states ==> NodesIn(re, t.nodes) && TableOk(re, states, t) && CacheOk(re, t)
    requires NodesIn(re, s.nodes) && s.trtable == [] && CacheOk(re, s)
    ensures forall t :: t in states + {s} ==> NodesIn(re, t.nodes) && TableOk(re, states + {s}, t) && CacheOk(re, t)
  {
  }

  lemma {:induction false} AddState(re: Program, last: nat, table: seq<seq<State>>, states: set<State>, s: State)
    requires Registered(re, last, table, states) && StateOk(re, last, s)
    requires forall t :: t in states ==> t.nodes != s.nodes
    ensures var b := s.hash % |table|;
            Registered(re, last, table[b := table[b] + [s]], states + {s})
  {
    var b := s.hash % |table|;
    var table' := table[b := table[b] + [s]];
    forall t | t in states + {s} ensures t in table'[t.hash % |table'|] {
      if t == s {
        assert table'[b][|table[b]|] == s;
      } else {
        assert t in table[t.hash % |table|];
      }
    }
  }
}
