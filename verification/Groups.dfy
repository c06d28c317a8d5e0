/** Grouping the nodes of a state by the bytes they accept
    (group_nodes_into_DFAstates of src/regex/regexec.c). */
module Groups {
  import opened Language
  import opened NodeSets

  ghost function AcceptSet(syn: Syntax, t: Token): set<Byte> {
    set c: Byte | 0 <= c < 256 && Accepts(syn, t, c)
  }

  /** `c` is an index of a table of SBC_MAX entries. */
  predicate IsIndex(c: Byte) {
    c < 256
  }

  /** Enumerate the bytes a node accepts, by type. */
  function AcceptBits(syn: Syntax, t: Token): (r: set<Byte>)
    ensures r == AcceptSet(syn, t)
  {
    match t
    case Character(c) => {c}
    case SimpleBracket(s) => s
    case Period =>
      var all := set c: Byte | 0 <= c < 256 && IsIndex(c);
      var noNewline := if !syn.dotNewline then all - {NEWLINE} else all;
      if syn.dotNotNull then noNewline - {NUL} else noNewline
    case _ => {}
  }

  /** The nodes of `p` that accept `c`, in order. */
  ghost function Takers(syn: Syntax, nodes: seq<Token>, p: seq<nat>, c: Byte): (r: seq<nat>)
    requires forall n :: n in p ==> n < |nodes|
    ensures forall n :: n in r <==> n in p && Accepts(syn, nodes[n], c)
  {
    if p == [] then []
    else
      var n := p[|p| - 1];
      assert n in p;
      var q := p[..|p| - 1];
      assert p == q + [n];
      assert forall x :: x in q ==> x in p;
      var r := Takers(syn, nodes, q, c);
      if Accepts(syn, nodes[n], c) then r + [n] else r
  }

  ghost function All(dc: seq<set<Byte>>): set<Byte> {
    if dc == [] then {} else All(dc[..|dc| - 1]) + dc[|dc| - 1]
  }

  ghost predicate Separate(dc: seq<set<Byte>>) {
    && (forall i :: 0 <= i < |dc| ==> dc[i] != {})
    && (forall i, j :: 0 <= i < j < |dc| ==> dc[i] !! dc[j])
  }

  /** The classes are disjoint and not empty, together they hold every accepted
      byte, and the nodes of a class are the takers of each of its bytes. */
  ghost predicate Partition(syn: Syntax, nodes: seq<Token>, p: seq<nat>, dn: seq<seq<nat>>, dc: seq<set<Byte>>) {
    && (forall n :: n in p ==> n < |nodes|)
    && |dn| == |dc| && Separate(dc)
    && (forall k, c :: 0 <= k < |dc| && c in dc[k] ==> dn[k] == Takers(syn, nodes, p, c))
    && (forall c: Byte :: c in All(dc) <==> Takers(syn, nodes, p, c) != [])
  }

  lemma {:induction false} AllHas(dc: seq<set<Byte>>, c: Byte)
    ensures c in All(dc) <==> exists k :: 0 <= k < |dc| && c in dc[k]
  {
    if dc != [] {
      AllHas(dc[..|dc| - 1], c);
    }
  }

  lemma {:induction false} SeparateCount(dc: seq<set<Byte>>)
    requires Separate(dc)
    ensures |dc| <= |All(dc)|
  {
    if dc != [] {
      var init, last := dc[..|dc| - 1], dc[|dc| - 1];
      SeparateCount(init);
      forall c | c in All(init) ensures c !in last {
        AllHas(init, c);
      }
      assert |All(init) + last| == |All(init)| + |last|;
    }
  }

  lemma {:induction false} ByteCount(s: set<Byte>, n: nat)
    requires forall c :: c in s ==> c < n
    ensures |s| <= n
  {
    if n == 0 {
      assert s == {};
    } else {
      ByteCount(s - {n - 1}, n - 1);
    }
  }

  /** The arrays of SBC_MAX entries are large enough. */
  lemma {:induction false} AtMost256(dc: seq<set<Byte>>)
    requires Separate(dc)
    ensures |dc| <= 256
  {
    SeparateCount(dc);
    ByteCount(All(dc), 256);
  }

  /** Where the inner loop stands after `j` classes: those before `j` have
      received `n` exactly if they lie in its bytes `a`. */
  ghost predicate Splitting(syn: Syntax, nodes: seq<Token>, p: seq<nat>, n: nat, a: set<Byte>,
                            dn: seq<seq<nat>>, dc: seq<set<Byte>>, j: nat, accepts: set<Byte>) {
    && (forall x :: x in p ==> x < |nodes|) && n < |nodes|
    && |dn| == |dc| && j <= |dc| && Separate(dc)
    && (forall k, c :: 0 <= k < |dc| && c in dc[k] ==>
          dn[k] == Takers(syn, nodes, p, c) + (if k < j && c in a then [n] else []))
    && (forall c: Byte :: c in All(dc) <==> Takers(syn, nodes, p, c) != [])
    && (forall c: Byte :: c in accepts <==> c in a && forall k :: 0 <= k < j ==> c !in dc[k])
  }

  lemma {:induction false} AllAppend(dc: seq<set<Byte>>, s: set<Byte>)
    ensures All(dc + [s]) == All(dc) + s
  {
    assert (dc + [s])[..|dc|] == dc;
  }

  lemma {:induction false} AllSplit(dc: seq<set<Byte>>, j: nat, inter: set<Byte>, remains: set<Byte>)
    requires j < |dc| && dc[j] == inter + remains
    ensures All(dc[j := inter] + [remains]) == All(dc)
  {
    var dc' := dc[j := inter] + [remains];
    forall c: Byte ensures c in All(dc') <==> c in All(dc) {
      AllHas(dc, c);
      AllHas(dc', c);
      if c in All(dc) {
        var k :| 0 <= k < |dc| && c in dc[k];
        assert k == j || c in dc'[k];
        assert k == j ==> c in dc'[j] || c in dc'[|dc|];
      }
      if c in All(dc') {
        var k :| 0 <= k < |dc'| && c in dc'[k];
        assert c in dc[if k == |dc| then j else k];
      }
    }
  }

  /** A class that shares no byte with the node is passed over. */
  lemma {:induction false} SkipClass(syn: Syntax, nodes: seq<Token>, p: seq<nat>, n: nat, a: set<Byte>,
                                     dn: seq<seq<nat>>, dc: seq<set<Byte>>, j: nat, accepts: set<Byte>)
    requires Splitting(syn, nodes, p, n, a, dn, dc, j, accepts) && j < |dc| && accepts * dc[j] == {}
    ensures Splitting(syn, nodes, p, n, a, dn, dc, j + 1, accepts)
  {
    Untouched(syn, nodes, p, n, a, dn, dc, j, accepts);
    forall c | c in dc[j] ensures c !in a {
      assert c !in accepts * dc[j] && (c in accepts <==> c in a);
    }
  }

  /** Classes are disjoint, so the bytes of class `j` have not been consumed yet. */
  lemma {:induction false} Untouched(syn: Syntax, nodes: seq<Token>, p: seq<nat>, n: nat, a: set<Byte>,
                                     dn: seq<seq<nat>>, dc: seq<set<Byte>>, j: nat, accepts: set<Byte>)
    requires Splitting(syn, nodes, p, n, a, dn, dc, j, accepts) && j < |dc|
    ensures forall c :: c in dc[j] ==> (c in accepts <==> c in a)
  {
  }

  /** A class that shares bytes with the node keeps the shared ones and takes the
      node; what remains of it, if anything, becomes a new class. */
  lemma {:induction false} SplitClass(syn: Syntax, nodes: seq<Token>, p: seq<nat>, n: nat, a: set<Byte>,
                                      dn: seq<seq<nat>>, dc: seq<set<Byte>>, j: nat, accepts: set<Byte>,
                                      dn': seq<seq<nat>>, dc': seq<set<Byte>>)
    requires Splitting(syn, nodes, p, n, a, dn, dc, j, accepts) && j < |dc| && accepts * dc[j] != {}
    requires var remains := dc[j] - accepts;
             if remains != {} then
               dc' == dc[j := accepts * dc[j]] + [remains] && dn' == dn[j := dn[j] + [n]] + [dn[j]]
             else dc' == dc && dn' == dn[j := dn[j] + [n]]
    ensures Splitting(syn, nodes, p, n, a, dn', dc', j + 1, accepts - dc[j])
  {
    Untouched(syn, nodes, p, n, a, dn, dc, j, accepts);
    var inter, remains := accepts * dc[j], dc[j] - accepts;
    assert dc[j] == inter + remains;
    if remains != {} {
      AllSplit(dc, j, inter, remains);
    } else {
      assert inter == dc[j];
    }
    forall k, c | 0 <= k < |dc'| && c in dc'[k]
      ensures dn'[k] == Takers(syn, nodes, p, c) + (if k < j + 1 && c in a then [n] else [])
    {
      if k == j {
        assert c in dc[j];
      } else if k == |dc| {
        assert c in dc[j];
      } else {
        assert c in dc[k];
      }
    }
    SplitConsumed(dc, j, dc', accepts, a);
  }

  lemma {:induction false} SplitConsumed(dc: seq<set<Byte>>, j: nat, dc': seq<set<Byte>>, accepts: set<Byte>,
                                         a: set<Byte>)
    requires j < |dc| <= |dc'|
    requires forall c: Byte :: c in accepts <==> c in a && forall k :: 0 <= k < j ==> c !in dc[k]
    requires dc'[..j] == dc[..j] && dc'[j] == accepts * dc[j]
    ensures forall c: Byte :: c in accepts - dc[j] <==> c in a && forall k :: 0 <= k < j + 1 ==> c !in dc'[k]
  {
    forall k | 0 <= k < j ensures dc'[k] == dc[k] {
      assert dc'[..j][k] == dc[..j][k];
    }
  }

  lemma {:induction false} TakersAppend(syn: Syntax, nodes: seq<Token>, p: seq<nat>, n: nat, c: Byte)
    requires n < |nodes| && forall x :: x in p ==> x < |nodes|
    ensures forall x :: x in p + [n] ==> x < |nodes|
    ensures Takers(syn, nodes, p + [n], c) ==
            Takers(syn, nodes, p, c) + (if Accepts(syn, nodes[n], c) then [n] else [])
  {
    assert (p + [n])[..|p|] == p;
  }

  lemma {:induction false} TakersIncreasing(syn: Syntax, nodes: seq<Token>, p: seq<nat>, c: Byte)
    requires Increasing(p) && forall x :: x in p ==> x < |nodes|
    ensures Increasing(Takers(syn, nodes, p, c))
    ensures Elems(Takers(syn, nodes, p, c)) <= Elems(p)
  {
    if p != [] {
      var q, n := p[..|p| - 1], p[|p| - 1];
      Unsnoc(p);
      assert p == q + [n];
      TakersIncreasing(syn, nodes, q, c);
      if Accepts(syn, nodes[n], c) {
        Snoc(Takers(syn, nodes, q, c), n);
      }
    }
  }

  /** The general insertion appends here: the walk goes upwards. */
  lemma {:induction false} InsertAtEnd(syn: Syntax, nodes: seq<Token>, p: seq<nat>, n: nat, a: set<Byte>,
                                       dn: seq<seq<nat>>, dc: seq<set<Byte>>, j: nat, accepts: set<Byte>)
    requires Splitting(syn, nodes, p, n, a, dn, dc, j, accepts) && j < |dc|
    requires Increasing(p) && forall x :: x in Elems(p) ==> x < n
    ensures Inserted(dn[j], n) == dn[j] + [n]
  {
    var c :| c in dc[j];
    assert dn[j] == Takers(syn, nodes, p, c);
    TakersIncreasing(syn, nodes, p, c);
    InsertedLast(dn[j], n);
  }

  lemma {:induction false} SplitStart(syn: Syntax, nodes: seq<Token>, p: seq<nat>, n: nat,
                                      dn: seq<seq<nat>>, dc: seq<set<Byte>>, a: set<Byte>)
    requires Partition(syn, nodes, p, dn, dc) && n < |nodes|
    ensures Splitting(syn, nodes, p, n, a, dn, dc, 0, a)
  {
  }

  /** All bytes of the node have found their class. */
  lemma {:induction false} SplitConsumedAll(syn: Syntax, nodes: seq<Token>, p: seq<nat>, n: nat, a: set<Byte>,
                                            dn: seq<seq<nat>>, dc: seq<set<Byte>>, j: nat)
    requires Splitting(syn, nodes, p, n, a, dn, dc, j, {}) && a == AcceptSet(syn, nodes[n])
    ensures Partition(syn, nodes, p + [n], dn, dc)
  {
    forall c: Byte
      ensures c in a <==> Accepts(syn, nodes[n], c)
      ensures forall k :: 0 <= k < |dc| && c in dc[k] ==> (k < j && c in a <==> c in a)
      ensures c in a ==> c in All(dc)
    {
      AllHas(dc, c);
      assert c !in {};
    }
    forall c: Byte ensures Takers(syn, nodes, p + [n], c) == Takers(syn, nodes, p, c) + (if c in a then [n] else []) {
      TakersAppend(syn, nodes, p, n, c);
    }
    assert forall x :: x in p + [n] ==> x < |nodes|;
  }

  /** Some bytes are left after the last class: they become a class of their own. */
  lemma {:induction false} SplitLeftOver(syn: Syntax, nodes: seq<Token>, p: seq<nat>, n: nat, a: set<Byte>,
                                         dn: seq<seq<nat>>, dc: seq<set<Byte>>, accepts: set<Byte>)
    requires Splitting(syn, nodes, p, n, a, dn, dc, |dc|, accepts) && accepts != {}
    requires a == AcceptSet(syn, nodes[n])
    ensures Partition(syn, nodes, p + [n], dn + [[n]], dc + [accepts])
  {
    var dn', dc' := dn + [[n]], dc + [accepts];
    AllAppend(dc, accepts);
    forall c: Byte
      ensures Takers(syn, nodes, p + [n], c) == Takers(syn, nodes, p, c) + (if c in a then [n] else [])
      ensures c in accepts ==> c !in All(dc) && Takers(syn, nodes, p, c) == []
      ensures c in a && c !in accepts ==> c in All(dc)
    {
      TakersAppend(syn, nodes, p, n, c);
      AllHas(dc, c);
    }
    forall k, c | 0 <= k < |dc'| && c in dc'[k] ensures dn'[k] == Takers(syn, nodes, p + [n], c) {
      if k < |dc| {
        assert c in dc[k];
      }
    }
    assert forall x :: x in p + [n] ==> x < |nodes|;
  }

  /** A node that consumes nothing joins no class. */
  lemma {:induction false} SkipNode(syn: Syntax, nodes: seq<Token>, p: seq<nat>, n: nat,
                                    dn: seq<seq<nat>>, dc: seq<set<Byte>>)
    requires Partition(syn, nodes, p, dn, dc) && n < |nodes| && !Consumes(nodes[n])
    ensures Partition(syn, nodes, p + [n], dn, dc)
  {
    forall c: Byte ensures Takers(syn, nodes, p + [n], c) == Takers(syn, nodes, p, c) {
      TakersAppend(syn, nodes, p, n, c);
    }
    assert forall x :: x in p + [n] ==> x < |nodes|;
  }

  /** Divide the bytes of node `n` among the classes. */
  method DivideNode(syn: Syntax, nodes: seq<Token>, ghost p: seq<nat>, n: nat, dn: seq<seq<nat>>, dc: seq<set<Byte>>)
    returns (dn': seq<seq<nat>>, dc': seq<set<Byte>>)
    requires Partition(syn, nodes, p, dn, dc) && n < |nodes|
    requires Increasing(p) && forall x :: x in Elems(p) ==> x < n
    requires AcceptSet(syn, nodes[n]) != {}
    ensures Partition(syn, nodes, p + [n], dn', dc')
  {
    hide Partition, Splitting, Separate, Takers, All, AcceptSet, Increasing, Elems, Inserted;
    dn', dc' := dn, dc;
    var accepts := AcceptBits(syn, nodes[n]);
    ghost var a := accepts;
    SplitStart(syn, nodes, p, n, dn, dc, a);
    var j := 0;
    SameLength(syn, nodes, p, n, a, dn', dc', j, accepts);
    while j < |dc'|
      invariant 0 <= j <= |dc'| == |dn'|
      invariant Splitting(syn, nodes, p, n, a, dn', dc', j, accepts) && accepts != {}
      decreases ByteLeft(accepts), |dc'| - j
    {
      ghost var dn0, dc0 := dn', dc';
      if nodes[n].Character? && nodes[n].c !in dc'[j] {
        OneByte(syn, nodes, p, n, a, dn', dc', j, accepts);
        SkipClass(syn, nodes, p, n, a, dn', dc', j, accepts);
        j := j + 1;
        continue;
      }
      var intersec := accepts * dc'[j];
      if intersec == {} {
        SkipClass(syn, nodes, p, n, a, dn', dc', j, accepts);
        j := j + 1;
        continue;
      }
      var remains := dc'[j] - accepts;
      ghost var accepts0 := accepts;
      InsertAtEnd(syn, nodes, p, n, a, dn', dc', j, accepts);
      accepts := accepts - dc'[j];
      if remains != {} {
        dc' := dc'[j := intersec] + [remains];
        dn' := dn' + [dn'[j]];
      }
      dn' := dn'[j := Inserted(dn'[j], n)];
      SplitClass(syn, nodes, p, n, a, dn0, dc0, j, accepts0, dn', dc');
      if accepts == {} {
        SplitConsumedAll(syn, nodes, p, n, a, dn', dc', j + 1);
        return;
      }
      j := j + 1;
    }
    SplitLeftOver(syn, nodes, p, n, a, dn', dc', accepts);
    dn', dc' := dn' + [[n]], dc' + [accepts];
  }

  ghost function ByteLeft(s: set<Byte>): nat {
    |s|
  }

  lemma {:induction false} SameLength(syn: Syntax, nodes: seq<Token>, p: seq<nat>, n: nat, a: set<Byte>,
                                      dn: seq<seq<nat>>, dc: seq<set<Byte>>, j: nat, accepts: set<Byte>)
    requires Splitting(syn, nodes, p, n, a, dn, dc, j, accepts)
    ensures |dn| == |dc|
  {
  }

  /** A CHARACTER node accepts one byte only. */
  lemma {:induction false} OneByte(syn: Syntax, nodes: seq<Token>, p: seq<nat>, n: nat, a: set<Byte>,
                                   dn: seq<seq<nat>>, dc: seq<set<Byte>>, j: nat, accepts: set<Byte>)
    requires Splitting(syn, nodes, p, n, a, dn, dc, j, accepts) && j < |dc|
    requires a == AcceptSet(syn, nodes[n]) && nodes[n].Character? && nodes[n].c !in dc[j]
    ensures accepts * dc[j] == {}
  {
    forall c | c in accepts ensures c == nodes[n].c {
      assert c in a;
    }
  }

  /** Every byte-consuming node accepts some byte, as the source assumes. */
  ghost predicate Hungry(syn: Syntax, nodes: seq<Token>) {
    forall q :: 0 <= q < |nodes| && Consumes(nodes[q]) ==> AcceptSet(syn, nodes[q]) != {}
  }

  method GroupNodes(syn: Syntax, nodes: seq<Token>, cur: seq<nat>) returns (dn: seq<seq<nat>>, dc: seq<set<Byte>>)
    requires Increasing(cur) && (forall n :: n in cur ==> n < |nodes|) && Hungry(syn, nodes)
    ensures Partition(syn, nodes, cur, dn, dc)
    ensures |dc| <= 256
  {
    hide Partition, Takers, All, AcceptSet;
    dn, dc := [], [];
    NoClasses(syn, nodes);
    assert cur[..0] == [];
    for i := 0 to |cur|
      invariant Partition(syn, nodes, cur[..i], dn, dc)
    {
      assert cur[..i + 1] == cur[..i] + [cur[i]] && cur[i] in cur;
      if Consumes(nodes[cur[i]]) {
        dn, dc := DivideNode(syn, nodes, cur[..i], cur[i], dn, dc);
      } else {
        SkipNode(syn, nodes, cur[..i], cur[i], dn, dc);
      }
    }
    assert cur[..|cur|] == cur;
    PartitionSize(syn, nodes, cur, dn, dc);
  }

  lemma {:induction false} NoClasses(syn: Syntax, nodes: seq<Token>)
    ensures Partition(syn, nodes, [], [], [])
  {
  }

  lemma {:induction false} PartitionSize(syn: Syntax, nodes: seq<Token>, p: seq<nat>, dn: seq<seq<nat>>,
                                         dc: seq<set<Byte>>)
    requires Partition(syn, nodes, p, dn, dc)
    ensures |dn| == |dc| <= 256
  {
    AtMost256(dc);
  }
}
