/** `analyze`: the three passes that turn the parse tree into an NFA
    (calc_first, calc_next and link_nfa_nodes of src/regex/regcomp.c). */
module NfaBuild {
  import opened Language
  import opened BinTrees
  import N = Nfa

  /** The tree with the node indices pass 1 has assigned. */
  ghost function Indexed(s: Shape): N.ITree
    reads Nodes(s)`nodeIdx
  {
    match s
    case Nil => N.ITree.Nil
    case Node(n, l, r) => N.ITree.Node(n.token, if n.nodeIdx < 0 then 0 else n.nodeIdx, Indexed(l), Indexed(r))
  }

  lemma {:induction false} EraseIndexed(s: Shape)
    ensures N.Erase(Indexed(s)) == Skeleton(s)
  {
    if s.Node? {
      EraseIndexed(s.left);
      EraseIndexed(s.right);
    }
  }

  /** What `parse` returns: the pattern's tree concatenated with END_OF_RE, or
      END_OF_RE alone for the empty pattern. */
  ghost predicate Pattern(s: Shape, body: Shape, end: BinTree) {
    && end.token == EndOfRe && WellFormed(Skeleton(body))
    && if body.Nil? then s == Shape.Node(end, Shape.Nil, Shape.Nil)
       else s.Node? && s.self.token == Concat && s.left == body
            && s.right == Shape.Node(end, Shape.Nil, Shape.Nil)
  }

  /** The number of children each token type has. */
  ghost predicate Arity(n: BinTree)
    reads n`left, n`right
  {
    match n.token
    case Concat => n.left != null && n.right != null
    case Star => n.left != null && n.right == null
    case Alt => true
    case _ => n.left == null && n.right == null
  }

  lemma {:induction false} ArityHolds(s: Shape, up: BinTree?)
    requires Holds(s, up) && WellFormed(Skeleton(s))
    ensures forall n :: n in Nodes(s) ==> Arity(n) && n.token != EndOfRe
  {
    if s.Node? {
      ArityHolds(s.left, s.self);
      ArityHolds(s.right, s.self);
    }
  }

  lemma {:induction false} PatternArity(s: Shape, body: Shape, end: BinTree)
    requires Holds(s, null) && Pattern(s, body, end)
    ensures forall n :: n in Nodes(s) ==> Arity(n) && (n.token == EndOfRe ==> n == end)
  {
    if s.self != end {
      ArityHolds(body, s.self);
      RootInNodes(body);
    }
  }

  ghost function Kids(n: BinTree): set<BinTree>
    reads n`left, n`right
  {
    (if n.left != null then {n.left} else {}) + (if n.right != null then {n.right} else {})
  }

  /** Pass 1 has treated `n`. */
  ghost predicate FirstDone(n: BinTree, nodes: seq<Token>, owner: seq<BinTree>)
    reads n`first, n`nodeIdx, n`left, n`right, Kids(n)`first, Kids(n)`nodeIdx
  {
    && n.first != null && 0 <= n.nodeIdx < |nodes| == |owner|
    && if n.token == Concat then n.left != null && n.first == n.left.first && n.nodeIdx == n.left.nodeIdx
       else n.first == n && nodes[n.nodeIdx] == n.token && owner[n.nodeIdx] == n
  }

  /** Pass 2 has treated `n`. */
  ghost predicate NextDone(n: BinTree)
    reads n`left, n`right, n`next, Kids(n)`next, Kids(n)`first
  {
    match n.token
    case Star => n.left != null && n.left.next == n
    case Concat => n.left != null && n.right != null && n.left.next == n.right.first && n.right.next == n.next
    case _ =>
      && (n.left != null ==> n.left.next == n.next)
      && (n.right != null ==> n.right.next == n.next)
  }

  /** Everything pass 3 dereferences is there. */
  ghost predicate Linkable(n: BinTree, all: set<BinTree>, count: nat)
    reads all
    requires n in all
  {
    && 0 <= n.nodeIdx < count && Kids(n) <= all
    && (n.token != Concat && n.token != EndOfRe ==> HasIndex(n.next, all, count))
    && (n.left != null ==> HasIndex(n.left.first, all, count))
    && (n.right != null ==> HasIndex(n.right.first, all, count))
  }

  ghost predicate HasIndex(n: BinTree?, all: set<BinTree>, count: nat)
    reads all
  {
    n != null && n in all && 0 <= n.nodeIdx < count
  }

  /** Pass 3 has treated `n`. */
  ghost predicate LinkDone(n: BinTree, all: set<BinTree>, nexts: seq<int>, edests: seq<seq<nat>>)
    reads all
    requires n in all && n.token != Concat && |nexts| == |edests| && Linkable(n, all, |nexts|)
  {
    var i := n.nodeIdx;
    if n.token == Star || n.token == Alt then
      edests[i] == N.Pair(if n.left != null then n.left.first.nodeIdx else n.next.nodeIdx,
                          if n.right != null then n.right.first.nodeIdx else n.next.nodeIdx)
    else if n.token == OpenSubexp || n.token == CloseSubexp then
      edests[i] == [n.next.nodeIdx]
    else if n.token == EndOfRe then
      edests[i] == []
    else
      edests[i] == [] && nexts[i] == n.next.nodeIdx
  }

  class DfaBuilder {
    var nodes: seq<Token>
    var nexts: seq<int>
    var edests: seq<seq<nat>>
    /** Which tree node asked for each NFA node. */
    ghost var owner: seq<BinTree>

    constructor ()
      ensures nodes == [] && nexts == [] && edests == [] && owner == []
    {
      nodes, nexts, edests, owner := [], [], [], [];
    }

    /** re_dfa_add_node. */
    method AddNode(token: Token, ghost treeNode: BinTree) returns (idx: nat)
      modifies this
      ensures idx == old(|nodes|)
      ensures nodes == old(nodes) + [token] && owner == old(owner) + [treeNode]
      ensures nexts == old(nexts) + [-1] && edests == old(edests) + [[]]
    {
      idx := |nodes|;
      nodes, nexts, edests := nodes + [token], nexts + [-1], edests + [[]];
      owner := owner + [treeNode];
    }

    method CalcFirst(node: BinTree)
      requires node.token == Concat ==> node.left != null
      modifies this, node`first, node`nodeIdx
      ensures node.token == Concat ==>
                && node.first == old(node.left.first) && node.nodeIdx == old(node.left.nodeIdx)
                && nodes == old(nodes) && nexts == old(nexts) && edests == old(edests) && owner == old(owner)
      ensures node.token != Concat ==>
                && node.first == node && node.nodeIdx == |old(nodes)|
                && nodes == old(nodes) + [node.token] && owner == old(owner) + [node]
                && nexts == old(nexts) + [-1] && edests == old(edests) + [[]]
    {
      if node.token == Concat {
        node.first, node.nodeIdx := node.left.first, node.left.nodeIdx;
      } else {
        node.first := node;
        var idx := AddNode(node.token, node);
        node.nodeIdx := idx;
      }
    }

    /** The NFA nodes so far are unlinked and belong to treated tree nodes. */
    ghost predicate Unlinked(done: set<BinTree>)
      reads this, done
    {
      && |nodes| == |nexts| == |edests| == |owner|
      && forall q :: 0 <= q < |nodes| ==>
           && nexts[q] == -1 && edests[q] == []
           && owner[q] in done && owner[q].nodeIdx == q && owner[q].token != Concat
    }

    method CalcFirstPass(root: BinTree, ghost s: Shape, ghost body: Shape, ghost end: BinTree)
      requires s.Node? && s.self == root && Holds(s, null) && Pattern(s, body, end)
      requires nodes == [] && nexts == [] && edests == [] && owner == []
      modifies this, Nodes(s)`first, Nodes(s)`nodeIdx
      ensures forall n :: n in Nodes(s) ==> FirstDone(n, nodes, owner)
      ensures Unlinked(Nodes(s))
    {
      hide PostReady, Holds, FirstDone, Unlinked;
      var visited := Postorder(root, s);
      PostIsReady(s, body, end);
      ghost var done: set<BinTree> := {};
      NoneLinked();
      for i := 0 to |visited|
        invariant PostReady(visited)
        invariant done == Members(visited[..i]) <= Nodes(s)
        invariant forall n :: n in done ==> FirstDone(n, nodes, owner)
        invariant Unlinked(done)
      {
        StepFacts(visited, i);
        FirstStep(visited[i], done);
        done := done + {visited[i]};
      }
      assert visited[..|visited|] == visited;
    }

    /** link_nfa_nodes on one node. */
    method LinkNode(node: BinTree, ghost all: set<BinTree>)
      requires node in all && Linkable(node, all, |nodes|) && |nexts| == |edests| == |nodes|
      modifies this`nexts, this`edests
      ensures |nexts| == |edests| == |nodes|
      ensures forall q :: 0 <= q < |nodes| && q != node.nodeIdx ==>
                nexts[q] == old(nexts)[q] && edests[q] == old(edests)[q]
      ensures node.token == Concat ==> nexts == old(nexts) && edests == old(edests)
      ensures node.token != Concat && old(edests)[node.nodeIdx] == [] ==> LinkDone(node, all, nexts, edests)
    {
      if node.token == Concat || node.token == EndOfRe {
        return;
      }
      var idx := node.nodeIdx;
      if node.token == Star || node.token == Alt {
        var left := if node.left != null then node.left.first.nodeIdx else node.next.nodeIdx;
        var right := if node.right != null then node.right.first.nodeIdx else node.next.nodeIdx;
        edests := edests[idx := N.Pair(left, right)];
      } else if node.token == OpenSubexp || node.token == CloseSubexp {
        edests := edests[idx := [node.next.nodeIdx]];
      } else {
        nexts := nexts[idx := node.next.nodeIdx];
      }
    }

    /** Where pass 3 stands: treated nodes are linked, the others untouched. */
    ghost predicate Linking(all: set<BinTree>, done: set<BinTree>)
      reads this, all
    {
      && |nodes| == |nexts| == |edests| == |owner|
      && (forall n :: n in all ==>
            Linkable(n, all, |nodes|) && (n.token != Concat ==> owner[n.nodeIdx] == n && nodes[n.nodeIdx] == n.token))
      && (forall n :: n in done ==> n in all && (n.token != Concat ==> LinkDone(n, all, nexts, edests)))
      && (forall q :: 0 <= q < |nodes| ==>
            && owner[q] in all && owner[q].nodeIdx == q && owner[q].token != Concat
            && (owner[q] !in done ==> nexts[q] == -1 && edests[q] == []))
    }

    method LinkStep(node: BinTree, ghost all: set<BinTree>, ghost done: set<BinTree>)
      requires Linking(all, done) && node in all && node !in done
      modifies this`nexts, this`edests
      ensures Linking(all, done + {node})
    {
      LinkNode(node, all);
    }

    method LinkPass(root: BinTree, ghost s: Shape)
      requires s.Node? && s.self == root && Holds(s, null) && Linking(Nodes(s), {})
      modifies this`nexts, this`edests
      ensures Linking(Nodes(s), Nodes(s))
    {
      hide Holds, Once, Linking;
      NodesAllocated(s);
      var visited := Preorder(root, s);
      WalkOnce(s, null);
      ghost var done: set<BinTree> := {};
      for i := 0 to |visited|
        invariant Linking(Nodes(s), done)
        invariant done == Members(visited[..i])
      {
        Advance(visited, i);
        LinkStep(visited[i], Nodes(s), done);
        done := done + {visited[i]};
      }
      assert visited[..|visited|] == visited;
    }

    lemma NoneLinked()
      requires nodes == [] && nexts == [] && edests == [] && owner == []
      ensures Unlinked({})
    {
    }

    method FirstStep(node: BinTree, ghost done: set<BinTree>)
      requires node !in done && (node.left != null ==> node.left in done)
      requires node.token == Concat ==> node.left != null
      requires forall n :: n in done ==> n.left != node && FirstDone(n, nodes, owner)
      requires Unlinked(done)
      modifies this, node`first, node`nodeIdx
      ensures forall n :: n in done + {node} ==> FirstDone(n, nodes, owner)
      ensures Unlinked(done + {node})
    {
      CalcFirst(node);
    }
  }

  /** All that pass 1 needs to know about the order it walks in. */
  ghost predicate PostReady(v: seq<BinTree>)
    reads Members(v)`left, Members(v)`right
  {
    Once(v) && ChildrenBefore(v) && forall n :: n in Members(v) ==> Arity(n)
  }

  lemma {:induction false} PostIsReady(s: Shape, body: Shape, end: BinTree)
    requires Holds(s, null) && Pattern(s, body, end)
    ensures PostReady(Post(s)) && Members(Post(s)) == Nodes(s)
  {
    WalkOnce(s, null);
    PostChildren(s, null);
    PatternArity(s, body, end);
  }

  lemma {:induction false} Advance(v: seq<BinTree>, i: nat)
    requires i < |v| && Once(v)
    ensures v[i] in Members(v) && v[i] !in Members(v[..i])
    ensures Members(v[..i + 1]) == Members(v[..i]) + {v[i]}
  {
    assert v[..i + 1] == v[..i] + [v[i]];
  }

  lemma {:induction false} StepFacts(v: seq<BinTree>, i: nat)
    requires i < |v| && PostReady(v)
    ensures v[i] in Members(v) && v[i] !in Members(v[..i])
    ensures Members(v[..i + 1]) == Members(v[..i]) + {v[i]}
    ensures v[i].token == Concat ==> v[i].left != null
    ensures v[i].left != null ==> v[i].left in Members(v[..i])
    ensures forall n :: n in Members(v[..i]) ==> n.left != v[i]
  {
    Advance(v, i);
    assert Arity(v[i]);
    forall n | n in Members(v[..i]) ensures n.left != v[i] {
      var j :| 0 <= j < i && v[j] == n;
      assert n.left == null || n.left in v[..j];
    }
  }

  /** All that pass 2 needs to know: parents first, and no shared children. */
  ghost predicate PreReady(v: seq<BinTree>)
    reads Members(v)`left, Members(v)`right, Members(v)`parent
  {
    && Once(v) && ChildrenAfter(v)
    && forall n :: n in Members(v) ==>
         && Arity(n)
         && (n.left != null ==> n.left in Members(v) && n.left.parent == n && n.left != n.right)
         && (n.right != null ==> n.right in Members(v) && n.right.parent == n)
  }

  lemma {:induction false} PreIsReady(s: Shape, body: Shape, end: BinTree)
    requires Holds(s, null) && Pattern(s, body, end)
    ensures PreReady(Pre(s)) && Members(Pre(s)) == Nodes(s)
  {
    WalkOnce(s, null);
    PreChildren(s, null);
    PatternArity(s, body, end);
    forall n | n in Nodes(s)
      ensures n.left != null ==> n.left in Nodes(s) && n.left.parent == n && n.left != n.right
      ensures n.right != null ==> n.right in Nodes(s) && n.right.parent == n
    {
      ChildInNodes(s, null, n);
    }
  }

  ghost predicate Child(c: BinTree?, n: BinTree)
    reads n`left, n`right
  {
    c != null && (c == n.left || c == n.right)
  }

  lemma {:induction false} PreStepFacts(v: seq<BinTree>, i: nat, root: BinTree)
    requires i < |v| && PreReady(v) && root.parent == null
    ensures v[i] in Members(v) && v[i] !in Members(v[..i])
    ensures Members(v[..i + 1]) == Members(v[..i]) + {v[i]}
    ensures Arity(v[i]) && v[i].left != v[i] && v[i].right != v[i]
    ensures v[i].left != null ==> v[i].left in Members(v) && v[i].left != v[i].right && v[i].left != root
    ensures v[i].right != null ==> v[i].right in Members(v) && v[i].right != root
    ensures forall n :: n in Members(v[..i]) ==>
              !Child(n, v[i]) && !Child(n.left, v[i]) && !Child(n.right, v[i])
  {
    Advance(v, i);
    forall n | n in Members(v[..i])
      ensures !Child(n, v[i]) && !Child(n.left, v[i]) && !Child(n.right, v[i])
    {
      var j :| 0 <= j < i && v[j] == n;
      assert v[j] in Members(v);
    }
  }

  method CalcNext(node: BinTree, ghost all: set<BinTree>)
    requires Arity(node)
    requires node.left != null ==> node.left in all && node.left != node.right
    requires node.right != null ==> node.right in all
    modifies all`next
    ensures forall n: BinTree :: n in all && !Child(n, node) ==> n.next == old(n.next)
    ensures node.left != node && node.right != node ==> NextDone(node)
  {
    if node.token == Star {
      node.left.next := node;
    } else if node.token == Concat {
      node.left.next := node.right.first;
      node.right.next := node.next;
    } else {
      if node.left != null {
        node.left.next := node.next;
      }
      if node.right != null {
        node.right.next := node.next;
      }
    }
  }

  method NextStep(node: BinTree, ghost done: set<BinTree>, ghost all: set<BinTree>)
    requires done <= all && node in all && Arity(node) && node.left != node && node.right != node
    requires node.left != null ==> node.left in all && node.left != node.right
    requires node.right != null ==> node.right in all
    requires forall n :: n in done ==>
               NextDone(n) && !Child(n, node) && !Child(n.left, node) && !Child(n.right, node)
    modifies all`next
    ensures forall n :: n in done + {node} ==> NextDone(n)
    ensures forall n: BinTree :: n in all && !Child(n, node) ==> n.next == old(n.next)
  {
    CalcNext(node, all);
  }

  method CalcNextPass(root: BinTree, ghost s: Shape, ghost body: Shape, ghost end: BinTree)
    requires s.Node? && s.self == root && Holds(s, null) && Pattern(s, body, end) && root.next == null
    modifies Nodes(s)`next
    ensures Holds(s, null) && root.next == null
    ensures forall n :: n in Nodes(s) ==> NextDone(n)
  {
    hide PreReady, Holds, NextDone, Arity;
    var visited := Preorder(root, s);
    PreIsReady(s, body, end);
    RootParent(s);
    ghost var done: set<BinTree> := {};
    for i := 0 to |visited|
      invariant PreReady(visited) && Holds(s, null)
      invariant root.next == null && root.parent == null
      invariant done == Members(visited[..i]) <= Nodes(s)
      invariant forall n :: n in done ==> NextDone(n)
    {
      PreStepFacts(visited, i, root);
      NextStep(visited[i], done, Nodes(s));
      done := done + {visited[i]};
    }
    assert visited[..|visited|] == visited;
  }

  lemma RootParent(s: Shape)
    requires Holds(s, null) && s.Node?
    ensures s.self.parent == null && s.self in Nodes(s)
  {
  }

  /** `first` of a subtree is a node of the subtree and carries its index. */
  lemma {:induction false} FirstIndex(s: Shape, up: BinTree?, nodes: seq<Token>, owner: seq<BinTree>)
    requires Holds(s, up) && s.Node?
    requires forall n :: n in Nodes(s) ==> FirstDone(n, nodes, owner)
    ensures s.self.first != null && s.self.first in Nodes(s) && s.self.first.nodeIdx == s.self.nodeIdx
  {
    assert FirstDone(s.self, nodes, owner);
    if s.self.token == Concat {
      FirstIndex(s.left, s.self, nodes, owner);
    }
  }

  ghost predicate Passed(s: Shape, all: set<BinTree>, nodes: seq<Token>, owner: seq<BinTree>)
    reads all
  {
    && Nodes(s) <= all
    && forall n :: n in Nodes(s) ==> Kids(n) <= all && Arity(n) && FirstDone(n, nodes, owner) && NextDone(n)
  }

  /** After passes 1 and 2 the links that pass 3 follows are set everywhere in a
      subtree whose own `next` is set. */
  lemma {:induction false} LinksSet(s: Shape, up: BinTree?, all: set<BinTree>, nodes: seq<Token>, owner: seq<BinTree>)
    requires Holds(s, up) && Passed(s, all, nodes, owner)
    requires s.Node? ==> HasIndex(s.self.next, all, |nodes|)
    ensures forall n :: n in Nodes(s) ==> HasIndex(n.next, all, |nodes|) && Linkable(n, all, |nodes|)
  {
    if s.Node? {
      var n := s.self;
      assert FirstDone(n, nodes, owner) && NextDone(n) && Arity(n);
      if s.left.Node? {
        RootInNodes(s.left);
        FirstIndex(s.left, n, nodes, owner);
        assert FirstDone(n.left, nodes, owner);
      }
      if s.right.Node? {
        RootInNodes(s.right);
        FirstIndex(s.right, n, nodes, owner);
        assert FirstDone(n.right, nodes, owner);
      }
      LinksSet(s.left, n, all, nodes, owner);
      LinksSet(s.right, n, all, nodes, owner);
    }
  }

  /** The local facts of the three passes add up to the wiring of the subtree. */
  lemma {:induction false} WiredUp(s: Shape, up: BinTree?, all: set<BinTree>, nodes: seq<Token>, owner: seq<BinTree>,
                                   g: N.Nfa)
    requires Holds(s, up) && s.Node? && WellFormed(Skeleton(s)) && Passed(s, all, nodes, owner)
    requires g.nodes == nodes && |nodes| == |g.nexts| == |g.edests|
    requires HasIndex(s.self.next, all, |nodes|)
    requires forall n :: n in Nodes(s) ==>
               Linkable(n, all, |nodes|) && (n.token != Concat ==> LinkDone(n, all, g.nexts, g.edests))
    ensures N.Wired(g, Indexed(s), s.self.next.nodeIdx)
  {
    var n, l, r := s.self, s.left, s.right;
    assert FirstDone(n, nodes, owner) && NextDone(n) && Arity(n);
    if l.Node? {
      RootInNodes(l);
      FirstIndex(l, n, nodes, owner);
      assert FirstDone(l.self, nodes, owner);
    }
    if r.Node? {
      RootInNodes(r);
      FirstIndex(r, n, nodes, owner);
      assert FirstDone(r.self, nodes, owner);
    }
    if l.Node? {
      WiredUp(l, n, all, nodes, owner, g);
    }
    if r.Node? {
      WiredUp(r, n, all, nodes, owner, g);
    }
  }

  /** What passes 1 and 2 leave is what pass 3 needs. */
  lemma {:induction false} ReadyToLink(b: DfaBuilder, s: Shape, body: Shape, end: BinTree)
    requires Holds(s, null) && Pattern(s, body, end) && s.self.next == null && b.Unlinked(Nodes(s))
    requires forall n :: n in Nodes(s) ==> FirstDone(n, b.nodes, b.owner) && NextDone(n)
    ensures b.Linking(Nodes(s), {})
    ensures Passed(body, Nodes(s), b.nodes, b.owner)
    ensures body.Node? ==> HasIndex(body.self.next, Nodes(s), |b.nodes|) && body.self.next.nodeIdx == end.nodeIdx
  {
    var all := Nodes(s);
    PatternArity(s, body, end);
    forall n | n in all ensures Kids(n) <= all {
      ChildInNodes(s, null, n);
    }
    assert end in all && FirstDone(end, b.nodes, b.owner);
    if body.Node? {
      RootInNodes(body);
      assert FirstDone(s.self, b.nodes, b.owner) && NextDone(s.self) && FirstDone(body.self, b.nodes, b.owner);
      FirstIndex(body, s.self, b.nodes, b.owner);
      LinksSet(body, s.self, all, b.nodes, b.owner);
    }
    forall n | n in all ensures Linkable(n, all, |b.nodes|) {
      assert n == end || n == s.self || n in Nodes(body);
    }
    forall n | n in all && n.token != Concat ensures b.owner[n.nodeIdx] == n && b.nodes[n.nodeIdx] == n.token {
      assert FirstDone(n, b.nodes, b.owner);
    }
  }

  /** Every NFA node carries the token of some tree node. */
  ghost predicate TokensFrom(nodes: seq<Token>, s: Shape) {
    forall q :: 0 <= q < |nodes| ==> exists n :: n in Nodes(s) && n.token == nodes[q]
  }

  /** What pass 3 leaves is a closed NFA. */
  lemma {:induction false} LinkedIsClosed(b: DfaBuilder, s: Shape, body: Shape, end: BinTree, g: N.Nfa)
    requires Holds(s, null) && Pattern(s, body, end) && b.Linking(Nodes(s), Nodes(s))
    requires g == N.Nfa(b.nodes, b.nexts, b.edests)
    ensures end in Nodes(s) && 0 <= end.nodeIdx && N.IsEnd(g, end.nodeIdx) && N.Closed(g, end.nodeIdx)
    ensures TokensFrom(g.nodes, s)
  {
    PatternArity(s, body, end);
    assert end in Nodes(s) && Linkable(end, Nodes(s), |b.nodes|);
    forall q | 0 <= q < |g.nodes|
      ensures N.Closed1(g, q, end.nodeIdx) && b.owner[q] in Nodes(s) && b.owner[q].token == g.nodes[q]
    {
      LinkedNode(b, Nodes(s), b.owner[q], g, end);
    }
  }

  lemma {:induction false} LinkedNode(b: DfaBuilder, all: set<BinTree>, n: BinTree, g: N.Nfa, end: BinTree)
    requires b.Linking(all, all) && n in all && n.token != Concat && Arity(n) && end in all
    requires n.token == EndOfRe <==> n == end
    requires g == N.Nfa(b.nodes, b.nexts, b.edests)
    ensures 0 <= n.nodeIdx < |g.nodes| == |g.nexts| == |g.edests|
    ensures end.token == EndOfRe ==> 0 <= end.nodeIdx && N.Closed1(g, n.nodeIdx, end.nodeIdx)
  {
    assert Linkable(n, all, |b.nodes|) && LinkDone(n, all, b.nexts, b.edests);
  }

  /** The state between pass 2 and pass 3. */
  ghost predicate Prepared(b: DfaBuilder, s: Shape, body: Shape, end: BinTree)
    reads b`nodes, b`owner, Nodes(s)
  {
    && Holds(s, null) && Pattern(s, body, end) && Passed(body, Nodes(s), b.nodes, b.owner) && end in Nodes(s)
    && FirstDone(s.self, b.nodes, b.owner)
    && (body.Node? ==> HasIndex(body.self.next, Nodes(s), |b.nodes|) && body.self.next.nodeIdx == end.nodeIdx)
  }

  method FirstTwoPasses(b: DfaBuilder, root: BinTree, ghost s: Shape, ghost body: Shape, ghost end: BinTree)
    requires s.Node? && s.self == root && Holds(s, null) && Pattern(s, body, end) && root.next == null
    requires b.nodes == [] && b.nexts == [] && b.edests == [] && b.owner == []
    modifies b, Nodes(s)`first, Nodes(s)`nodeIdx, Nodes(s)`next
    ensures b.Linking(Nodes(s), {}) && Prepared(b, s, body, end)
  {
    hide NextDone, Pattern, Holds;
    NodesAllocated(s);
    b.CalcFirstPass(root, s, body, end);
    CalcNextPass(root, s, body, end);
    ReadyToLink(b, s, body, end);
    RootInNodes(s);
    EndInTree(s, body, end);
  }

  lemma {:induction false} EndInTree(s: Shape, body: Shape, end: BinTree)
    requires Pattern(s, body, end)
    ensures end in Nodes(s)
  {
  }

  lemma {:induction false} Assembled(b: DfaBuilder, s: Shape, body: Shape, end: BinTree, g: N.Nfa)
    requires s.Node? && Prepared(b, s, body, end) && b.Linking(Nodes(s), Nodes(s))
    requires g == N.Nfa(b.nodes, b.nexts, b.edests)
    ensures end.nodeIdx >= 0 && N.IsEnd(g, end.nodeIdx) && N.Closed(g, end.nodeIdx) && TokensFrom(g.nodes, s)
    ensures N.Wired(g, Indexed(body), end.nodeIdx) && N.Erase(Indexed(body)) == Skeleton(body)
    ensures s.self.first != null && s.self.first.nodeIdx == N.Entry(Indexed(body), end.nodeIdx)
  {
    LinkedIsClosed(b, s, body, end, g);
    EraseIndexed(body);
    if body.Node? {
      RootInNodes(body);
      FirstIndex(body, s.self, b.nodes, b.owner);
      WiredUp(body, s.self, Nodes(s), b.nodes, b.owner, g);
    }
  }

  /** The compiled NFA is the wiring of the pattern's tree, entered at the first
      node of the root. */
  method Analyze(root: BinTree, ghost s: Shape, ghost body: Shape, ghost end: BinTree)
    returns (g: N.Nfa, first: nat, ghost tree: N.ITree, ghost last: nat)
    requires s.Node? && s.self == root && Holds(s, null) && Pattern(s, body, end) && root.next == null
    modifies Nodes(s)`first, Nodes(s)`nodeIdx, Nodes(s)`next
    ensures N.Erase(tree) == Skeleton(body)
    ensures N.Wired(g, tree, last) && N.IsEnd(g, last) && first == N.Entry(tree, last)
    ensures N.Closed(g, last) && TokensFrom(g.nodes, s)
  {
    hide Holds, Pattern, Prepared, TokensFrom, N.Wired, N.Closed, N.IsEnd;
    NodesAllocated(s);
    var b := new DfaBuilder();
    FirstTwoPasses(b, root, s, body, end);
    LinkFromPrepared(b, root, s, body, end);
    g := N.Nfa(b.nodes, b.nexts, b.edests);
    Assembled(b, s, body, end, g);
    first := root.first.nodeIdx;
    tree := Indexed(body);
    last := end.nodeIdx;
  }

  method LinkFromPrepared(b: DfaBuilder, root: BinTree, ghost s: Shape, ghost body: Shape, ghost end: BinTree)
    requires s.Node? && s.self == root && b.Linking(Nodes(s), {}) && Prepared(b, s, body, end)
    modifies b`nexts, b`edests
    ensures b.Linking(Nodes(s), Nodes(s)) && Prepared(b, s, body, end)
  {
    NodesAllocated(s);
    assert Holds(s, null);
    hide Prepared;
    b.LinkPass(root, s);
  }
}
