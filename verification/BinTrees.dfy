/** Parse-tree nodes and the two stackless walks over them
    (bin_tree_t, `postorder` and `preorder` of src/regex/regcomp.c). */
module BinTrees {
  import opened Language

  class BinTree {
    const token: Token
    var left: BinTree?
    var right: BinTree?
    var parent: BinTree?
    var first: BinTree?
    var next: BinTree?
    var nodeIdx: int

    /** create_token_tree: link the children and clear the analysis fields. */
    constructor (token: Token, left: BinTree?, right: BinTree?)
      modifies if left == null then {} else {left}
      modifies if right == null then {} else {right}
      ensures this.token == token && this.left == left && this.right == right
      ensures parent == null && first == null && next == null && nodeIdx == -1
      ensures left != null ==> left.parent == this
      ensures right != null ==> right.parent == this
      ensures left != null ==> left.left == old(left.left) && left.right == old(left.right)
      ensures right != null ==> right.left == old(right.left) && right.right == old(right.right)
    {
      this.token := token;
      this.left := left;
      this.right := right;
      parent, first, next, nodeIdx := null, null, null, -1;
      new;
      if left != null {
        left.parent := this;
      }
      if right != null {
        right.parent := this;
      }
    }
  }

  /** The finite tree of objects hanging below a node. */
  datatype Shape = Nil | Node(self: BinTree, left: Shape, right: Shape)

  function Root(s: Shape): BinTree? {
    if s.Nil? then null else s.self
  }

  /** The tree a shape stands for. */
  ghost function Skeleton(s: Shape): Tree {
    match s
    case Nil => Tree.Nil
    case Node(n, l, r) => Tree.Node(n.token, Skeleton(l), Skeleton(r))
  }

  ghost function Nodes(s: Shape): set<BinTree> {
    match s
    case Nil => {}
    case Node(n, l, r) => {n} + Nodes(l) + Nodes(r)
  }

  /** The heap holds `s`: child and parent pointers agree with it and no object
      occurs twice. */
  ghost predicate Holds(s: Shape, up: BinTree?)
    reads Nodes(s)`left, Nodes(s)`right, Nodes(s)`parent
  {
    match s
    case Nil => true
    case Node(n, l, r) =>
      && n.left == Root(l) && n.right == Root(r) && n.parent == up
      && n !in Nodes(l) && n !in Nodes(r) && Nodes(l) !! Nodes(r)
      && Holds(l, n) && Holds(r, n)
  }

  ghost function Post(s: Shape): seq<BinTree> {
    match s
    case Nil => []
    case Node(n, l, r) => Post(l) + Post(r) + [n]
  }

  ghost function Pre(s: Shape): seq<BinTree> {
    match s
    case Nil => []
    case Node(n, l, r) => [n] + Pre(l) + Pre(r)
  }

  /** The path from a subtree up to the root, with the right siblings still to visit. */
  datatype Ctx = Top | InLeft(node: BinTree, right: Shape, up: Ctx) | InRight(node: BinTree, up: Ctx)

  function Above(c: Ctx): BinTree? {
    if c.Top? then null else c.node
  }

  ghost function CtxNodes(c: Ctx): set<BinTree> {
    match c
    case Top => {}
    case InLeft(n, r, up) => {n} + Nodes(r) + CtxNodes(up)
    case InRight(n, up) => {n} + CtxNodes(up)
  }

  ghost predicate HoldsCtx(c: Ctx, hole: BinTree)
    reads CtxNodes(c)`left, CtxNodes(c)`right, CtxNodes(c)`parent
  {
    match c
    case Top => true
    case InLeft(n, r, up) =>
      n.right == Root(r) && hole != Root(r) && n.parent == Above(up) && Holds(r, n) && HoldsCtx(up, n)
    case InRight(n, up) =>
      n.right == hole && n.parent == Above(up) && HoldsCtx(up, n)
  }

  ghost function PostRest(c: Ctx): seq<BinTree> {
    match c
    case Top => []
    case InLeft(n, r, up) => Post(r) + [n] + PostRest(up)
    case InRight(n, up) => [n] + PostRest(up)
  }

  ghost function PreRest(c: Ctx): seq<BinTree> {
    match c
    case Top => []
    case InLeft(n, r, up) => Pre(r) + PreRest(up)
    case InRight(n, up) => PreRest(up)
  }

  lemma {:induction false} RootInNodes(s: Shape)
    requires s.Node?
    ensures Root(s) in Nodes(s)
  {
  }

  /** Where the postorder walk stands when it is about to enter subtree `t`. */
  ghost predicate PostAt(s: Shape, t: Shape, c: Ctx, visited: seq<BinTree>)
    reads Nodes(t), CtxNodes(c)
  {
    t.Node? && Holds(t, Above(c)) && HoldsCtx(c, t.self) && visited + (Post(t) + PostRest(c)) == Post(s)
  }

  /** Where it stands when everything below `n` has been visited. */
  ghost predicate PostUp(s: Shape, n: BinTree, c: Ctx, visited: seq<BinTree>)
    reads n, CtxNodes(c)
  {
    n.parent == Above(c) && HoldsCtx(c, n) && visited + ([n] + PostRest(c)) == Post(s)
  }

  lemma {:induction false} Associate(a: seq<BinTree>, b: seq<BinTree>, c: seq<BinTree>)
    ensures (a + b) + c == a + (b + c)
  {
  }

  lemma {:induction false} PostSplit(t: Shape, rest: seq<BinTree>)
    requires t.Node?
    ensures Post(t) + rest == Post(t.left) + (Post(t.right) + [t.self] + rest)
    ensures t.left.Nil? ==> Post(t) + rest == Post(t.right) + ([t.self] + rest)
    ensures t.left.Nil? && t.right.Nil? ==> Post(t) + rest == [t.self] + rest
  {
    var a, b, n := Post(t.left), Post(t.right), [t.self];
    assert Post(t) == a + b + n && (t.left.Nil? ==> a == []) && (t.right.Nil? ==> b == []);
    hide Post;
    Associate(a, b, n);
    Associate(a, b + n, rest);
    Associate(b, n, rest);
    assert [] + (b + n + rest) == b + n + rest && [] + (n + rest) == n + rest;
  }

  lemma {:induction false} PreSplit(t: Shape, visited: seq<BinTree>, rest: seq<BinTree>)
    requires t.Node?
    ensures visited + (Pre(t) + rest) == (visited + [t.self]) + (Pre(t.left) + (Pre(t.right) + rest))
    ensures t.left.Nil? ==> Pre(t.left) + (Pre(t.right) + rest) == Pre(t.right) + rest
  {
    var a, b, n := Pre(t.left), Pre(t.right), [t.self];
    assert Pre(t) == n + a + b && (t.left.Nil? ==> a == []);
    hide Pre;
    Associate(n, a, b);
    Associate(n, a + b, rest);
    Associate(a, b, rest);
    Associate(visited, n, a + (b + rest));
    assert [] + (b + rest) == b + rest;
  }

  lemma {:induction false} PostEnter(s: Shape, t: Shape, c: Ctx, visited: seq<BinTree>)
    requires PostAt(s, t, c, visited)
    ensures t.Node? && t.self.left == Root(t.left) && t.self.right == Root(t.right)
    ensures |visited| < |Post(s)|
    ensures t.left.Node? ==> PostAt(s, t.left, InLeft(t.self, t.right, c), visited)
    ensures t.left.Nil? && t.right.Node? ==> PostAt(s, t.right, InRight(t.self, c), visited)
    ensures t.left.Nil? && t.right.Nil? ==> PostUp(s, t.self, c, visited)
  {
    var l, r := t.left, t.right;
    PostSplit(t, PostRest(c));
    if l.Node? {
      RootInNodes(l);
      if r.Node? {
        RootInNodes(r);
      }
    }
    PostLast(t);
    hide Post;
  }

  lemma {:induction false} PostLeave(s: Shape, n: BinTree, c: Ctx, visited: seq<BinTree>)
    requires PostUp(s, n, c, visited)
    ensures n.parent == Above(c) && |visited| < |Post(s)|
    ensures c.Top? ==> visited + [n] == Post(s)
    ensures !c.Top? && (c.node.right == n || c.node.right == null) ==> PostUp(s, c.node, c.up, visited + [n])
    ensures !c.Top? && !(c.node.right == n || c.node.right == null) ==>
              c.InLeft? && c.right.Node? && c.node.right == c.right.self
              && PostAt(s, c.right, InRight(c.node, c.up), visited + [n])
  {
    assert visited + [n] + PostRest(c) == visited + ([n] + PostRest(c));
    if c.InLeft? {
      var m, r, up := c.node, c.right, c.up;
      assert Post(r) + [m] + PostRest(up) == Post(r) + ([m] + PostRest(up));
      assert r.Nil? ==> Post(r) + ([m] + PostRest(up)) == [m] + PostRest(up);
    }
  }

  lemma {:induction false} PostBegin(s: Shape)
    requires s.Node? && Holds(s, null)
    ensures PostAt(s, s, Top, [])
  {
    assert [] + (Post(s) + []) == Post(s);
  }

  /** The walk visits exactly the recursive order. */
  method Postorder(root: BinTree, ghost s: Shape) returns (visited: seq<BinTree>)
    requires s.Node? && s.self == root && Holds(s, null)
    ensures visited == Post(s) && Holds(s, null)
  {
    hide Post, PostRest, Holds, HoldsCtx, PostAt, PostUp;
    var node: BinTree := root;
    ghost var t, c := s, Top;
    visited := [];
    PostBegin(s);
    while true
      invariant Holds(s, null)
      invariant PostAt(s, t, c, visited) && t.Node? && node == t.self
      decreases |Post(s)| - |visited|
    {
      PostEnter(s, t, c, visited);
      while node.left != null || node.right != null
        invariant Holds(s, null)
        invariant PostAt(s, t, c, visited) && t.Node? && node == t.self
        decreases t
      {
        PostEnter(s, t, c, visited);
        if node.left != null {
          t, c, node := t.left, InLeft(t.self, t.right, c), node.left;
        } else {
          t, c, node := t.right, InRight(t.self, c), node.right;
        }
      }
      PostEnter(s, t, c, visited);
      ghost var before := |visited|;
      while true
        invariant Holds(s, null)
        invariant PostUp(s, node, c, visited)
        invariant before <= |visited|
        decreases |Post(s)| - |visited|
      {
        PostLeave(s, node, c, visited);
        visited := visited + [node];
        if node.parent == null {
          return;
        }
        var prev := node;
        node := node.parent;
        if !(node.right == prev || node.right == null) {
          break;
        }
        c := c.up;
      }
      t, c, node := c.right, InRight(c.node, c.up), node.right;
    }
  }

  /** The preorder walk is about to visit `t`. */
  ghost predicate PreAt(s: Shape, t: Shape, c: Ctx, visited: seq<BinTree>)
    reads Nodes(t), CtxNodes(c)
  {
    t.Node? && Holds(t, Above(c)) && HoldsCtx(c, t.self) && visited + (Pre(t) + PreRest(c)) == Pre(s)
  }

  /** It has visited `n` and everything on its left, and arrived from `prev`
      (null when it has not been on either side of `n`); `r` hangs on the right. */
  ghost predicate PreUp(s: Shape, n: BinTree, prev: BinTree?, r: Shape, c: Ctx, visited: seq<BinTree>)
    reads n, Nodes(r), CtxNodes(c)
  {
    && n.parent == Above(c) && HoldsCtx(c, n)
    && (n.right != prev ==> n.right == Root(r) && Holds(r, n))
    && visited + ((if n.right == prev then [] else Pre(r)) + PreRest(c)) == Pre(s)
  }

  lemma {:induction false} PreEnter(s: Shape, t: Shape, c: Ctx, visited: seq<BinTree>)
    requires PreAt(s, t, c, visited)
    ensures t.Node? && t.self.left == Root(t.left) && t.self.right == Root(t.right)
    ensures |visited| < |Pre(s)|
    ensures t.left.Node? ==> PreAt(s, t.left, InLeft(t.self, t.right, c), visited + [t.self])
    ensures t.left.Nil? ==> PreUp(s, t.self, null, t.right, c, visited + [t.self])
  {
    PreSplit(t, visited, PreRest(c));
    if t.left.Node? {
      RootInNodes(t.left);
      if t.right.Node? {
        RootInNodes(t.right);
      }
    }
    hide Pre;
  }

  lemma {:induction false} PreClimb(s: Shape, n: BinTree, prev: BinTree?, r: Shape, c: Ctx, visited: seq<BinTree>)
    requires PreUp(s, n, prev, r, c, visited)
    ensures n.parent == Above(c)
    ensures (n.right == prev || n.right == null) && c.Top? ==> visited == Pre(s)
    ensures (n.right == prev || n.right == null) && !c.Top? ==>
              PreUp(s, c.node, n, if c.InLeft? then c.right else Shape.Nil, c.up, visited)
    ensures !(n.right == prev || n.right == null) ==>
              r.Node? && n.right == r.self && PreAt(s, r, InRight(n, c), visited)
  {
    assert [] + PreRest(c) == PreRest(c);
    assert visited + [] == visited;
    if c.InRight? {
      assert [] + PreRest(c.up) == PreRest(c.up);
    }
  }

  method Preorder(root: BinTree, ghost s: Shape) returns (visited: seq<BinTree>)
    requires s.Node? && s.self == root && Holds(s, null)
    ensures visited == Pre(s) && Holds(s, null)
  {
    hide Pre, PreRest, Holds, HoldsCtx, PreAt, PreUp;
    var node: BinTree := root;
    ghost var t, c := s, Top;
    visited := [];
    PreBegin(s);
    while true
      invariant Holds(s, null)
      invariant PreAt(s, t, c, visited) && t.Node? && node == t.self
      decreases |Pre(s)| - |visited|
    {
      PreEnter(s, t, c, visited);
      visited := visited + [node];
      if node.left != null {
        t, c, node := t.left, InLeft(t.self, t.right, c), node.left;
      } else {
        var prev: BinTree? := null;
        ghost var r := t.right;
        PreClimb(s, node, prev, r, c, visited);
        while node.right == prev || node.right == null
          invariant Holds(s, null)
          invariant PreUp(s, node, prev, r, c, visited)
          decreases c
        {
          PreClimb(s, node, prev, r, c, visited);
          prev := node;
          if node.parent == null {
            return;
          }
          node := node.parent;
          r := if c.InLeft? then c.right else Shape.Nil;
          c := c.up;
        }
        PreClimb(s, node, prev, r, c, visited);
        t, c, node := r, InRight(node, c), node.right;
      }
    }
  }

  lemma {:induction false} PreBegin(s: Shape)
    requires s.Node? && Holds(s, null)
    ensures PreAt(s, s, Top, [])
  {
    assert [] + (Pre(s) + []) == Pre(s);
  }

  ghost predicate Once(v: seq<BinTree>) {
    forall i, j :: 0 <= i < j < |v| ==> v[i] != v[j]
  }

  ghost function Members(v: seq<BinTree>): set<BinTree> {
    set n | n in v
  }

  /** Children come before their parent. */
  ghost predicate ChildrenBefore(v: seq<BinTree>)
    reads Members(v)`left, Members(v)`right
  {
    forall i :: 0 <= i < |v| ==>
      && (v[i].left == null || v[i].left in v[..i])
      && (v[i].right == null || v[i].right in v[..i])
  }

  /** Children come after their parent. */
  ghost predicate ChildrenAfter(v: seq<BinTree>)
    reads Members(v)`left, Members(v)`right
  {
    forall i, j :: 0 <= j <= i < |v| ==> v[j] != v[i].left && v[j] != v[i].right
  }

  lemma {:induction false} JoinOnce(a: seq<BinTree>, b: seq<BinTree>)
    requires Once(a) && Once(b) && Members(a) !! Members(b)
    ensures Once(a + b) && Members(a + b) == Members(a) + Members(b)
  {
    forall i | 0 <= i < |a| ensures a[i] in Members(a) {}
    forall i | 0 <= i < |b| ensures b[i] in Members(b) {}
  }

  lemma {:induction false} JoinBefore(a: seq<BinTree>, b: seq<BinTree>)
    requires ChildrenBefore(a) && ChildrenBefore(b)
    ensures ChildrenBefore(a + b)
  {
    var v := a + b;
    forall i | 0 <= i < |v|
      ensures (v[i].left == null || v[i].left in v[..i]) && (v[i].right == null || v[i].right in v[..i])
    {
      if i < |a| {
        assert v[..i] == a[..i];
      } else {
        assert v[..i] == a + b[..i - |a|];
      }
    }
  }

  lemma {:induction false} PostOnce(s: Shape, up: BinTree?)
    requires Holds(s, up)
    ensures Once(Post(s)) && Members(Post(s)) == Nodes(s)
  {
    if s.Node? {
      PostOnce(s.left, s.self);
      PostOnce(s.right, s.self);
      hide Once, Members;
      JoinOnce(Post(s.left), Post(s.right));
      SingleOnce(s.self);
      JoinOnce(Post(s.left) + Post(s.right), [s.self]);
    }
  }

  lemma {:induction false} PreOnce(s: Shape, up: BinTree?)
    requires Holds(s, up)
    ensures Once(Pre(s)) && Members(Pre(s)) == Nodes(s)
  {
    if s.Node? {
      PreOnce(s.left, s.self);
      PreOnce(s.right, s.self);
      hide Once, Members;
      SingleOnce(s.self);
      JoinOnce([s.self], Pre(s.left));
      JoinOnce([s.self] + Pre(s.left), Pre(s.right));
    }
  }

  lemma {:induction false} SingleOnce(n: BinTree)
    ensures Once([n]) && Members([n]) == {n}
  {
  }

  /** Both walks meet every node exactly once. */
  lemma {:induction false} WalkOnce(s: Shape, up: BinTree?)
    requires Holds(s, up)
    ensures Once(Post(s)) && Members(Post(s)) == Nodes(s)
    ensures Once(Pre(s)) && Members(Pre(s)) == Nodes(s)
  {
    hide *;
    PostOnce(s, up);
    PreOnce(s, up);
  }

  lemma {:induction false} PartFirst(v: seq<BinTree>, p: seq<BinTree>, a: seq<BinTree>, b: seq<BinTree>,
                                     q: seq<BinTree>, l: BinTree, r: BinTree, i: nat, j: nat)
    requires v == p + a + b + q && Once(v) && l in Members(a) && r in Members(b)
    ensures i < |v| && j < |v| && v[i] == l && v[j] == r ==> i < j
  {
    var m: nat :| m < |a| && a[m] == l;
    var n: nat :| n < |b| && b[n] == r;
    assert v[|p| + m] == l && v[|p| + |a| + n] == r;
  }

  lemma {:induction false} WalkParts(s: Shape)
    requires s.Node?
    ensures Post(s) == [] + Post(s.left) + Post(s.right) + [s.self]
    ensures Pre(s) == [s.self] + Pre(s.left) + Pre(s.right) + []
  {
  }

  /** In both walks, all of the left subtree comes before all of the right one. */
  lemma {:induction false} LeftFirst(s: Shape, up: BinTree?, l: BinTree, r: BinTree, i: nat, j: nat)
    requires Holds(s, up) && s.Node? && l in Nodes(s.left) && r in Nodes(s.right)
    ensures i < |Post(s)| && j < |Post(s)| && Post(s)[i] == l && Post(s)[j] == r ==> i < j
    ensures i < |Pre(s)| && j < |Pre(s)| && Pre(s)[i] == l && Pre(s)[j] == r ==> i < j
  {
    WalkOnce(s, up);
    WalkOnce(s.left, s.self);
    WalkOnce(s.right, s.self);
    hide *;
    WalkParts(s);
    PartFirst(Post(s), [], Post(s.left), Post(s.right), [s.self], l, r, i, j);
    PartFirst(Pre(s), [s.self], Pre(s.left), Pre(s.right), [], l, r, i, j);
  }

  lemma {:induction false} PostLast(s: Shape)
    requires s.Node?
    ensures Post(s) != [] && Post(s)[|Post(s)| - 1] == s.self
  {
  }

  lemma {:induction false} ParentLast(v: seq<BinTree>, n: BinTree)
    requires ChildrenBefore(v) && (n.left == null || n.left in v) && (n.right == null || n.right in v)
    ensures ChildrenBefore(v + [n])
  {
    var w := v + [n];
    forall i | 0 <= i < |w|
      ensures (w[i].left == null || w[i].left in w[..i]) && (w[i].right == null || w[i].right in w[..i])
    {
      assert w[..i] == v[..i];
    }
  }

  lemma {:induction false} PostChildren(s: Shape, up: BinTree?)
    requires Holds(s, up)
    ensures ChildrenBefore(Post(s))
  {
    if s.Node? {
      var n, a, b := s.self, Post(s.left), Post(s.right);
      PostChildren(s.left, n);
      PostChildren(s.right, n);
      assert n.left == null || n.left in a by {
        if s.left.Node? {
          PostLast(s.left);
        }
      }
      assert n.right == null || n.right in b by {
        if s.right.Node? {
          PostLast(s.right);
        }
      }
      hide ChildrenBefore;
      JoinBefore(a, b);
      ParentLast(a + b, n);
    }
  }

  lemma {:induction false} ChildInNodes(s: Shape, up: BinTree?, n: BinTree)
    requires Holds(s, up) && n in Nodes(s)
    ensures n.left != null ==> n.left in Nodes(s) && n.left.parent == n
    ensures n.right != null ==> n.right in Nodes(s) && n.right.parent == n
    ensures n.left != null ==> n.left != n.right
  {
    if n == s.self {
      if s.left.Node? {
        RootInNodes(s.left);
      }
      if s.right.Node? {
        RootInNodes(s.right);
      }
    } else if n in Nodes(s.left) {
      ChildInNodes(s.left, s.self, n);
    } else {
      ChildInNodes(s.right, s.self, n);
    }
  }

  /** No child of a node of the set lies outside it. */
  ghost predicate KeepsChildren(nodes: set<BinTree>)
    reads nodes`left, nodes`right
  {
    forall n :: n in nodes ==> (n.left == null || n.left in nodes) && (n.right == null || n.right in nodes)
  }

  lemma {:induction false} NodesKeepChildren(s: Shape, up: BinTree?)
    requires Holds(s, up)
    ensures KeepsChildren(Nodes(s))
  {
    forall n | n in Nodes(s)
      ensures (n.left == null || n.left in Nodes(s)) && (n.right == null || n.right in Nodes(s))
    {
      ChildInNodes(s, up, n);
    }
  }

  lemma {:induction false} JoinAfter(a: seq<BinTree>, b: seq<BinTree>)
    requires ChildrenAfter(a) && ChildrenAfter(b) && Members(a) !! Members(b) && KeepsChildren(Members(b))
    ensures ChildrenAfter(a + b)
  {
    var v := a + b;
    forall i, j | 0 <= j <= i < |v| ensures v[j] != v[i].left && v[j] != v[i].right {
      assert i >= |a| ==> v[i] in Members(b);
      assert j < |a| ==> v[j] in Members(a);
    }
  }

  lemma {:induction false} PreChildren(s: Shape, up: BinTree?)
    requires Holds(s, up)
    ensures ChildrenAfter(Pre(s))
  {
    if s.Node? {
      var n, a, b := s.self, Pre(s.left), Pre(s.right);
      PreChildren(s.left, n);
      PreChildren(s.right, n);
      PreOnce(s.left, n);
      PreOnce(s.right, n);
      NodesKeepChildren(s.left, n);
      NodesKeepChildren(s.right, n);
      assert ChildrenAfter([n]) by {
        if s.left.Node? {
          RootInNodes(s.left);
        }
        if s.right.Node? {
          RootInNodes(s.right);
        }
      }
      hide ChildrenAfter, KeepsChildren, Members, Once;
      SingleOnce(n);
      JoinOnce([n], a);
      JoinAfter([n], a);
      JoinAfter([n] + a, b);
    }
  }

  /** The objects of a shape exist, so calls that change nothing leave them alone. */
  lemma {:induction false} NodesAllocated(s: Shape)
    ensures allocated(Nodes(s))
  {
    if s.Node? {
      NodesAllocated(s.left);
      NodesAllocated(s.right);
    }
  }
}
