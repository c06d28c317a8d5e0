/** Copying a parse tree without a stack (`duplicate_tree` of src/regex/regcomp.c). */
module DupTree {
  import opened Language
  import opened BinTrees

  /** Where the walk is: the ancestors in the source with their copies, and what
      hangs on their other sides (of a copy's right side, nothing yet). */
  datatype Path =
    | Here
    | OnLeft(n: BinTree, m: BinTree, right: Shape, up: Path)
    | OnRight(n: BinTree, m: BinTree, left: Shape, copy: Shape, up: Path)

  /** The whole source, from a subtree and the path above it. */
  ghost function Plug(p: Path, t: Shape): Shape {
    match p
    case Here => t
    case OnLeft(n, _, r, up) => Plug(up, Shape.Node(n, t, r))
    case OnRight(n, _, l, _, up) => Plug(up, Shape.Node(n, l, t))
  }

  /** The copies on the path have the tokens of their originals. */
  ghost predicate Matches(p: Path) {
    match p
    case Here => true
    case OnLeft(n, m, _, up) => m.token == n.token && Matches(up)
    case OnRight(n, m, l, c, up) => m.token == n.token && Skeleton(c) == Skeleton(l) && Matches(up)
  }

  ghost function Copies(p: Path): set<BinTree> {
    match p
    case Here => {}
    case OnLeft(_, m, _, up) => {m} + Copies(up)
    case OnRight(_, m, _, c, up) => {m} + Nodes(c) + Copies(up)
  }

  function AboveSource(p: Path, top: BinTree?): BinTree? {
    if p.Here? then top else p.n
  }

  function AboveCopy(p: Path, top: BinTree?): BinTree? {
    if p.Here? then top else p.m
  }

  /** The heap holds the copied path, with `hole` where the copy goes on. */
  ghost predicate HoldsPath(p: Path, hole: BinTree?, top: BinTree?)
    reads Copies(p)`left, Copies(p)`right, Copies(p)`parent
  {
    match p
    case Here => true
    case OnLeft(_, m, _, up) =>
      m.left == hole && m.right == null && m.parent == AboveCopy(up, top) && HoldsPath(up, m, top)
    case OnRight(_, m, _, c, up) =>
      m.left == Root(c) && m.right == hole && Holds(c, m) && m.parent == AboveCopy(up, top) && HoldsPath(up, m, top)
  }

  /** No copy occurs twice, on the path or in `below`. */
  ghost predicate Distinct(p: Path, below: set<BinTree>) {
    match p
    case Here => true
    case OnLeft(_, m, _, up) => m !in below && Distinct(up, below + {m})
    case OnRight(_, m, _, c, up) =>
      m !in below && m !in Nodes(c) && Nodes(c) !! below && Distinct(up, below + {m} + Nodes(c))
  }

  /** Every ancestor has its child on the right, or nothing on the right. */
  ghost predicate RightSpine(child: BinTree, ancestors: seq<BinTree>)
    reads child, ancestors
  {
    if ancestors == [] then child.parent == null
    else
      && child.parent == ancestors[0]
      && (ancestors[0].right == child || ancestors[0].right == null)
      && RightSpine(ancestors[0], ancestors[1..])
  }

  lemma {:induction false} SpineAt(child: BinTree, ancestors: seq<BinTree>, k: nat)
    requires RightSpine(child, ancestors) && k < |ancestors|
    ensures var below := if k == 0 then child else ancestors[k - 1];
            && below.parent == ancestors[k] && (ancestors[k].right == below || ancestors[k].right == null)
    ensures k + 1 == |ancestors| ==> ancestors[k].parent == null
    ensures k + 1 < |ancestors| ==> ancestors[k].parent == ancestors[k + 1]
  {
    if k > 0 {
      SpineAt(ancestors[0], ancestors[1..], k - 1);
    }
  }

  lemma {:induction false} PathAllocated(p: Path)
    ensures allocated(Copies(p))
  {
    if !p.Here? {
      PathAllocated(p.up);
      if p.OnRight? {
        NodesAllocated(p.copy);
      }
    }
  }

  lemma {:induction false} DistinctMore(p: Path, below: set<BinTree>, q: BinTree)
    requires Distinct(p, below) && q !in Copies(p)
    ensures Distinct(p, below + {q})
  {
    match p
    case Here =>
    case OnLeft(_, m, _, up) =>
      DistinctMore(up, below + {m}, q);
      assert below + {m} + {q} == below + {q} + {m};
    case OnRight(_, m, _, c, up) =>
      DistinctMore(up, below + {m} + Nodes(c), q);
      assert below + {m} + Nodes(c) + {q} == below + {q} + {m} + Nodes(c);
  }

  /** What the source looks like around the subtree at the end of the path. */
  lemma {:induction false} SourceAt(p: Path, t: Shape, top: BinTree?)
    requires Holds(Plug(p, t), top) && t.Node?
    ensures Holds(t, AboveSource(p, top))
    ensures p.OnLeft? ==> p.n.right == Root(p.right) && p.n.right != t.self && p.n.parent == AboveSource(p.up, top)
    ensures p.OnRight? ==> p.n.right == t.self && p.n.parent == AboveSource(p.up, top)
  {
    match p
    case Here =>
    case OnLeft(n, _, r, up) =>
      SourceAt(up, Shape.Node(n, t, r), top);
      if r.Node? {
        RootInNodes(r);
      }
    case OnRight(n, _, l, _, up) =>
      SourceAt(up, Shape.Node(n, l, t), top);
  }

  // ---- where the walk stands ----

  /** About to copy `t`, into the hole at the end of the path. */
  ghost predicate Entering(s: Shape, t: Shape, p: Path, top: BinTree?)
    reads Copies(p)
  {
    t.Node? && Plug(p, t) == s && Matches(p) && HoldsPath(p, null, top) && Distinct(p, {})
  }

  /** `d` is the finished copy of `t`. */
  ghost predicate Copied(s: Shape, t: Shape, d: Shape, p: Path, top: BinTree?)
    reads Copies(p), Nodes(d)
  {
    && t.Node? && d.Node? && Plug(p, t) == s && Matches(p) && Skeleton(d) == Skeleton(t)
    && HoldsPath(p, d.self, top) && Holds(d, AboveCopy(p, top)) && Distinct(p, Nodes(d))
  }

  /** The new node `q` is in the hole; what comes next. */
  lemma {:induction false} Placed(s: Shape, t: Shape, p: Path, q: BinTree, top: BinTree?)
    requires t.Node? && Plug(p, t) == s && Matches(p) && HoldsPath(p, q, top) && Distinct(p, {q})
    requires q.token == t.self.token && q.left == null && q.right == null && q.parent == AboveCopy(p, top)
    ensures t.left.Node? ==> Entering(s, t.left, OnLeft(t.self, q, t.right, p), top)
    ensures t.left.Nil? && t.right.Node? ==>
              Entering(s, t.right, OnRight(t.self, q, Shape.Nil, Shape.Nil, p), top)
    ensures t.left.Nil? && t.right.Nil? ==> Copied(s, t, Shape.Node(q, Shape.Nil, Shape.Nil), p, top)
  {
    assert {} + {q} == {q} && {} + {q} + Nodes(Shape.Nil) == {q};
    assert Nodes(Shape.Node(q, Shape.Nil, Shape.Nil)) == {q};
  }

  /** One step up from a finished copy: the parent is finished as well, or its right
      side comes next. */
  lemma {:induction false} Climbed(s: Shape, t: Shape, d: Shape, p: Path, top: BinTree?)
    requires Copied(s, t, d, p, top) && !p.Here?
    ensures p.OnLeft? && p.right.Nil? ==>
              Copied(s, Shape.Node(p.n, t, Shape.Nil), Shape.Node(p.m, d, Shape.Nil), p.up, top)
    ensures p.OnLeft? && p.right.Node? ==> Entering(s, p.right, OnRight(p.n, p.m, t, d, p.up), top)
    ensures p.OnRight? ==> Copied(s, Shape.Node(p.n, p.left, t), Shape.Node(p.m, p.copy, d), p.up, top)
  {
    match p
    case OnLeft(n, m, r, up) =>
      assert Nodes(Shape.Node(m, d, Shape.Nil)) == Nodes(d) + {m};
      assert {} + {m} + Nodes(d) == Nodes(d) + {m};
    case OnRight(n, m, l, c, up) =>
      assert Nodes(Shape.Node(m, c, d)) == Nodes(d) + {m} + Nodes(c);
  }

  lemma {:induction false} CopyUp(s: Shape, t: Shape, d: Shape, p: Path, top: BinTree?)
    requires Copied(s, t, d, p, top)
    ensures d.Node? && d.self.parent == AboveCopy(p, top)
  {
  }

  /** How much is still to be copied. */
  ghost function Size(s: Shape): nat {
    if s.Nil? then 0 else 1 + Size(s.left) + Size(s.right)
  }

  ghost function Remaining(p: Path): nat {
    match p
    case Here => 0
    case OnLeft(_, _, r, up) => Size(r) + Remaining(up)
    case OnRight(_, _, _, _, up) => Remaining(up)
  }

  datatype Hole = AtRoot | AtLeft | AtRight

  function HoleOf(p: Path): Hole {
    match p
    case Here => AtRoot
    case OnLeft(_, _, _, _) => AtLeft
    case OnRight(_, _, _, _, _) => AtRight
  }

  lemma {:induction false} DistinctApart(p: Path, below: set<BinTree>)
    requires Distinct(p, below)
    ensures Copies(p) !! below
  {
    match p
    case Here =>
    case OnLeft(_, m, _, up) => DistinctApart(up, below + {m});
    case OnRight(_, m, _, c, up) => DistinctApart(up, below + {m} + Nodes(c));
  }

  /** Create a node and link it where `p_new` points. */
  method PlaceNode(token: Token, hole: Hole, dupNode: BinTree?, ghost p: Path, ghost top: BinTree?) returns (q: BinTree)
    requires HoldsPath(p, null, top) && Distinct(p, {}) && hole == HoleOf(p) && dupNode == AboveCopy(p, top)
    modifies if hole == AtRoot || dupNode == null then {} else {dupNode}
    ensures fresh(q) && q.token == token && q.left == null && q.right == null && q.parent == dupNode
    ensures HoldsPath(p, q, top) && Distinct(p, {q})
  {
    PathAllocated(p);
    if !p.Here? {
      PathAllocated(p.up);
      if p.OnRight? {
        NodesAllocated(p.copy);
        DistinctApart(p.up, {} + {p.m} + Nodes(p.copy));
      } else {
        DistinctApart(p.up, {} + {p.m});
      }
    }
    q := new BinTree(token, null, null);
    DistinctMore(p, {}, q);
    assert {} + {q} == {q};
    if hole == AtLeft {
      dupNode.left := q;
    } else if hole == AtRight {
      dupNode.right := q;
    }
    q.parent := dupNode;
  }

  /** The outermost copy above `m`. */
  function Outermost(p: Path, m: BinTree): BinTree {
    if p.Here? then m else Outermost(p.up, p.m)
  }

  function Depth(p: Path): nat {
    if p.Here? then 0 else 1 + Depth(p.up)
  }

  lemma {:induction false} HoldsRoot(s: Shape, up: BinTree?)
    requires s.Node? && Holds(s, up)
    ensures s.self.left == Root(s.left) && s.self.right == Root(s.right) && s.self.parent == up
  {
  }

  lemma {:induction false} EnteringStart(s: Shape, top: BinTree?)
    requires s.Node?
    ensures Entering(s, s, Here, top) && Copies(Here) == {} && HoleOf(Here) == AtRoot && AboveCopy(Here, top) == top
  {
  }

  lemma {:induction false} EnteringNow(s: Shape, t: Shape, p: Path, top: BinTree?)
    requires Entering(s, t, p, top)
    ensures t.Node? && HoldsPath(p, null, top) && Distinct(p, {}) && Plug(p, t) == s && Matches(p)
  {
  }

  lemma {:induction false} SourceNow(s: Shape, t: Shape, p: Path, top: BinTree?)
    requires t.Node? && Plug(p, t) == s && Holds(s, top)
    ensures t.self.left == Root(t.left) && t.self.right == Root(t.right)
  {
    SourceAt(p, t, top);
  }

  lemma {:induction false} CopiedAtRoot(s: Shape, t: Shape, d: Shape, top: BinTree?)
    requires Copied(s, t, d, Here, top)
    ensures t == s && d.Node? && Holds(d, top) && Skeleton(d) == Skeleton(s)
  {
  }

  lemma {:induction false} CopiedSource(s: Shape, t: Shape, d: Shape, p: Path, top: BinTree?)
    requires Copied(s, t, d, p, top) && Holds(s, top)
    ensures t.Node? && t.self.parent == AboveSource(p, top)
    ensures p.OnLeft? ==> p.n.right == Root(p.right) && p.n.right != t.self
    ensures p.OnRight? ==> p.n.right == t.self
  {
    SourceAt(p, t, top);
    HoldsRoot(t, AboveSource(p, top));
  }

  /** The climb: at `node`, all that hangs below it on the left is copied. Either its
      whole copy is finished and the climb goes on, or the right side comes next; or
      the climb has left the tree and is `k` ancestors above the root. */
  datatype Climb = Climb(t: Shape, d: Shape, p: Path, finished: bool, k: int)

  ghost predicate Climbing(s: Shape, c: Climb, node: BinTree, dupNode: BinTree?, prev: BinTree?, dupRoot: BinTree,
                           top: BinTree?, ancestors: seq<BinTree>)
    reads node, Copies(c.p), Nodes(c.d)
  {
    && (c.finished <==> node.right == prev || node.right == null)
    && if c.k >= 0 then
         && c.finished && c.k < |ancestors| && node == dupNode == ancestors[c.k]
         && prev == (if c.k == 0 then Root(s) else ancestors[c.k - 1])
         && Copied(s, c.t, c.d, Here, top) && c.d.Node? && c.d.self == dupRoot && c.p == Here
       else if c.finished then
         && Copied(s, c.t, c.d, c.p, top) && c.t.Node? && c.d.Node?
         && node == c.t.self && dupNode == c.d.self && Outermost(c.p, c.d.self) == dupRoot
       else
         && Entering(s, c.t, c.p, top) && c.p.OnRight? && c.t.Node? && node == c.p.n && dupNode == c.p.m
         && node.right == c.t.self && Outermost(c.p.up, c.p.m) == dupRoot && c.d.Nil?
  }

  /** The climb after one step up. */
  ghost function ClimbUp(c: Climb): Climb {
    if c.k >= 0 || c.p.Here? then c.(k := c.k + 1)
    else
      match c.p
      case OnLeft(n, m, r, up) =>
        if r.Nil? then Climb(Shape.Node(n, c.t, Shape.Nil), Shape.Node(m, c.d, Shape.Nil), up, true, -1)
        else Climb(r, Shape.Nil, OnRight(n, m, c.t, c.d, up), false, -1)
      case OnRight(n, m, l, copy, up) =>
        Climb(Shape.Node(n, l, c.t), Shape.Node(m, copy, c.d), up, true, -1)
  }

  lemma {:induction false} ClimbStep(s: Shape, c: Climb, node: BinTree, dupNode: BinTree, prev: BinTree?,
                                     dupRoot: BinTree, top: BinTree?, ancestors: seq<BinTree>)
    requires Climbing(s, c, node, dupNode, prev, dupRoot, top, ancestors) && c.finished && c.k >= -1
    requires Holds(s, top) && s.Node? && s.self.parent == top && RightSpine(s.self, ancestors)
    ensures node.parent == null ==>
              c.d.Node? && c.d.self == dupRoot && Holds(c.d, top) && Skeleton(c.d) == Skeleton(s)
    ensures node.parent != null ==>
              Climbing(s, ClimbUp(c), node.parent, dupNode.parent, node, dupRoot, top, ancestors)
  {
    if c.k >= 0 {
      SpineAt(s.self, ancestors, c.k);
      if c.k + 1 < |ancestors| {
        SpineAt(s.self, ancestors, c.k + 1);
      }
      CopiedAtRoot(s, c.t, c.d, top);
    } else {
      CopiedSource(s, c.t, c.d, c.p, top);
      CopyUp(s, c.t, c.d, c.p, top);
      hide Copied, Entering, Holds;
      if c.p.Here? {
        CopiedAtRoot(s, c.t, c.d, top);
        if |ancestors| > 0 {
          SpineAt(s.self, ancestors, 0);
        }
      } else {
        Climbed(s, c.t, c.d, c.p, top);
      }
    }
  }

  /** What the climb has copied. */
  ghost function CopiesOf(c: Climb): set<BinTree> {
    Copies(c.p) + Nodes(c.d)
  }

  lemma {:induction false} ClimbUpFacts(c: Climb)
    requires c.finished && (c.k < 0 ==> c.d.Node?)
    requires c.k >= -1
    ensures CopiesOf(ClimbUp(c)) == CopiesOf(c) && ClimbUp(c).k >= -1
    ensures Left(ClimbUp(c)) == Left(c)
    ensures !ClimbUp(c).finished || Depth(ClimbUp(c).p) < Depth(c.p) || (ClimbUp(c).p == c.p && ClimbUp(c).k == c.k + 1)
  {
    if c.k < 0 && !c.p.Here? {
      var up := ClimbUp(c);
      if c.p.OnLeft? && c.p.right.Nil? {
        assert Nodes(up.d) == {c.p.m} + Nodes(c.d) + {};
      } else if c.p.OnLeft? {
        assert Copies(up.p) == {c.p.m} + Nodes(c.d) + Copies(c.p.up) && Nodes(up.d) == {};
      } else {
        assert Nodes(up.d) == {c.p.m} + Nodes(c.p.copy) + Nodes(c.d);
      }
    }
  }

  /** How much is still to be copied after the climb. */
  ghost function Left(c: Climb): nat {
    Remaining(c.p) + if c.finished then 0 else Size(c.t)
  }

  lemma {:induction false} ClimbStart(s: Shape, t: Shape, p: Path, q: BinTree, dupRoot: BinTree, top: BinTree?,
                                      ancestors: seq<BinTree>)
    returns (c: Climb)
    requires t.Node? && t.left.Nil? && t.self.right == Root(t.right)
    requires t.right.Node? ==> Entering(s, t.right, OnRight(t.self, q, Shape.Nil, Shape.Nil, p), top)
    requires t.right.Nil? ==> Copied(s, t, Shape.Node(q, Shape.Nil, Shape.Nil), p, top)
    requires Outermost(p, q) == dupRoot
    ensures Climbing(s, c, t.self, q, null, dupRoot, top, ancestors) && c.k == -1
    ensures CopiesOf(c) == Copies(p) + {q} && Left(c) == Size(t.right) + Remaining(p)
  {
    hide Entering, Copied;
    if t.right.Node? {
      c := Climb(t.right, Shape.Nil, OnRight(t.self, q, Shape.Nil, Shape.Nil, p), false, -1);
      assert Copies(c.p) == {q} + Nodes(Shape.Nil) + Copies(p) && Nodes(c.d) == {};
    } else {
      c := Climb(t, Shape.Node(q, Shape.Nil, Shape.Nil), p, true, -1);
      assert Nodes(c.d) == {q} + Nodes(Shape.Nil) + Nodes(Shape.Nil);
    }
  }

  /** The inner loop, over both trees: up to the first node whose right side is still to
      be copied, or out of the tree. */
  method ClimbOut(from: BinTree, dupFrom: BinTree, ghost s: Shape, ghost c0: Climb, ghost dupRoot: BinTree,
                  ghost top: BinTree?, ghost ancestors: seq<BinTree>)
    returns (out: bool, node: BinTree, dupNode: BinTree?, ghost c: Climb)
    requires Climbing(s, c0, from, dupFrom, null, dupRoot, top, ancestors) && c0.k == -1
    requires Holds(s, top) && s.Node? && s.self.parent == top && RightSpine(s.self, ancestors)
    ensures CopiesOf(c) == CopiesOf(c0) == Copies(c.p) + Nodes(c.d)
    ensures out ==> c.d.Node? && c.d.self == dupRoot && Holds(c.d, top) && Skeleton(c.d) == Skeleton(s)
    ensures !out ==>
              && Entering(s, c.t, c.p, top) && c.p.OnRight? && c.t.Node? && node.right == c.t.self
              && HoleOf(c.p) == AtRight && dupNode == AboveCopy(c.p, top) && Outermost(c.p.up, c.p.m) == dupRoot
              && Remaining(c.p) + Size(c.t) == Left(c0)
  {
    hide *;
    node, dupNode, c := from, dupFrom, c0;
    var prev: BinTree? := null;
    while node.right == prev || node.right == null
      invariant Holds(s, top) && s.self.parent == top && RightSpine(s.self, ancestors)
      invariant Climbing(s, c, node, dupNode, prev, dupRoot, top, ancestors) && c.k >= -1 && dupNode != null
      invariant CopiesOf(c) == CopiesOf(c0) && Left(c) == Left(c0)
      decreases c.finished, Depth(c.p), |ancestors| - c.k
    {
      ClimbShape(s, c, node, dupNode, prev, dupRoot, top, ancestors);
      ClimbStep(s, c, node, dupNode, prev, dupRoot, top, ancestors);
      ClimbUpFacts(c);
      prev := node;
      dupNode := dupNode.parent;
      if node.parent == null {
        return true, node, dupNode, c;
      }
      node := node.parent;
      c := ClimbUp(c);
      ClimbShape(s, c, node, dupNode, prev, dupRoot, top, ancestors);
    }
    ClimbShape(s, c, node, dupNode, prev, dupRoot, top, ancestors);
    out := false;
  }

  /** The copy is a new tree with the same tokens in the same places, below the same
      parent; the source is left alone. The walk climbs past the root, so it relies on
      the root's ancestors having nothing on their right but the way up. */
  method DuplicateTree(root: BinTree, ghost s: Shape, ghost ancestors: seq<BinTree>)
    returns (dupRoot: BinTree, ghost d: Shape)
    requires s.Node? && s.self == root && Holds(s, root.parent) && RightSpine(root, ancestors)
    ensures d.Node? && d.self == dupRoot && fresh(Nodes(d))
    ensures Holds(d, root.parent) && Skeleton(d) == Skeleton(s)
  {
    hide *;
    ghost var top := root.parent;
    var node: BinTree, dupNode: BinTree?, hole := root, root.parent, AtRoot;
    ghost var t, p := s, Here;
    dupRoot := root;
    NodesAllocated(s);
    RootIn(s);
    EnteringStart(s, top);
    while true
      invariant Holds(s, top) && root.parent == top && RightSpine(root, ancestors)
      invariant Entering(s, t, p, top) && t.Node? && node == t.self && hole == HoleOf(p) && dupNode == AboveCopy(p, top)
      invariant fresh(Copies(p))
      invariant !p.Here? ==> Outermost(p.up, p.m) == dupRoot
      decreases Size(t) + Remaining(p)
    {
      EnteringNow(s, t, p, top);
      PathTop(p, dupRoot, top);
      var q := PlaceNode(node.token, hole, dupNode, p, top);
      PlacedRoot(p, q, dupRoot);
      if hole == AtRoot {
        dupRoot := q;
      }
      dupNode := q;
      Placed(s, t, p, q, top);
      SourceNow(s, t, p, top);
      SizeOf(t, p, q);
      if node.left != null {
        p, t, node, hole := OnLeft(node, q, t.right, p), t.left, node.left, AtLeft;
      } else {
        ghost var c := ClimbStart(s, t, p, q, dupRoot, top, ancestors);
        var out;
        out, node, dupNode, c := ClimbOut(node, q, s, c, dupRoot, top, ancestors);
        if out {
          return dupRoot, c.d;
        }
        p, t, node, hole := c.p, c.t, node.right, AtRight;
      }
    }
  }

  lemma {:induction false} RootIn(s: Shape)
    requires s.Node?
    ensures s.self in Nodes(s)
  {
  }

  /** Where the next node is linked: at a copy, unless it is the root. */
  lemma {:induction false} PathTop(p: Path, dupRoot: BinTree, top: BinTree?)
    ensures HoleOf(p) == AtRoot <==> p.Here?
    ensures p.Here? ==> AboveCopy(p, top) == top
    ensures !p.Here? ==> AboveCopy(p, top) == p.m && p.m in Copies(p)
  {
  }

  lemma {:induction false} PlacedRoot(p: Path, q: BinTree, dupRoot: BinTree)
    requires !p.Here? ==> Outermost(p.up, p.m) == dupRoot
    ensures Outermost(p, q) == if p.Here? then q else dupRoot
  {
  }

  lemma {:induction false} SizeOf(t: Shape, p: Path, q: BinTree)
    requires t.Node?
    ensures var l := OnLeft(t.self, q, t.right, p);
            && Size(t.left) + Remaining(l) < Size(t) + Remaining(p)
            && Copies(l) == Copies(p) + {q} && HoleOf(l) == AtLeft && (forall top :: AboveCopy(l, top) == q)
            && Outermost(l.up, l.m) == Outermost(p, q)
    ensures t.left.Nil? ==> Size(t.right) + Remaining(p) < Size(t) + Remaining(p)
    ensures t.left.Node? ==> Root(t.left) == t.left.self
    ensures t.left.Nil? ==> Root(t.left) == null
  {
  }

  lemma {:induction false} ClimbShape(s: Shape, c: Climb, node: BinTree, dupNode: BinTree?, prev: BinTree?,
                                      dupRoot: BinTree, top: BinTree?, ancestors: seq<BinTree>)
    requires Climbing(s, c, node, dupNode, prev, dupRoot, top, ancestors)
    ensures c.finished <==> node.right == prev || node.right == null
    ensures c.k < |ancestors| && dupNode != null && (c.finished ==> c.d.Node?)
    ensures CopiesOf(c) == Copies(c.p) + Nodes(c.d)
    ensures c.finished && c.k >= 0 ==> c.p.Here?
    ensures !c.finished ==>
              && Entering(s, c.t, c.p, top) && c.p.OnRight? && c.t.Node? && node.right == c.t.self
              && HoleOf(c.p) == AtRight && dupNode == AboveCopy(c.p, top) && Outermost(c.p.up, c.p.m) == dupRoot
              && Left(c) == Remaining(c.p) + Size(c.t)
  {
  }
}
