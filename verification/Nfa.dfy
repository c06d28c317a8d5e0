/** The NFA that `link_nfa_nodes` builds and what its paths spell
    (src/regex/regcomp.c). */
module Nfa {
  import opened Language

  /** nodes, nexts and edests of `re_dfa_t`; -1 in `nexts` means unset. */
  datatype Nfa = Nfa(nodes: seq<Token>, nexts: seq<int>, edests: seq<seq<nat>>)

  /** A tree whose nodes carry `first->node_idx`. */
  datatype ITree = Nil | Node(tok: Token, idx: nat, left: ITree, right: ITree)

  ghost function Erase(t: ITree): Tree {
    match t
    case Nil => Tree.Nil
    case Node(tok, _, l, r) => Tree.Node(tok, Erase(l), Erase(r))
  }

  /** The two destinations of a branching node, as re_node_set_init_2 stores them. */
  function Pair(a: nat, b: nat): (r: seq<nat>)
    ensures forall x :: x in r <==> x == a || x == b
  {
    if a == b then [a] else if a < b then [a, b] else [b, a]
  }

  function Entry(t: ITree, k: nat): nat {
    if t.Nil? then k else t.idx
  }

  /** `t` is wired into `g` with everything after it starting at node `k`. */
  ghost predicate Wired(g: Nfa, t: ITree, k: nat) {
    match t
    case Nil => true
    case Node(tok, i, l, r) =>
      if tok.Concat? then
        l.Node? && r.Node? && i == l.idx && Wired(g, l, r.idx) && Wired(g, r, k)
      else
        && i < |g.nodes| == |g.nexts| == |g.edests| && g.nodes[i] == tok
        && match tok {
             case Star => l.Node? && r.Nil? && g.edests[i] == Pair(l.idx, k) && Wired(g, l, i)
             case Alt => g.edests[i] == Pair(Entry(l, k), Entry(r, k)) && Wired(g, l, k) && Wired(g, r, k)
             case OpenSubexp => l.Nil? && r.Nil? && g.edests[i] == [k]
             case CloseSubexp => l.Nil? && r.Nil? && g.edests[i] == [k]
             case EndOfRe => false
             case _ => l.Nil? && r.Nil? && g.edests[i] == [] && g.nexts[i] == k
           }
  }

  /** The final node: `parse` ends every pattern with END_OF_RE. */
  ghost predicate IsEnd(g: Nfa, e: nat) {
    e < |g.nodes| == |g.nexts| == |g.edests| && g.nodes[e] == EndOfRe && g.edests[e] == []
  }

  /** A path of `n` moves from `q` to END_OF_RE that spells `w`. */
  ghost predicate Run(syn: Syntax, g: Nfa, q: int, w: seq<Byte>, n: nat)
    decreases n
  {
    && 0 <= q < |g.nodes| == |g.nexts| == |g.edests|
    && if n == 0 then g.nodes[q] == EndOfRe && w == []
       else
         || (w != [] && Accepts(syn, g.nodes[q], w[0]) && Run(syn, g, g.nexts[q], w[1..], n - 1))
         || exists e :: e in g.edests[q] && Run(syn, g, e, w, n - 1)
  }

  ghost predicate Spells(syn: Syntax, g: Nfa, q: int, w: seq<Byte>) {
    exists n :: Run(syn, g, q, w, n)
  }

  lemma {:induction false} WiredConcat(g: Nfa, t: ITree, k: nat)
    requires t.Node? && t.tok.Concat? && Wired(g, t, k)
    ensures t.left.Node? && t.right.Node? && t.idx == t.left.idx
    ensures Wired(g, t.left, t.right.idx) && Wired(g, t.right, k)
    ensures Erase(t) == Tree.Node(Concat, Erase(t.left), Erase(t.right))
  {
  }

  lemma {:induction false} WiredStar(g: Nfa, t: ITree, k: nat)
    requires t.Node? && t.tok.Star? && Wired(g, t, k)
    ensures t.left.Node? && Wired(g, t.left, t.idx) && Erase(t) == Tree.Node(Star, Erase(t.left), Tree.Nil)
  {
  }

  /** The first move of a path from a branching node. */
  lemma {:induction false} BranchMove(syn: Syntax, g: Nfa, t: ITree, k: nat, w: seq<Byte>, n: nat) returns (e: nat)
    requires t.Node? && (t.tok.Star? || t.tok.Alt?) && Wired(g, t, k) && Run(syn, g, t.idx, w, n)
    ensures n > 0 && Run(syn, g, e, w, n - 1)
    ensures e == Entry(t.left, k) || e == if t.tok.Star? then k else Entry(t.right, k)
  {
    e :| e in g.edests[t.idx] && Run(syn, g, e, w, n - 1);
  }

  lemma {:induction false} CutTwice(w: seq<Byte>, i: nat, j: nat)
    requires i <= |w| && j <= |w[i..]|
    ensures i + j <= |w| && w[i..][j..] == w[i + j..]
  {
  }

  lemma {:induction false} CutNothing(w: seq<Byte>)
    ensures w[..0] == [] && w[0..] == w
  {
  }

  lemma {:induction false} StarEmpty(syn: Syntax, t: Tree)
    requires t.Node? && t.tok == Star
    ensures In(syn, t, [])
  {
  }

  lemma {:induction false} WiredAlt(g: Nfa, t: ITree, k: nat)
    requires t.Node? && t.tok.Alt? && Wired(g, t, k)
    ensures Wired(g, t.left, k) && Wired(g, t.right, k)
    ensures Erase(t) == Tree.Node(Alt, Erase(t.left), Erase(t.right))
  {
  }

  /** A word of either side is a word of the alternation; a missing side has the empty one. */
  lemma {:induction false} AltEither(syn: Syntax, t: ITree, side: ITree, u: seq<Byte>)
    requires t.Node? && t.tok.Alt? && (side == t.left || side == t.right)
    requires if side.Node? then In(syn, Erase(side), u) else u == []
    ensures In(syn, Erase(t), u)
  {
  }

  lemma {:induction false} ConcatCons(syn: Syntax, t: Tree, w: seq<Byte>, i: nat, v: seq<Byte>, j: nat)
    requires t.Node? && t.tok == Concat && i <= |w| && v == w[i..] && j <= |v|
    requires In(syn, t.left, w[..i]) && In(syn, t.right, v[..j])
    ensures i + j <= |w| && In(syn, t, w[..i + j]) && w[i + j..] == v[j..]
  {
    CutTwice(w, i, j);
    var u := w[..i + j];
    assert u[..i] == w[..i] && u[i..] == v[..j];
  }

  /** A body word followed by a star word is a star word, also when the body word is empty. */
  lemma {:induction false} StarCons(syn: Syntax, t: Tree, w: seq<Byte>, i: nat, v: seq<Byte>, j: nat)
    requires t.Node? && t.tok == Star && i <= |w| && v == w[i..] && j <= |v|
    requires In(syn, t.left, w[..i]) && In(syn, t, v[..j])
    ensures i + j <= |w| && In(syn, t, w[..i + j]) && w[i + j..] == v[j..]
  {
    CutTwice(w, i, j);
    var u := w[..i + j];
    assert u[..i] == w[..i] && u[i..] == v[..j];
    if i == 0 {
      assert u[0..] == u;
    }
  }

  /** One byte read by a leaf, or one move through an empty one. */
  lemma {:induction false} LeafSplits(syn: Syntax, g: Nfa, t: ITree, k: nat, w: seq<Byte>, n: nat)
    returns (i: nat, m: nat)
    requires t.Node? && !t.tok.Concat? && !t.tok.Star? && !t.tok.Alt?
    requires Wired(g, t, k) && Run(syn, g, t.idx, w, n)
    ensures i <= |w| && m <= n && In(syn, Erase(t), w[..i]) && Run(syn, g, k, w[i..], m)
  {
    i, m := if Consumes(t.tok) then 1 else 0, n - 1;
    assert i == 0 ==> w[i..] == w;
  }

  /** Paths through a wired tree come out at its continuation after spelling a
      word of the tree. */
  lemma {:induction false} PathSplits(syn: Syntax, g: Nfa, t: ITree, k: nat, w: seq<Byte>, n: nat)
    returns (i: nat, m: nat)
    requires t.Node? && Wired(g, t, k) && Run(syn, g, t.idx, w, n)
    ensures i <= |w| && m <= n && In(syn, Erase(t), w[..i]) && Run(syn, g, k, w[i..], m)
    decreases n, t
  {
    hide Run, In, Wired, Erase;
    match t.tok {
      case Concat =>
        WiredConcat(g, t, k);
        var a, m' := PathSplits(syn, g, t.left, t.right.idx, w, n);
        var v := w[a..];
        var b, m'' := PathSplits(syn, g, t.right, k, v, m');
        ConcatCons(syn, Erase(t), w, a, v, b);
        i, m := a + b, m'';
      case Star =>
        WiredStar(g, t, k);
        var e := BranchMove(syn, g, t, k, w, n);
        if e == k {
          i, m := 0, n - 1;
          CutNothing(w);
          StarEmpty(syn, Erase(t));
        } else {
          var a, m' := PathSplits(syn, g, t.left, t.idx, w, n - 1);
          var v := w[a..];
          var b, m'' := PathSplits(syn, g, t, k, v, m');
          StarCons(syn, Erase(t), w, a, v, b);
          i, m := a + b, m'';
        }
      case Alt =>
        WiredAlt(g, t, k);
        var e := BranchMove(syn, g, t, k, w, n);
        var side := if e == Entry(t.left, k) then t.left else t.right;
        if side.Node? {
          i, m := PathSplits(syn, g, side, k, w, n - 1);
        } else {
          i, m := 0, n - 1;
          CutNothing(w);
        }
        AltEither(syn, t, side, w[..i]);
      case _ =>
        i, m := LeafSplits(syn, g, t, k, w, n);
    }
  }

  lemma {:induction false} EpsilonMove(syn: Syntax, g: Nfa, q: nat, e: nat, w: seq<Byte>, m: nat)
    requires q < |g.nodes| == |g.nexts| == |g.edests| && e in g.edests[q] && Run(syn, g, e, w, m)
    ensures Run(syn, g, q, w, m + 1)
  {
  }

  /** Every word of a wired tree can be spelled before continuing at `k`. */
  lemma {:induction false} WordHasPath(syn: Syntax, g: Nfa, t: ITree, k: nat, u: seq<Byte>, v: seq<Byte>, m: nat)
    returns (n: nat)
    requires t.Node? && Wired(g, t, k) && In(syn, Erase(t), u) && Run(syn, g, k, v, m)
    ensures Run(syn, g, t.idx, u + v, n)
    decreases t, |u|, 1
  {
    if t.tok.Concat? {
      n := ConcatHasPath(syn, g, t, k, u, v, m);
    } else if t.tok.Star? {
      n := StarHasPath(syn, g, t, k, u, v, m);
    } else if t.tok.Alt? {
      n := AltHasPath(syn, g, t, k, u, v, m);
    } else {
      n := m + 1;
      assert Consumes(t.tok) ==> (u + v)[0] == u[0] && (u + v)[1..] == v;
      assert !Consumes(t.tok) ==> u + v == v && k in g.edests[t.idx];
    }
  }

  lemma {:induction false} ConcatHasPath(syn: Syntax, g: Nfa, t: ITree, k: nat, u: seq<Byte>, v: seq<Byte>, m: nat)
    returns (n: nat)
    requires t.Node? && t.tok.Concat? && Wired(g, t, k) && In(syn, Erase(t), u) && Run(syn, g, k, v, m)
    ensures Run(syn, g, t.idx, u + v, n)
    decreases t, |u|, 0
  {
    hide Run;
    var l, r := t.left, t.right;
    var i :| 0 <= i <= |u| && In(syn, Erase(l), u[..i]) && In(syn, Erase(r), u[i..]);
    var n' := WordHasPath(syn, g, r, k, u[i..], v, m);
    n := WordHasPath(syn, g, l, r.idx, u[..i], u[i..] + v, n');
    assert u[..i] + (u[i..] + v) == u + v;
  }

  lemma {:induction false} AltHasPath(syn: Syntax, g: Nfa, t: ITree, k: nat, u: seq<Byte>, v: seq<Byte>, m: nat)
    returns (n: nat)
    requires t.Node? && t.tok.Alt? && Wired(g, t, k) && In(syn, Erase(t), u) && Run(syn, g, k, v, m)
    ensures Run(syn, g, t.idx, u + v, n)
    decreases t, |u|, 0
  {
    hide Run;
    var s := if In(syn, Erase(t.left), u) then t.left else t.right;
    var n' := m;
    if s.Node? {
      n' := WordHasPath(syn, g, s, k, u, v, m);
    } else {
      assert u + v == v;
    }
    EpsilonMove(syn, g, t.idx, Entry(s, k), u + v, n');
    n := n' + 1;
  }

  lemma {:induction false} StarHasPath(syn: Syntax, g: Nfa, t: ITree, k: nat, u: seq<Byte>, v: seq<Byte>, m: nat)
    returns (n: nat)
    requires t.Node? && t.tok.Star? && Wired(g, t, k) && In(syn, Erase(t), u) && Run(syn, g, k, v, m)
    ensures Run(syn, g, t.idx, u + v, n)
    decreases t, |u|, 0
  {
    hide Run;
    if u == [] {
      assert u + v == v;
      EpsilonMove(syn, g, t.idx, k, v, m);
      n := m + 1;
    } else {
      var i :| 0 < i <= |u| && In(syn, Erase(t.left), u[..i]) && In(syn, Erase(t), u[i..]);
      var n' := StarHasPath(syn, g, t, k, u[i..], v, m);
      n' := WordHasPath(syn, g, t.left, t.idx, u[..i], u[i..] + v, n');
      assert u[..i] + (u[i..] + v) == u + v;
      EpsilonMove(syn, g, t.idx, t.left.idx, u + v, n');
      n := n' + 1;
    }
  }

  /** The whole pattern: the paths from its entry node to END_OF_RE spell
      exactly its language. */
  lemma {:induction false} NfaSpellsLanguage(syn: Syntax, g: Nfa, t: ITree, e: nat, w: seq<Byte>)
    requires Wired(g, t, e) && IsEnd(g, e)
    ensures Spells(syn, g, Entry(t, e), w) <==> In(syn, Erase(t), w)
  {
    if Spells(syn, g, Entry(t, e), w) {
      var n :| Run(syn, g, Entry(t, e), w, n);
      if t.Node? {
        var i, m := PathSplits(syn, g, t, e, w, n);
        assert w[i..] == [];
        assert w[..i] == w;
      }
    }
    if In(syn, Erase(t), w) {
      assert Run(syn, g, e, [], 0);
      assert w + [] == w;
      if t.Node? {
        var n := WordHasPath(syn, g, t, e, w, [], 0);
      } else {
        assert Run(syn, g, e, w, 0);
      }
    }
  }

  /** Every edge leads to a node, every byte-consuming node has a successor,
      and `last` is the only END_OF_RE. */
  ghost predicate Closed(g: Nfa, last: nat) {
    |g.nodes| == |g.nexts| == |g.edests| && forall q :: 0 <= q < |g.nodes| ==> Closed1(g, q, last)
  }

  ghost predicate Closed1(g: Nfa, q: nat, last: nat)
    requires q < |g.nodes| == |g.nexts| == |g.edests|
  {
    && (Consumes(g.nodes[q]) ==> 0 <= g.nexts[q] < |g.nodes|)
    && (!IsEpsilon(g.nodes[q]) ==> g.edests[q] == [])
    && (g.nodes[q] == EndOfRe <==> q == last)
    && g.nodes[q] != Concat
    && (forall e :: e in g.edests[q] ==> e < |g.nodes|)
  }
}
