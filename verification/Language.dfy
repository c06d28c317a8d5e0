/** Parse trees of the regex compiler and the languages they denote
    (token and tree types of src/regex/regex_internal.h). */
module Language {

  type Byte = b: nat | b < 256

  const NEWLINE: Byte := 10
  const NUL: Byte := 0

  /** The token types that reach the NFA builder in a single-byte locale
      without anchors or back-references. */
  datatype Token =
    | Character(c: Byte)
    | SimpleBracket(sbcset: set<Byte>)
    | Period
    | EndOfRe
    | OpenSubexp
    | CloseSubexp
    | Alt
    | Star
    | Concat

  /** RE_DOT_NEWLINE and RE_DOT_NOT_NULL. */
  datatype Syntax = Syntax(dotNewline: bool, dotNotNull: bool)

  predicate IsEpsilon(t: Token) {
    t.Alt? || t.Star? || t.OpenSubexp? || t.CloseSubexp?
  }

  predicate Consumes(t: Token) {
    t.Character? || t.SimpleBracket? || t.Period?
  }

  /** check_node_accept, in the fragment where no node has a constraint. */
  predicate Accepts(syn: Syntax, t: Token, ch: Byte) {
    match t
    case Character(c) => c == ch
    case SimpleBracket(s) => ch in s
    case Period => !(ch == NEWLINE && !syn.dotNewline) && !(ch == NUL && syn.dotNotNull)
    case _ => false
  }

  /** A parse tree; `Nil` is a NULL child. */
  datatype Tree = Nil | Node(tok: Token, left: Tree, right: Tree)

  /** The shapes the parser hands to `analyze`: leaves have no children, CONCAT
      has both, a star has exactly its body; either branch of OP_ALT may be missing. */
  ghost predicate WellFormed(t: Tree) {
    match t
    case Nil => true
    case Node(tok, l, r) =>
      && WellFormed(l) && WellFormed(r)
      && match tok {
           case Concat => l.Node? && r.Node?
           case Star => l.Node? && r.Nil?
           case Alt => true
           case EndOfRe => false
           case _ => l.Nil? && r.Nil?
         }
  }

  /** Every bracket contains some byte. */
  ghost predicate Inhabited(t: Tree) {
    match t
    case Nil => true
    case Node(tok, l, r) => Inhabited(l) && Inhabited(r) && (tok.SimpleBracket? ==> tok.sbcset != {})
  }

  /** `w` is in the language of `t`. */
  ghost predicate In(syn: Syntax, t: Tree, w: seq<Byte>)
    decreases t, |w|
  {
    match t
    case Nil => w == []
    case Node(tok, l, r) =>
      match tok {
        case Concat => exists i :: 0 <= i <= |w| && In(syn, l, w[..i]) && In(syn, r, w[i..])
        case Alt => In(syn, l, w) || In(syn, r, w)
        case Star => w == [] || exists i :: 0 < i <= |w| && In(syn, l, w[..i]) && In(syn, t, w[i..])
        case OpenSubexp => w == []
        case CloseSubexp => w == []
        case EndOfRe => w == []
        case _ => |w| == 1 && Accepts(syn, tok, w[0])
      }
  }

  /** A concatenation denotes the words of one side followed by words of the other. */
  lemma {:induction false} ConcatWords(syn: Syntax, l: Tree, r: Tree, w: seq<Byte>)
    ensures In(syn, Node(Concat, l, r), w) <==> exists u, v :: In(syn, l, u) && In(syn, r, v) && w == u + v
  {
    if In(syn, Node(Concat, l, r), w) {
      var i :| 0 <= i <= |w| && In(syn, l, w[..i]) && In(syn, r, w[i..]);
      assert w == w[..i] + w[i..];
    }
    if u, v :| In(syn, l, u) && In(syn, r, v) && w == u + v {
      assert w[..|u|] == u && w[|u|..] == v;
    }
  }

  /** `w` is `k` consecutive words of `t`. */
  ghost predicate Pow(syn: Syntax, t: Tree, k: nat, w: seq<Byte>) {
    if k == 0 then w == []
    else exists i :: 0 <= i <= |w| && In(syn, t, w[..i]) && Pow(syn, t, k - 1, w[i..])
  }

  /** A star denotes every power of its body. */
  lemma {:induction false} StarIsPow(syn: Syntax, t: Tree, w: seq<Byte>)
    ensures In(syn, Node(Star, t, Nil), w) ==> exists k: nat :: Pow(syn, t, k, w)
    ensures (exists k: nat :: Pow(syn, t, k, w)) ==> In(syn, Node(Star, t, Nil), w)
  {
    if In(syn, Node(Star, t, Nil), w) {
      var k := StarToPow(syn, t, w);
      assert Pow(syn, t, k, w);
    }
    if exists k: nat :: Pow(syn, t, k, w) {
      var k :| Pow(syn, t, k, w);
      PowToStar(syn, t, k, w);
    }
  }

  lemma {:induction false} StarToPow(syn: Syntax, t: Tree, w: seq<Byte>) returns (k: nat)
    requires In(syn, Node(Star, t, Nil), w)
    ensures Pow(syn, t, k, w)
    decreases |w|
  {
    if w == [] {
      k := 0;
    } else {
      var i :| 0 < i <= |w| && In(syn, t, w[..i]) && In(syn, Node(Star, t, Nil), w[i..]);
      var k' := StarToPow(syn, t, w[i..]);
      k := k' + 1;
    }
  }

  lemma {:induction false} PowToStar(syn: Syntax, t: Tree, k: nat, w: seq<Byte>)
    requires Pow(syn, t, k, w)
    ensures In(syn, Node(Star, t, Nil), w)
  {
    if k > 0 {
      var i :| 0 <= i <= |w| && In(syn, t, w[..i]) && Pow(syn, t, k - 1, w[i..]);
      PowToStar(syn, t, k - 1, w[i..]);
      if i == 0 {
        assert w[0..] == w;
      }
    }
  }
}
