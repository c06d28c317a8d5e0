/** Repetition operators: reading the bounds of an interval and rewriting
    `r{n,m}` into concatenations, optional parts and stars
    (fetch_number and parse_dup_op of src/regex/regcomp.c). */
module DupOp {
  import opened Language
  import opened BinTrees
  import opened DupTree

  const RE_DUP_MAX: nat := 0x7fff
  const COMMA: Byte := 44
  const ZERO: Byte := 48

  datatype Kind = CharTok | CloseDupNum | EndTok | OtherTok

  /** A token of the pattern text: its type and `opr.c`. */
  datatype DupTok = DupTok(kind: Kind, c: Byte)

  function TokAt(toks: seq<DupTok>, pos: nat): DupTok {
    if pos < |toks| then toks[pos] else DupTok(EndTok, 0)
  }

  predicate IsDigit(t: DupTok) {
    t.kind == CharTok && ZERO <= t.c <= 57
  }

  predicate StopsNumber(t: DupTok) {
    t.kind == CloseDupNum || t.c == COMMA
  }

  /** Where the number field that starts at `pos` ends. */
  ghost function FieldEnd(toks: seq<DupTok>, pos: nat): (e: nat)
    ensures pos <= e
    decreases |toks| - pos
  {
    if TokAt(toks, pos).kind == EndTok || StopsNumber(TokAt(toks, pos)) || pos >= |toks| then pos
    else FieldEnd(toks, pos + 1)
  }

  ghost function DecimalValue(ds: seq<DupTok>): nat
    requires forall d :: d in ds ==> IsDigit(d)
  {
    if ds == [] then 0
    else
      assert IsDigit(ds[|ds| - 1]) && forall d :: d in ds[..|ds| - 1] ==> d in ds;
      DecimalValue(ds[..|ds| - 1]) * 10 + (ds[|ds| - 1].c - ZERO)
  }

  function Min(a: int, b: int): int {
    if a < b then a else b
  }

  ghost predicate AllDigits(ds: seq<DupTok>) {
    forall d :: d in ds ==> IsDigit(d)
  }

  /** The value of a field's tokens: -1 when there are none, -2 when one is not a
      digit, otherwise the number, capped at RE_DUP_MAX + 1. */
  ghost function FieldValue(ds: seq<DupTok>): int {
    if ds == [] then -1
    else if AllDigits(ds) then Min(RE_DUP_MAX + 1, DecimalValue(ds))
    else -2
  }

  lemma {:induction false} FieldGrows(ds: seq<DupTok>, t: DupTok)
    ensures var num := FieldValue(ds);
            FieldValue(ds + [t]) ==
            if !IsDigit(t) || num == -2 then -2
            else if num == -1 then t.c - ZERO
            else Min(RE_DUP_MAX + 1, num * 10 + t.c - ZERO)
  {
    var es := ds + [t];
    assert es[..|es| - 1] == ds && es[|es| - 1] == t;
    assert t in es && forall d :: d in ds ==> d in es;
    assert AllDigits(es) <==> AllDigits(ds) && IsDigit(t);
    if ds == [] && IsDigit(t) {
      assert DecimalValue(es) == t.c - ZERO;
    }
  }

  lemma {:induction false} FieldEndStep(toks: seq<DupTok>, pos: nat, p: nat)
    requires pos <= p < FieldEnd(toks, pos)
    ensures p < |toks| && TokAt(toks, p).kind != EndTok && !StopsNumber(TokAt(toks, p))
    ensures FieldEnd(toks, p + 1) == FieldEnd(toks, pos)
    decreases p - pos
  {
    if p > pos {
      FieldEndStep(toks, pos, p - 1);
      FieldEndStop(toks, p);
    }
  }

  lemma {:induction false} FieldEndStop(toks: seq<DupTok>, pos: nat)
    ensures FieldEnd(toks, pos) == pos <==>
              TokAt(toks, pos).kind == EndTok || StopsNumber(TokAt(toks, pos))
  {
  }

  /** fetch_number: the value of the field, and the token that ended it. */
  method FetchNumber(toks: seq<DupTok>, pos: nat) returns (num: int, tok: DupTok, next: nat)
    ensures next == FieldEnd(toks, pos) + 1 && tok == TokAt(toks, FieldEnd(toks, pos))
    ensures tok.kind == EndTok ==> num == -2
    ensures tok.kind != EndTok ==> FieldEnd(toks, pos) <= |toks| && num == FieldValue(toks[pos..FieldEnd(toks, pos)])
    ensures tok.kind == EndTok || tok.kind == CloseDupNum || tok.c == 44
    ensures forall k :: pos <= k < next - 1 ==>
              k < |toks| && toks[k].kind != EndTok && toks[k].kind != CloseDupNum && toks[k].c != 44
  {
    num, next := -1, pos;
    while true
      invariant pos <= next <= FieldEnd(toks, pos) == FieldEnd(toks, next)
      invariant next <= |toks| || next == pos
      invariant next <= |toks| ==> num == FieldValue(toks[pos..next])
      invariant forall k :: pos <= k < next ==>
                  k < |toks| && toks[k].kind != EndTok && toks[k].kind != CloseDupNum && toks[k].c != 44
      decreases FieldEnd(toks, pos) - next
    {
      tok := TokAt(toks, next);
      FieldEndStop(toks, next);
      next := next + 1;
      if tok.kind == EndTok {
        return -2, tok, next;
      }
      if tok.kind == CloseDupNum || tok.c == COMMA {
        return num, tok, next;
      }
      FieldEndStep(toks, pos, next - 1);
      FieldGrows(toks[pos..next - 1], tok);
      assert toks[pos..next] == toks[pos..next - 1] + [tok];
      num := if tok.kind != CharTok || tok.c < ZERO || 57 < tok.c || num == -2 then -2
             else if num == -1 then tok.c - ZERO
             else Min(RE_DUP_MAX + 1, num * 10 + tok.c - ZERO);
    }
  }

  /** Any digit string of any length is read as its value, capped. */
  lemma {:induction false} FieldOfDigits(toks: seq<DupTok>, pos: nat, e: nat)
    requires pos < e < |toks| && AllDigits(toks[pos..e]) && StopsNumber(toks[e])
    ensures FieldEnd(toks, pos) == e
    ensures FieldValue(toks[pos..e]) == Min(RE_DUP_MAX + 1, DecimalValue(toks[pos..e]))
    decreases e - pos
  {
    assert toks[pos] in toks[pos..e];
    if pos + 1 < e {
      assert forall d :: d in toks[pos + 1..e] ==> d in toks[pos..e];
      FieldOfDigits(toks, pos + 1, e);
    }
  }

  function TenTo(n: nat): nat {
    if n == 0 then 1 else 10 * TenTo(n - 1)
  }

  /** The first digit counts most. */
  lemma {:induction false} DecimalFront(d: DupTok, ds: seq<DupTok>)
    requires AllDigits([d] + ds)
    ensures AllDigits(ds) && DecimalValue([d] + ds) == (d.c - 48) * TenTo(|ds|) + DecimalValue(ds)
  {
    var all, n := [d] + ds, |ds| - 1;
    assert all[0] == d && forall x :: x in ds ==> x in all;
    if ds == [] {
      assert all[..0] == [];
    } else {
      var less := [d] + ds[..n];
      assert all[..|all| - 1] == less && all[|all| - 1] == ds[n];
      assert forall x :: x in less ==> x in all;
      DecimalFront(d, ds[..n]);
      TenTimes(d.c - 48, TenTo(n), DecimalValue(ds[..n]));
    }
  }

  lemma {:induction false} TenTimes(a: int, b: int, c: int)
    ensures (a * b + c) * 10 == a * (10 * b) + c * 10
  {
    assert (a * b) * 10 == a * (10 * b);
  }

  datatype DupError = BadBr | EBrace | ESize

  /** `Bounds(lo, -1)` has no upper bound; `Literal` is the rollback that keeps the
      brace as an ordinary character. */
  datatype Interval = Bounds(lo: nat, hi: int) | Literal | Error(e: DupError)

  /** The text from `pos` is `n}`, `n,}`, `,m}`, `,}` or `n,m}` with these bounds. */
  ghost predicate Spells(toks: seq<DupTok>, pos: nat, lo: nat, hi: int) {
    var e1 := FieldEnd(toks, pos);
    && e1 < |toks| && toks[e1].kind != EndTok
    && var n := FieldValue(toks[pos..e1]);
       if toks[e1].kind == CloseDupNum then n == lo && hi == lo
       else
         && toks[e1].kind == CharTok
         && (n == lo || (n == -1 && lo == 0))
         && var e2 := FieldEnd(toks, e1 + 1);
            && e2 < |toks| && toks[e2].kind == CloseDupNum
            && hi == FieldValue(toks[e1 + 1..e2]) && hi != -2
  }

  /** The tokens `i..j` are digits, at least one, with this value, capped. */
  ghost predicate Number(toks: seq<DupTok>, i: nat, j: nat, n: int) {
    i < j <= |toks| && AllDigits(toks[i..j]) && n == Min(RE_DUP_MAX + 1, DecimalValue(toks[i..j]))
  }

  /** The interval read off the text: one number gives both bounds. With a comma at `i`, a
      number missing before it is 0, and one missing behind it leaves no upper bound. */
  ghost predicate ReadsAs(toks: seq<DupTok>, pos: nat, i: nat, j: nat, lo: nat, hi: int) {
    && pos <= i <= j < |toks| && toks[j].kind == CloseDupNum
    && if i == j then Number(toks, pos, i, lo) && hi == lo
       else
         && toks[i] == DupTok(CharTok, 44)
         && (if pos == i then lo == 0 else Number(toks, pos, i, lo))
         && (if i + 1 == j then hi == -1 else Number(toks, i + 1, j, hi))
  }

  lemma {:induction false} EmptyField(toks: seq<DupTok>, pos: nat)
    requires pos < |toks| && StopsNumber(toks[pos])
    ensures FieldEnd(toks, pos) == pos && toks[pos..pos] == []
  {
    FieldEndStop(toks, pos);
  }

  /** The field up to `e` is a number, or empty. */
  lemma {:induction false} FieldIs(toks: seq<DupTok>, pos: nat, e: nat, n: int)
    requires pos <= e < |toks| && StopsNumber(toks[e])
    requires if pos == e then n == -1 else Number(toks, pos, e, n)
    ensures FieldEnd(toks, pos) == e && FieldValue(toks[pos..e]) == n >= -1
  {
    hide FieldEnd;
    if pos == e {
      EmptyField(toks, pos);
    } else {
      FieldOfDigits(toks, pos, e);
    }
  }

  lemma {:induction false} FieldIsNumber(toks: seq<DupTok>, pos: nat)
    requires var e := FieldEnd(toks, pos); e < |toks| && FieldValue(toks[pos..e]) != -2
    ensures var e := FieldEnd(toks, pos); var n := FieldValue(toks[pos..e]);
            if pos == e then n == -1 else Number(toks, pos, e, n) && n >= 0
  {
  }

  /** Which texts spell which bounds. */
  lemma {:induction false} SpellsText(toks: seq<DupTok>, pos: nat, lo: nat, hi: int)
    ensures Spells(toks, pos, lo, hi) <==> exists i: nat, j: nat :: ReadsAs(toks, pos, i, j, lo, hi)
  {
    hide FieldEnd, FieldValue, AllDigits, DecimalValue;
    if i: nat, j: nat :| ReadsAs(toks, pos, i, j, lo, hi) {
      FieldIs(toks, pos, i, if pos == i then -1 else lo);
      if i < j {
        FieldIs(toks, i + 1, j, hi);
      }
      assert Spells(toks, pos, lo, hi);
    }
    if Spells(toks, pos, lo, hi) {
      var e1 := FieldEnd(toks, pos);
      FieldRange(toks, pos);
      FieldIsNumber(toks, pos);
      if toks[e1].kind == CloseDupNum {
        assert ReadsAs(toks, pos, e1, e1, lo, hi);
      } else {
        FieldIsNumber(toks, e1 + 1);
        assert ReadsAs(toks, pos, e1, FieldEnd(toks, e1 + 1), lo, hi);
      }
    }
  }

  /** The pattern ends inside the interval. */
  ghost predicate RunsOut(toks: seq<DupTok>, pos: nat) {
    var e1 := FieldEnd(toks, pos);
    || TokAt(toks, e1).kind == EndTok
    || (IsComma(TokAt(toks, e1)) && FieldValue(toks[pos..e1]) != -2
        && TokAt(toks, FieldEnd(toks, e1 + 1)).kind == EndTok)
  }

  predicate IsComma(t: DupTok) {
    t.kind == CharTok && t.c == COMMA
  }

  /** A bound is not a number, or the first one is not followed by a comma or brace. */
  ghost predicate Broken(toks: seq<DupTok>, pos: nat) {
    var e1 := FieldEnd(toks, pos);
    && TokAt(toks, e1).kind != EndTok
    && var n := FieldValue(toks[pos..e1]);
       || n == -2
       || (n != -1 && TokAt(toks, e1).kind != CloseDupNum && !IsComma(TokAt(toks, e1)))
       || (IsComma(TokAt(toks, e1))
           && var e2 := FieldEnd(toks, e1 + 1);
              TokAt(toks, e2).kind != EndTok && FieldValue(toks[e1 + 1..e2]) == -2)
  }

  /** The interval part of parse_dup_op. It succeeds exactly on well-formed bounds
      in order and not above RE_DUP_MAX, and then returns them; with
      RE_INVALID_INTERVAL_ORD some malformed text is taken literally. */
  method ParseInterval(toks: seq<DupTok>, pos: nat, invalidIntervalOrd: bool) returns (r: Interval)
    ensures r.Bounds? ==> Spells(toks, pos, r.lo, r.hi)
    ensures forall lo: nat, hi: int :: Spells(toks, pos, lo, hi) ==>
              r == if hi != -1 && lo > hi then Error(BadBr)
                   else if RE_DUP_MAX < (if hi == -1 then lo else hi) then Error(ESize)
                   else Bounds(lo, hi)
    ensures r.Literal? <==> invalidIntervalOrd && (RunsOut(toks, pos) || Broken(toks, pos))
    ensures r == Error(EBrace) <==> !invalidIntervalOrd && RunsOut(toks, pos)
    ensures r == Error(ESize) ==> exists lo: nat, hi: int :: Spells(toks, pos, lo, hi)
  {
    hide FieldValue;
    var start, tok, next := FetchNumber(toks, pos);
    var end := 0;
    FieldRange(toks, pos);
    if start == -1 {
      if tok.kind == CharTok && tok.c == COMMA {
        start := 0;
      } else {
        return Error(BadBr);
      }
    }
    if start != -2 {
      if tok.kind == CloseDupNum {
        end := start;
      } else if tok.kind == CharTok && tok.c == COMMA {
        FieldRange(toks, next);
        end, tok, next := FetchNumber(toks, next);
      } else {
        end := -2;
      }
    }
    if start == -2 || end == -2 {
      if !invalidIntervalOrd {
        return Error(if tok.kind == EndTok then EBrace else BadBr);
      }
      return Literal;
    }
    if (end != -1 && start > end) || tok.kind != CloseDupNum {
      return Error(BadBr);
    }
    if RE_DUP_MAX < (if end == -1 then start else end) {
      assert Spells(toks, pos, start, end);
      return Error(ESize);
    }
    r := Bounds(start, end);
  }

  lemma {:induction false} FieldRange(toks: seq<DupTok>, pos: nat)
    ensures var e := FieldEnd(toks, pos);
            e < |toks| ==> FieldValue(toks[pos..e]) >= -2 && (toks[e].kind == EndTok || StopsNumber(toks[e]))
    ensures FieldEnd(toks, pos) >= |toks| ==> TokAt(toks, FieldEnd(toks, pos)).kind == EndTok
    decreases |toks| - pos
  {
    FieldEndStop(toks, pos);
    var e := FieldEnd(toks, pos);
    if e > pos {
      FieldEndStep(toks, pos, pos);
      FieldRange(toks, pos + 1);
    }
  }

  /** `w` is between `lo` and `hi` words of `t`; -1 means no upper bound. */
  ghost predicate Repeated(syn: Syntax, t: Tree, lo: int, hi: int, w: seq<Byte>) {
    exists k: nat :: lo <= k && (hi == -1 || k <= hi) && Pow(syn, t, k, w)
  }

  /** `r` denotes the words of between `lo` and `hi` repetitions of `t`. */
  ghost predicate DenotesRange(syn: Syntax, r: Tree, t: Tree, lo: int, hi: int) {
    forall w :: In(syn, r, w) <==> Repeated(syn, t, lo, hi, w)
  }

  lemma {:induction false} PowCons(syn: Syntax, t: Tree, k: nat, w: seq<Byte>, j: nat)
    requires j <= |w| && In(syn, t, w[..j]) && Pow(syn, t, k, w[j..])
    ensures Pow(syn, t, k + 1, w)
  {
  }

  lemma {:induction false} PowUncons(syn: Syntax, t: Tree, k: nat, w: seq<Byte>) returns (j: nat)
    requires Pow(syn, t, k, w) && k > 0
    ensures j <= |w| && In(syn, t, w[..j]) && Pow(syn, t, k - 1, w[j..])
  {
    j :| 0 <= j <= |w| && In(syn, t, w[..j]) && Pow(syn, t, k - 1, w[j..]);
  }

  lemma {:induction false} PowZero(syn: Syntax, t: Tree, w: seq<Byte>)
    ensures Pow(syn, t, 0, w) <==> w == []
  {
  }

  lemma {:induction false} Slices(w: seq<Byte>, i: nat, j: nat)
    requires j <= i <= |w|
    ensures w[..i][..j] == w[..j] && w[..i][j..] == w[j..][..i - j] && w[j..][i - j..] == w[i..]
  {
  }

  lemma {:induction false} PowSplit(syn: Syntax, t: Tree, a: nat, b: nat, w: seq<Byte>) returns (i: nat)
    requires Pow(syn, t, a + b, w)
    ensures i <= |w| && Pow(syn, t, a, w[..i]) && Pow(syn, t, b, w[i..])
    decreases a
  {
    hide Pow, In;
    if a == 0 {
      i := 0;
      PowZero(syn, t, w[..0]);
      assert w[0..] == w;
    } else {
      var j := PowUncons(syn, t, a + b, w);
      var m := PowSplit(syn, t, a - 1, b, w[j..]);
      i := j + m;
      Slices(w, i, j);
      PowCons(syn, t, a - 1, w[..i], j);
    }
  }

  lemma {:induction false} PowJoin(syn: Syntax, t: Tree, a: nat, b: nat, w: seq<Byte>, i: nat)
    requires i <= |w| && Pow(syn, t, a, w[..i]) && Pow(syn, t, b, w[i..])
    ensures Pow(syn, t, a + b, w)
    decreases a
  {
    hide Pow, In;
    if a == 0 {
      PowZero(syn, t, w[..i]);
      assert w[i..] == w;
    } else {
      var j := PowUncons(syn, t, a, w[..i]);
      Slices(w, i, j);
      PowJoin(syn, t, a - 1, b, w[j..], i - j);
      PowCons(syn, t, a - 1 + b, w, j);
    }
  }

  lemma {:induction false} PowOne(syn: Syntax, t: Tree, w: seq<Byte>)
    ensures Pow(syn, t, 1, w) <==> In(syn, t, w)
  {
    hide Pow, In;
    if Pow(syn, t, 1, w) {
      var j := PowUncons(syn, t, 1, w);
      PowZero(syn, t, w[j..]);
      assert w[..j] == w;
    }
    if In(syn, t, w) {
      assert w[..|w|] == w;
      PowZero(syn, t, w[|w|..]);
      PowCons(syn, t, 0, w, |w|);
    }
  }

  /** Concatenation adds the bounds; -1 stays without bound. */
  lemma {:induction false} ConcatRanges(syn: Syntax, a: Tree, b: Tree, t: Tree, lo: nat, hi: nat, lo': nat, hi': int)
    requires DenotesRange(syn, a, t, lo, hi) && DenotesRange(syn, b, t, lo', hi')
    requires (lo == hi || (lo' == hi' && lo <= hi)) && (hi' == -1 || lo' <= hi')
    ensures DenotesRange(syn, Tree.Node(Concat, a, b), t, lo + lo', if hi' == -1 then -1 else hi + hi')
  {
    hide Pow, Repeated;
    var top := if hi' == -1 then -1 else hi + hi';
    forall w ensures In(syn, Tree.Node(Concat, a, b), w) <==> Repeated(syn, t, lo + lo', top, w) {
      if In(syn, Tree.Node(Concat, a, b), w) {
        var i :| 0 <= i <= |w| && In(syn, a, w[..i]) && In(syn, b, w[i..]);
        JoinRanges(syn, t, lo, hi, lo', hi', w, i);
      }
      if Repeated(syn, t, lo + lo', top, w) {
        var i := SplitRanges(syn, t, lo, hi, lo', hi', w);
        assert In(syn, a, w[..i]) && In(syn, b, w[i..]);
      }
    }
  }

  lemma {:induction false} JoinRanges(syn: Syntax, t: Tree, lo: nat, hi: nat, lo': nat, hi': int, w: seq<Byte>, i: nat)
    requires i <= |w| && Repeated(syn, t, lo, hi, w[..i]) && Repeated(syn, t, lo', hi', w[i..]) && hi' >= -1
    ensures Repeated(syn, t, lo + lo', if hi' == -1 then -1 else hi + hi', w)
  {
    hide Pow;
    var k: nat :| lo <= k <= hi && Pow(syn, t, k, w[..i]);
    var m: nat :| lo' <= m && (hi' == -1 || m <= hi') && Pow(syn, t, m, w[i..]);
    PowJoin(syn, t, k, m, w, i);
  }

  lemma {:induction false} SplitRanges(syn: Syntax, t: Tree, lo: nat, hi: nat, lo': nat, hi': int, w: seq<Byte>)
    returns (i: nat)
    requires (lo == hi || (lo' == hi' && lo <= hi)) && (hi' == -1 || lo' <= hi')
    requires Repeated(syn, t, lo + lo', if hi' == -1 then -1 else hi + hi', w)
    ensures i <= |w| && Repeated(syn, t, lo, hi, w[..i]) && Repeated(syn, t, lo', hi', w[i..])
  {
    hide Pow;
    var n: nat :| lo + lo' <= n && (hi' == -1 || n <= hi + hi') && Pow(syn, t, n, w);
    var k := if lo == hi then lo else n - lo';
    i := PowSplit(syn, t, k, n - k, w);
  }

  /** Making it optional. */
  lemma {:induction false} Optional(syn: Syntax, r: Tree, t: Tree, hi: nat)
    requires hi > 0 && DenotesRange(syn, r, t, 1, hi)
    ensures DenotesRange(syn, Tree.Node(Alt, r, Tree.Nil), t, 0, hi)
  {
    forall w ensures In(syn, Tree.Node(Alt, r, Tree.Nil), w) <==> Repeated(syn, t, 0, hi, w) {
      if w == [] {
        assert Pow(syn, t, 0, w);
      }
      if Repeated(syn, t, 0, hi, w) {
        var k: nat :| k <= hi && Pow(syn, t, k, w);
        assert k > 0 ==> Repeated(syn, t, 1, hi, w);
      }
    }
  }

  lemma {:induction false} OneCopy(syn: Syntax, t: Tree)
    ensures DenotesRange(syn, t, t, 1, 1)
  {
    forall w ensures In(syn, t, w) <==> Repeated(syn, t, 1, 1, w) {
      PowOne(syn, t, w);
    }
  }

  lemma {:induction false} StarRange(syn: Syntax, t: Tree)
    ensures DenotesRange(syn, Tree.Node(Star, t, Tree.Nil), t, 0, -1)
  {
    forall w ensures In(syn, Tree.Node(Star, t, Tree.Nil), w) <==> Repeated(syn, t, 0, -1, w) {
      StarIsPow(syn, t, w);
    }
  }

  /** The empty tree: its powers are all the empty word. */
  lemma {:induction false} NilRange(syn: Syntax, lo: nat, hi: int)
    requires hi == -1 || lo <= hi
    ensures DenotesRange(syn, Tree.Nil, Tree.Nil, lo, hi)
  {
    forall w ensures In(syn, Tree.Nil, w) <==> Repeated(syn, Tree.Nil, lo, hi, w) {
      if w == [] {
        NilPow(syn, lo, w);
      }
      forall k: nat | Pow(syn, Tree.Nil, k, w) ensures w == [] {
        NilPow(syn, k, w);
      }
    }
  }

  lemma {:induction false} NilPow(syn: Syntax, k: nat, w: seq<Byte>)
    ensures Pow(syn, Tree.Nil, k, w) <==> w == []
    decreases k
  {
    if k > 0 {
      forall i | 0 <= i <= |w| ensures Pow(syn, Tree.Nil, k - 1, w[i..]) <==> w[i..] == [] {
        NilPow(syn, k - 1, w[i..]);
      }
      if w == [] {
        assert w[..0] == [] && w[0..] == [];
      }
    }
  }

  lemma {:induction false} ZeroRange(syn: Syntax, t: Tree)
    ensures DenotesRange(syn, Tree.Nil, t, 0, 0)
  {
    forall w ensures In(syn, Tree.Nil, w) <==> Repeated(syn, t, 0, 0, w) {
      assert w == [] ==> Pow(syn, t, 0, w);
    }
  }

  /** create_tree over two trees that share no node. */
  method CreateTree(token: Token, left: BinTree?, right: BinTree?, ghost l: Shape, ghost r: Shape)
    returns (tree: BinTree, ghost s: Shape)
    requires Root(l) == left && Root(r) == right && Nodes(l) !! Nodes(r)
    requires (l.Node? ==> Holds(l, l.self.parent)) && (r.Node? ==> Holds(r, r.self.parent))
    modifies if left == null then {} else {left}
    modifies if right == null then {} else {right}
    ensures fresh(tree) && s == Shape.Node(tree, l, r) && Holds(s, null) && tree.token == token
    ensures tree.left == left && tree.right == right && tree.parent == null && tree.next == null
    ensures left != null ==> left.parent == tree && left.left == old(left.left) && left.right == old(left.right)
    ensures right != null ==> right.parent == tree && right.left == old(right.left) && right.right == old(right.right)
  {
    PartsAllocated(l);
    PartsAllocated(r);
    tree := new BinTree(token, left, right);
    s := Shape.Node(tree, l, r);
  }

  lemma {:induction false} PartsAllocated(s: Shape)
    ensures allocated(Nodes(s))
    ensures s.Node? ==> allocated(Nodes(s.left)) && allocated(Nodes(s.right))
  {
    NodesAllocated(s);
    if s.Node? {
      NodesAllocated(s.left);
      NodesAllocated(s.right);
    }
  }

  /** `tree` holds `s`, and `elem` in it holds `e` and sits where it can be duplicated. */
  ghost predicate Ready(tree: BinTree, s: Shape, elem: BinTree, e: Shape, ancestors: seq<BinTree>)
    reads Nodes(s), elem, Nodes(e), ancestors
  {
    && s.Node? && s.self == tree && Holds(s, null)
    && e.Node? && e.self == elem && Holds(e, elem.parent) && RightSpine(elem, ancestors)
  }

  lemma {:induction false} ReadyAlone(tree: BinTree, s: Shape)
    requires s.Node? && s.self == tree && Holds(s, null)
    ensures Ready(tree, s, tree, s, [])
  {
  }

  /** A tree just created, seen from its right or only child. */
  lemma {:induction false} ReadyChild(tree: BinTree, s: Shape, e: Shape)
    requires s.Node? && s.self == tree && Holds(s, null) && e.Node?
    requires s.right == e || (s.left == e && s.right.Nil?)
    ensures Ready(tree, s, e.self, e, [tree])
  {
    assert e.self.parent == tree;
    assert RightSpine(tree, []);
    assert [tree][1..] == [];
  }

  /** The same, two levels up: over `r{0,k}` made optional. */
  lemma {:induction false} ReadyGrandchild(tree: BinTree, s: Shape, mid: BinTree, e: Shape)
    requires s.Node? && s.self == tree && Holds(s, null) && s.right.Nil? && s.left.Node? && s.left.self == mid
    requires e.Node? && s.left.right == e
    ensures Ready(tree, s, e.self, e, [mid, tree])
  {
    assert Holds(s.left, tree);
    assert Holds(e, mid);
    assert e.self.parent == mid && mid.parent == tree;
    assert RightSpine(tree, []);
    assert [tree][1..] == [] && [mid, tree][1..] == [tree];
  }

  /** A copy of `elem` behind `tree`. */
  method AppendCopy(tree: BinTree, ghost s: Shape, elem: BinTree, ghost e: Shape, ghost ancestors: seq<BinTree>)
    returns (tree': BinTree, elem': BinTree, ghost s': Shape, ghost e': Shape)
    requires Ready(tree, s, elem, e, ancestors)
    modifies tree
    ensures s' == Shape.Node(tree', s, e') && Ready(tree', s', elem', e', [tree']) && tree'.token == Concat
    ensures Skeleton(e') == Skeleton(e) && fresh(tree') && fresh(Nodes(e'))
  {
    NodesAllocated(s);
    elem', e' := DuplicateTree(elem, e, ancestors);
    RootInNodes(e');
    tree', s' := CreateTree(Concat, tree, elem', s, e');
    ReadyChild(tree', s', e');
  }

  lemma {:induction false} SkeletonNode(s: Shape)
    requires s.Node?
    ensures Skeleton(s) == Tree.Node(s.self.token, Skeleton(s.left), Skeleton(s.right))
    ensures Nodes(s) == {s.self} + Nodes(s.left) + Nodes(s.right)
    ensures Skeleton(Shape.Nil) == Tree.Nil && Nodes(Shape.Nil) == {}
  {
  }

  /** `s` denotes `lo` to `hi` repetitions of `t`, and is well formed if `t` is, with
      brackets that contain some byte if those of `t` do. */
  ghost predicate Denotes(syn: Syntax, s: Shape, t: Tree, lo: int, hi: int) {
    && DenotesRange(syn, Skeleton(s), t, lo, hi)
    && (WellFormed(t) ==> WellFormed(Skeleton(s))) && (Inhabited(t) ==> Inhabited(Skeleton(s)))
  }

  lemma {:induction false} DenotesOne(syn: Syntax, e: Shape)
    ensures Denotes(syn, e, Skeleton(e), 1, 1)
  {
    OneCopy(syn, Skeleton(e));
  }

  lemma {:induction false} DenotesConcat(syn: Syntax, s: Shape, t: Tree, lo: nat, hi: nat, lo': nat, hi': int)
    requires s.Node? && s.self.token == Concat && s.left.Node? && s.right.Node?
    requires Denotes(syn, s.left, t, lo, hi) && Denotes(syn, s.right, t, lo', hi')
    requires (lo == hi || (lo' == hi' && lo <= hi)) && (hi' == -1 || lo' <= hi')
    ensures Denotes(syn, s, t, lo + lo', if hi' == -1 then -1 else hi + hi')
  {
    hide DenotesRange;
    ConcatRanges(syn, Skeleton(s.left), Skeleton(s.right), t, lo, hi, lo', hi');
  }

  lemma {:induction false} DenotesOptional(syn: Syntax, s: Shape, t: Tree, hi: nat)
    requires s.Node? && s.self.token == Alt && s.right.Nil? && hi > 0
    requires Denotes(syn, s.left, t, 0, hi) || Denotes(syn, s.left, t, 1, hi)
    ensures Denotes(syn, s, t, 0, hi)
  {
    hide DenotesRange;
    assert Skeleton(s) == Tree.Node(Alt, Skeleton(s.left), Tree.Nil);
    assert WellFormed(Skeleton(s)) <==> WellFormed(Skeleton(s.left));
    assert Inhabited(Skeleton(s)) <==> Inhabited(Skeleton(s.left));
    if Denotes(syn, s.left, t, 0, hi) {
      OptionalAgain(syn, Skeleton(s.left), t, hi);
    } else {
      Optional(syn, Skeleton(s.left), t, hi);
    }
  }

  lemma {:induction false} OptionalAgain(syn: Syntax, r: Tree, t: Tree, hi: nat)
    requires DenotesRange(syn, r, t, 0, hi)
    ensures DenotesRange(syn, Tree.Node(Alt, r, Tree.Nil), t, 0, hi)
  {
    forall w ensures In(syn, Tree.Node(Alt, r, Tree.Nil), w) <==> Repeated(syn, t, 0, hi, w) {
      if w == [] {
        assert Pow(syn, t, 0, w);
      }
    }
  }

  lemma {:induction false} DenotesStar(syn: Syntax, s: Shape)
    requires s.Node? && s.self.token == Star && s.left.Node? && s.right.Nil?
    ensures Denotes(syn, s, Skeleton(s.left), 0, -1)
  {
    StarRange(syn, Skeleton(s.left));
  }

  /** `<re>{n}`: `n` copies in a row. */
  method Row(elem0: BinTree, ghost e0: Shape, start: nat, ghost syn: Syntax)
    returns (tree: BinTree, elem: BinTree, ghost s: Shape, ghost e: Shape, ghost ancestors: seq<BinTree>,
             ghost added: set<BinTree>)
    requires start > 0 && e0.Node? && e0.self == elem0 && Holds(e0, null)
    modifies elem0
    ensures Ready(tree, s, elem, e, ancestors) && Skeleton(e) == Skeleton(e0)
    ensures Denotes(syn, s, Skeleton(e0), start, start) && (tree == elem0 || fresh(tree))
    ensures Nodes(s) <= Nodes(e0) + added && fresh(added)
  {
    hide *;
    tree, elem, s, e, ancestors, added := elem0, elem0, e0, e0, [], {};
    DenotesOne(syn, e0);
    ReadyAlone(tree, s);
    var i := 2;
    while i <= start
      invariant 2 <= i <= start + 1
      invariant Ready(tree, s, elem, e, ancestors) && Skeleton(e) == Skeleton(e0)
      invariant Denotes(syn, s, Skeleton(e0), i - 1, i - 1) && (tree == elem0 || fresh(tree))
      invariant Nodes(s) <= Nodes(e0) + added && fresh(added)
    {
      ReadyNodes(tree, s, elem, e, ancestors);
      tree, elem, s, e := AppendCopy(tree, s, elem, e, ancestors);
      ancestors, added := [tree], added + {tree} + Nodes(e);
      ReadyNodes(tree, s, elem, e, ancestors);
      SkeletonNode(s);
      DenotesOne(syn, e);
      DenotesConcat(syn, s, Skeleton(e0), i - 1, i - 1, 1, 1);
      i := i + 1;
    }
  }

  lemma {:induction false} ReadyNodes(tree: BinTree, s: Shape, elem: BinTree, e: Shape, ancestors: seq<BinTree>)
    requires Ready(tree, s, elem, e, ancestors)
    ensures s.Node? && s.self == tree && e.Node? && e.self == elem && Holds(s, null) && Holds(e, elem.parent)
    ensures RightSpine(elem, ancestors)
  {
  }

  /** One more optional part around `tree0`, with a copy of the element behind it. */
  method OptionalMore(tree0: BinTree, ghost s0: Shape, elem0: BinTree, ghost e0: Shape, ghost ancestors0: seq<BinTree>,
                      ghost t: Tree, ghost hi: nat, ghost syn: Syntax)
    returns (tree: BinTree, ghost s: Shape, elem: BinTree, ghost e: Shape, ghost ancestors: seq<BinTree>,
             ghost added: set<BinTree>)
    requires Ready(tree0, s0, elem0, e0, ancestors0) && Skeleton(e0) == t && Denotes(syn, s0, t, 0, hi)
    modifies tree0
    ensures Ready(tree, s, elem, e, ancestors) && Skeleton(e) == t && fresh(tree)
    ensures Nodes(s) == Nodes(s0) + added && fresh(added)
    ensures Denotes(syn, s, t, 0, hi + 1)
  {
    hide *;
    ReadyNodes(tree0, s0, elem0, e0, ancestors0);
    tree, elem, s, e := AppendCopy(tree0, s0, elem0, e0, ancestors0);
    ReadyNodes(tree, s, elem, e, [tree]);
    SkeletonNode(s);
    DenotesOne(syn, e);
    DenotesConcat(syn, s, t, 0, hi, 1, 1);
    ghost var mid := tree;
    added := {mid} + Nodes(e);
    SelfParent(s, null);
    tree, s := CreateTree(Alt, tree, null, s, Shape.Nil);
    SkeletonNode(s);
    DenotesOptional(syn, s, t, hi + 1);
    added := added + {tree};
    ancestors := [mid, tree];
    ReadyGrandchild(tree, s, mid, e);
  }

  /** `<re>{0,m}` as nested optional parts, or `<re>*` for m == -1. */
  method OptionalPart(elem0: BinTree, ghost e0: Shape, start: nat, end: int, ghost syn: Syntax)
    returns (tree: BinTree, ghost s: Shape, ghost added: set<BinTree>)
    requires end == -1 || start < end
    requires e0.Node? && e0.self == elem0 && Holds(e0, elem0.parent)
    modifies elem0
    ensures s.Node? && s.self == tree && Holds(s, null) && Nodes(s) <= Nodes(e0) + added && fresh(added)
    ensures Denotes(syn, s, Skeleton(e0), 0, if end == -1 then -1 else end - start)
  {
    hide *;
    var elem := elem0;
    ghost var e := e0;
    SkeletonNode(e0);
    SelfParent(e0, elem0.parent);
    tree, s := CreateTree(if end == -1 then Star else Alt, elem, null, e, Shape.Nil);
    SkeletonNode(s);
    added := {tree};
    ReadyChild(tree, s, e);
    if end == -1 {
      DenotesStar(syn, s);
    } else {
      DenotesOne(syn, e);
      DenotesOptional(syn, s, Skeleton(e0), 1);
    }
    ghost var ancestors := [tree];
    var i := start + 2;
    while i <= end
      invariant start + 2 <= i && (end == -1 || i <= end + 1)
      invariant Ready(tree, s, elem, e, ancestors) && Skeleton(e) == Skeleton(e0) && fresh(tree)
      invariant Nodes(s) <= Nodes(e0) + added && fresh(added)
      invariant Denotes(syn, s, Skeleton(e0), 0, if end == -1 then -1 else i - start - 1)
    {
      ghost var more;
      tree, s, elem, e, ancestors, more := OptionalMore(tree, s, elem, e, ancestors, Skeleton(e0), i - start - 1, syn);
      added := added + more;
      i := i + 1;
    }
    ReadyNodes(tree, s, elem, e, ancestors);
  }

  lemma {:induction false} DenotesNothing(syn: Syntax, e: Shape, lo: nat, hi: int)
    requires Root(e) == null && (hi == -1 || lo <= hi)
    ensures Denotes(syn, e, Skeleton(e), lo, hi)
  {
    NilRange(syn, lo, hi);
  }

  lemma {:induction false} DenotesZero(syn: Syntax, t: Tree)
    ensures Denotes(syn, Shape.Nil, t, 0, 0)
  {
    ZeroRange(syn, t);
  }

  lemma {:induction false} RootIs(s: Shape)
    requires Root(s) != null
    ensures s.Node? && Root(s) == s.self && s.self in Nodes(s)
  {
  }

  lemma {:induction false} SelfParent(s: Shape, up: BinTree?)
    requires s.Node? && Holds(s, up)
    ensures s.self.parent == up && Holds(s, s.self.parent) && Root(s) == s.self && Root(Shape.Nil) == null
  {
  }

  /** `<re>{n,m}` or `<re>{n,}`: `n` copies in a row, and the optional part behind them. */
  method RowAndMore(elem0: BinTree, ghost e0: Shape, start: nat, end: int, ghost syn: Syntax)
    returns (tree: BinTree, ghost s: Shape, ghost added: set<BinTree>)
    requires 0 < start && (end == -1 || start < end) && e0.Node? && e0.self == elem0 && Holds(e0, null)
    modifies elem0
    ensures s.Node? && s.self == tree && Holds(s, null) && Nodes(s) <= Nodes(e0) + added && fresh(added)
    ensures Denotes(syn, s, Skeleton(e0), start, end)
  {
    hide *;
    var oldTree, elem;
    ghost var os, e, ancestors, more;
    oldTree, elem, os, e, ancestors, added := Row(elem0, e0, start, syn);
    ReadyNodes(oldTree, os, elem, e, ancestors);
    NodesAllocated(os);
    ghost var up := elem.parent;
    elem, e := DuplicateTree(elem, e, ancestors);
    RootInNodes(e);
    SelfParent(e, up);
    tree, s, more := OptionalPart(elem, e, start, end, syn);
    added := added + Nodes(e) + more;
    SelfParent(os, null);
    SelfParent(s, null);
    RootIs(s);
    tree, s := CreateTree(Concat, oldTree, tree, os, s);
    SkeletonNode(s);
    added := added + {tree};
    DenotesConcat(syn, s, Skeleton(e0), start, start, 0, if end == -1 then -1 else end - start);
  }

  /** The second half of parse_dup_op: the tree for `elem{start,end}`. */
  method Repeat(elem0: BinTree?, ghost e0: Shape, start: nat, end: int, ghost syn: Syntax)
    returns (tree: BinTree?, ghost s: Shape, ghost added: set<BinTree>)
    requires end >= -1 && (end == -1 || start <= end)
    requires Root(e0) == elem0 && Holds(e0, null)
    modifies if elem0 == null then {} else {elem0}
    ensures Root(s) == tree && Holds(s, null) && Nodes(s) <= Nodes(e0) + added && fresh(added)
    ensures Denotes(syn, s, Skeleton(e0), start, end)
  {
    hide *;
    NothingHolds();
    if elem0 == null {
      DenotesNothing(syn, e0, start, end);
      return null, e0, {};
    }
    RootIs(e0);
    SkeletonNode(e0);
    if start == 0 && end == 0 {
      var freed := Postorder(elem0, e0);
      DenotesZero(syn, Skeleton(e0));
      NothingHolds();
      return null, Shape.Nil, {};
    }
    if start == 0 {
      SelfParent(e0, null);
      tree, s, added := OptionalPart(elem0, e0, 0, end, syn);
      SelfParent(s, null);
      return;
    }
    if start == end {
      var elem;
      ghost var e, ancestors;
      tree, elem, s, e, ancestors, added := Row(elem0, e0, start, syn);
      ReadyNodes(tree, s, elem, e, ancestors);
      SelfParent(s, null);
      return;
    }
    tree, s, added := RowAndMore(elem0, e0, start, end, syn);
    SelfParent(s, null);
  }

  datatype DupOperator = StarOp | PlusOp | QuestionOp | OpenDupNum

  datatype DupResult = Parsed | KeepLiteral | Failed(e: DupError)

  /** The bounds each operator stands for. */
  ghost predicate OperatorBounds(op: DupOperator, toks: seq<DupTok>, pos: nat, lo: nat, hi: int) {
    match op
    case StarOp => lo == 0 && hi == -1
    case PlusOp => lo == 1 && hi == -1
    case QuestionOp => lo == 0 && hi == 1
    case OpenDupNum => Spells(toks, pos, lo, hi)
  }

  /** parse_dup_op: the tree it builds denotes the repetitions the text asks for, and
      without an interval to expand `elem` is left as it is. */
  method ParseDupOp(elem: BinTree?, ghost e: Shape, op: DupOperator, toks: seq<DupTok>, pos: nat,
                    invalidIntervalOrd: bool, ghost syn: Syntax)
    returns (r: DupResult, tree: BinTree?, ghost s: Shape, ghost added: set<BinTree>)
    requires Root(e) == elem && Holds(e, null)
    modifies if elem == null then {} else {elem}
    ensures Root(s) == tree && Holds(s, null) && Nodes(s) <= Nodes(e) + added && fresh(added)
    ensures r.Parsed? ==> exists lo: nat, hi: int ::
              OperatorBounds(op, toks, pos, lo, hi) && Denotes(syn, s, Skeleton(e), lo, hi)
    ensures op == StarOp ==> Denotes(syn, s, Skeleton(e), 0, -1)
    ensures op == PlusOp ==> Denotes(syn, s, Skeleton(e), 1, -1)
    ensures op == QuestionOp ==> Denotes(syn, s, Skeleton(e), 0, 1)
    ensures r.KeepLiteral? ==> s == e
    ensures r.Failed? ==> s == Shape.Nil
    ensures op != OpenDupNum ==> r.Parsed?
    ensures op == OpenDupNum ==> forall lo: nat, hi: int :: Spells(toks, pos, lo, hi) ==>
              r == if hi != -1 && lo > hi then Failed(BadBr)
                   else if RE_DUP_MAX < (if hi == -1 then lo else hi) then Failed(ESize)
                   else Parsed
    ensures op == OpenDupNum ==>
              && (r.KeepLiteral? <==> invalidIntervalOrd && (RunsOut(toks, pos) || Broken(toks, pos)))
              && (r == Failed(EBrace) <==> !invalidIntervalOrd && RunsOut(toks, pos))
              && (r == Failed(ESize) ==> exists lo: nat, hi: int :: Spells(toks, pos, lo, hi))
  {
    hide Spells, Denotes, Holds, RunsOut, Broken;
    NodesAllocated(e);
    var start: nat, end: int;
    tree, s, added := null, Shape.Nil, {};
    NothingHolds();
    if op == OpenDupNum {
      var b := ParseInterval(toks, pos, invalidIntervalOrd);
      match b {
        case Bounds(lo, hi) =>
          SpellsRange(toks, pos, lo, hi);
          start, end := lo, hi;
        case Literal =>
          return KeepLiteral, elem, e, {};
        case Error(er) =>
          NothingHolds();
          return Failed(er), null, Shape.Nil, {};
      }
    } else {
      start := if op == PlusOp then 1 else 0;
      end := if op == QuestionOp then 1 else -1;
    }
    tree, s, added := Repeat(elem, e, start, end, syn);
    assert OperatorBounds(op, toks, pos, start, end);
    r := Parsed;
  }

  lemma {:induction false} NothingHolds()
    ensures Holds(Shape.Nil, null) && Root(Shape.Nil) == null
  {
  }

  lemma {:induction false} SpellsRange(toks: seq<DupTok>, pos: nat, lo: nat, hi: int)
    requires Spells(toks, pos, lo, hi)
    ensures hi >= -1
  {
    FieldRange(toks, pos);
    var e1 := FieldEnd(toks, pos);
    FieldRange(toks, e1 + 1);
  }
}
