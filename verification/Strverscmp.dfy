/** Version comparison (src/string/strverscmp.c). */
module Strverscmp {

  /** A byte of a string; the terminating NUL is not part of the string. */
  type Uchar = c: int | 1 <= c < 256 witness 1

  type Text = seq<Uchar>

  const ZERO := 48
  const NINE := 57

  predicate IsDigit(c: int) {
    ZERO <= c <= NINE
  }

  /** The byte at `i`, which is NUL at the end. Nothing behind it may be read. */
  function At(s: Text, i: nat): (c: int)
    requires i <= |s|
    ensures 0 <= c < 256 && (c == 0 <==> i == |s|)
  {
    if i < |s| then s[i] else 0
  }

  // ---- the order, by sort keys ----

  /** N: outside a number; I: inside one without leading zeros; Z: in leading zeros;
      F: in the digits behind leading zeros. */
  datatype State = N | I | F | Z

  function NextState(st: State, c: int): State {
    if !IsDigit(c) then N
    else
      match st
      case N => if c == ZERO then Z else I
      case I => I
      case F => F
      case Z => if c == ZERO then Z else F
  }

  /** How many digits `s` starts with. */
  function RunLength(s: Text): (n: nat)
    ensures n <= |s|
    ensures forall k :: 0 <= k < n ==> IsDigit(s[k])
    ensures n < |s| ==> !IsDigit(s[n])
  {
    if s == [] || !IsDigit(s[0]) then 0 else 1 + RunLength(s[1..])
  }

  /** What the first byte contributes to the key: a number without leading zeros is
      announced by its length; after leading zeros, digits come before all else. */
  function Weight(st: State, s: Text): (w: seq<int>)
    ensures |w| > 0
  {
    var c := At(s, 0);
    if st == N && IsDigit(c) && c != ZERO then [ZERO + 1, RunLength(s), c]
    else if st == Z && !IsDigit(c) then [256 + c]
    else [c]
  }

  function Key(st: State, s: Text): seq<int>
    decreases |s|
  {
    if s == [] then Weight(st, s) else Weight(st, s) + Key(NextState(st, s[0]), s[1..])
  }

  function Sign(n: int): int {
    if n < 0 then -1 else if n > 0 then 1 else 0
  }

  function Lex(x: seq<int>, y: seq<int>): (r: int)
    ensures -1 <= r <= 1
  {
    if x == [] || y == [] then Sign(|x| - |y|)
    else if x[0] != y[0] then Sign(x[0] - y[0])
    else Lex(x[1..], y[1..])
  }

  /** The reference: strings in the order of their keys. */
  function Compare(a: Text, b: Text): (r: int)
    ensures -1 <= r <= 1
  {
    Lex(Key(N, a), Key(N, b))
  }

  lemma {:induction false} LexAntisymmetric(x: seq<int>, y: seq<int>)
    ensures Lex(x, y) == -Lex(y, x)
  {
    if x != [] && y != [] && x[0] == y[0] {
      LexAntisymmetric(x[1..], y[1..]);
    }
  }

  lemma {:induction false} LexTransitive(x: seq<int>, y: seq<int>, z: seq<int>)
    requires Lex(x, y) <= 0 && Lex(y, z) <= 0
    ensures Lex(x, z) <= 0 && (Lex(x, z) == 0 ==> Lex(x, y) == 0 && Lex(y, z) == 0)
  {
    if x != [] && y != [] && z != [] && x[0] == y[0] == z[0] {
      LexTransitive(x[1..], y[1..], z[1..]);
    }
  }

  lemma {:induction false} LexZero(x: seq<int>, y: seq<int>)
    ensures Lex(x, y) == 0 <==> x == y
  {
    if x != [] && y != [] && x[0] == y[0] {
      LexZero(x[1..], y[1..]);
      assert x == [x[0]] + x[1..] && y == [y[0]] + y[1..];
    }
  }

  lemma {:induction false} LexAppend(p: seq<int>, x: seq<int>, y: seq<int>)
    ensures Lex(p + x, p + y) == Lex(x, y)
  {
    if p == [] {
      assert p + x == x && p + y == y;
    } else {
      LexAppend(p[1..], x, y);
      assert (p + x)[1..] == p[1..] + x && (p + y)[1..] == p[1..] + y;
    }
  }

  /** Different first bytes (or run lengths) give keys that differ early. */
  lemma {:induction false} LexHead(v: seq<int>, w: seq<int>, x: seq<int>, y: seq<int>)
    requires v != [] && w != [] && v[0] != w[0]
    ensures Lex(v + x, w + y) == Sign(v[0] - w[0]) != 0
  {
    assert (v + x)[0] == v[0] && (w + y)[0] == w[0];
  }

  lemma {:induction false} LexNumber(m: int, c: int, n: int, d: int, x: seq<int>, y: seq<int>)
    requires m != n || c != d
    ensures Lex([ZERO + 1, m, c] + x, [ZERO + 1, n, d] + y) == (if m != n then Sign(m - n) else Sign(c - d)) != 0
  {
    assert [ZERO + 1, m, c] + x == [ZERO + 1] + ([m, c] + x) && [ZERO + 1, n, d] + y == [ZERO + 1] + ([n, d] + y);
    LexAppend([ZERO + 1], [m, c] + x, [n, d] + y);
    if m != n {
      LexHead([m, c], [n, d], x, y);
    } else {
      assert [m, c] + x == [m] + ([c] + x) && [n, d] + y == [m] + ([d] + y);
      LexAppend([m], [c] + x, [d] + y);
      LexHead([c], [d], x, y);
    }
  }

  lemma {:induction false} KeySplit(st: State, s: Text)
    ensures Key(st, s) == Weight(st, s) + if s == [] then [] else Key(NextState(st, s[0]), s[1..])
  {
    assert Weight(st, s) + [] == Weight(st, s);
  }

  /** The key determines the string. */
  lemma {:induction false} KeyInjective(st: State, a: Text, b: Text)
    requires Key(st, a) == Key(st, b)
    ensures a == b
    decreases |a|
  {
    KeySplit(st, a);
    KeySplit(st, b);
    SameWeight(st, a, b);
    if a != [] {
      var w := Weight(st, a);
      assert Key(st, a)[|w|..] == Key(NextState(st, a[0]), a[1..]);
      assert Key(st, b)[|w|..] == Key(NextState(st, b[0]), b[1..]);
      KeyInjective(NextState(st, a[0]), a[1..], b[1..]);
      assert a == [a[0]] + a[1..] && b == [b[0]] + b[1..];
    }
  }

  lemma {:induction false} SameWeight(st: State, a: Text, b: Text)
    requires Key(st, a) == Key(st, b)
    ensures Weight(st, a) == Weight(st, b) && At(a, 0) == At(b, 0)
  {
    KeySplit(st, a);
    KeySplit(st, b);
    var k := Key(st, a);
    var v, w := Weight(st, a), Weight(st, b);
    assert k[0] == v[0] == w[0];
    assert |v| == 3 ==> k[1] == v[1] && k[2] == v[2];
    assert |w| == 3 ==> k[1] == w[1] && k[2] == w[2];
    assert |v| == |w|;
  }

  /** The comparison is a strict total order whose ties are exactly equal strings. */
  lemma {:induction false} TotalOrder(a: Text, b: Text, c: Text)
    ensures Compare(a, b) == -Compare(b, a)
    ensures Compare(a, b) == 0 <==> a == b
    ensures Compare(a, b) <= 0 && Compare(b, c) <= 0 ==> Compare(a, c) <= 0
    ensures Compare(a, b) < 0 && Compare(b, c) <= 0 ==> Compare(a, c) < 0
  {
    var x, y, z := Key(N, a), Key(N, b), Key(N, c);
    LexAntisymmetric(x, y);
    LexZero(x, y);
    if x == y {
      KeyInjective(N, a, b);
    }
    if Lex(x, y) <= 0 && Lex(y, z) <= 0 {
      LexTransitive(x, y, z);
    }
  }

  // ---- the source's table-driven walk ----

  /** The order of what is left once the states agree. Inside a number the length of
      the rest of the run decides first. */
  function Order(st: State, a: Text, b: Text): int {
    if st == I && RunLength(a) != RunLength(b) then Sign(RunLength(a) - RunLength(b))
    else Lex(Key(st, a), Key(st, b))
  }

  /** Equal weights can be taken off two keys. */
  lemma {:induction false} SameWeightOff(st: State, a: Text, b: Text)
    requires a != [] && b != [] && a[0] == b[0] && Weight(st, a) == Weight(st, b)
    ensures var st' := NextState(st, a[0]);
            Lex(Key(st, a), Key(st, b)) == Lex(Key(st', a[1..]), Key(st', b[1..]))
  {
    KeySplit(st, a);
    KeySplit(st, b);
    hide Key, Lex, Weight;
    LexAppend(Weight(st, a), Key(NextState(st, a[0]), a[1..]), Key(NextState(st, b[0]), b[1..]));
  }

  /** A number announces its length. */
  lemma {:induction false} LengthDecides(a: Text, b: Text)
    requires a != [] && b != [] && a[0] == b[0] && IsDigit(a[0]) && a[0] != ZERO && RunLength(a) != RunLength(b)
    ensures Lex(Key(N, a), Key(N, b)) == Sign(RunLength(a) - RunLength(b))
  {
    KeySplit(N, a);
    KeySplit(N, b);
    hide Key, Lex, RunLength;
    LexNumber(RunLength(a), a[0], RunLength(b), b[0], Key(I, a[1..]), Key(I, b[1..]));
  }

  /** A common first byte can be passed over. */
  lemma {:induction false} OrderStep(st: State, a: Text, b: Text)
    requires a != [] && b != [] && a[0] == b[0]
    ensures Order(st, a, b) == Order(NextState(st, a[0]), a[1..], b[1..])
  {
    assert RunLength(a) == if IsDigit(a[0]) then 1 + RunLength(a[1..]) else 0;
    assert RunLength(b) == if IsDigit(b[0]) then 1 + RunLength(b[1..]) else 0;
    hide Key, Lex, RunLength;
    if Weight(st, a) == Weight(st, b) {
      SameWeightOff(st, a, b);
    } else {
      LengthDecides(a, b);
    }
  }

  function Class(c: int): (r: nat)
    ensures r < 3
  {
    (if c == ZERO then 1 else 0) + (if IsDigit(c) then 1 else 0)
  }

  const S_N := 0
  const S_I := 3
  const S_F := 6
  const S_Z := 9

  const NEXT_STATE: seq<nat> := [
    S_N, S_I, S_Z,
    S_N, S_I, S_I,
    S_N, S_F, S_F,
    S_N, S_F, S_Z]

  const CMP := 2
  const LEN := 3

  const RESULT_TYPE: seq<int> := [
    CMP, CMP, CMP, CMP, LEN, CMP, CMP, CMP, CMP,
    CMP, -1, -1, 1, LEN, LEN, 1, LEN, LEN,
    CMP, CMP, CMP, CMP, CMP, CMP, CMP, CMP, CMP,
    CMP, 1, 1, -1, CMP, CMP, -1, CMP, CMP]

  function Code(st: State): (r: nat)
    ensures r <= S_Z
  {
    match st
    case N => S_N
    case I => S_I
    case F => S_F
    case Z => S_Z
  }

  function TableNext(state: nat): (r: nat)
    requires state < |NEXT_STATE|
  {
    NEXT_STATE[state]
  }

  function TableResult(entry: nat): (r: int)
    requires entry < |RESULT_TYPE|
  {
    RESULT_TYPE[entry]
  }

  lemma {:induction false} NextIs(st: State, c: int)
    ensures Code(st) + Class(c) < |NEXT_STATE|
    ensures TableNext(Code(st) + Class(c)) == Code(NextState(st, c))
  {
  }

  /** RESULT_TYPE put as a rule. */
  function Rule(st: State, c1: int, c2: int): int {
    if IsDigit(c1) && IsDigit(c2) then
      if st == I || (st == N && c1 != ZERO && c2 != ZERO) then LEN else CMP
    else if IsDigit(c1) then if st == I then 1 else if st == Z then -1 else CMP
    else if IsDigit(c2) then if st == I then -1 else if st == Z then 1 else CMP
    else CMP
  }

  lemma {:induction false} ResultIs(st: State, c1: int, c2: int)
    ensures 3 * (Code(st) + Class(c1)) + Class(c2) < |RESULT_TYPE|
    ensures TableResult(3 * (Code(st) + Class(c1)) + Class(c2)) == Rule(st, c1, c2)
  {
  }

  /** The rule decides the order where the first bytes differ. */
  lemma {:induction false} RuleDecides(st: State, a: Text, b: Text)
    requires At(a, 0) != At(b, 0)
    ensures var t := Rule(st, At(a, 0), At(b, 0));
            if t == CMP then Order(st, a, b) == Sign(At(a, 0) - At(b, 0))
            else if t == LEN then
              && a != [] && b != [] && IsDigit(a[0]) && IsDigit(b[0])
              && Order(st, a, b) == (if RunLength(a) != RunLength(b) then Sign(RunLength(a) - RunLength(b))
                                     else Sign(At(a, 0) - At(b, 0)))
            else Order(st, a, b) == t == Sign(t)
  {
    KeySplit(st, a);
    KeySplit(st, b);
    var x := if a == [] then [] else Key(NextState(st, a[0]), a[1..]);
    var y := if b == [] then [] else Key(NextState(st, b[0]), b[1..]);
    var v, w := Weight(st, a), Weight(st, b);
    hide Key, Lex;
    if v[0] != w[0] {
      LexHead(v, w, x, y);
    } else {
      LexNumber(RunLength(a), At(a, 0), RunLength(b), At(b, 0), x, y);
    }
  }

  /** The LEN case: compare the lengths of two digit runs. */
  method CompareRuns(s1: Text, s2: Text, i: nat, diff: int) returns (r: int)
    requires 1 <= i <= |s1| && i <= |s2| && diff != 0
    ensures var m, n := RunLength(s1[i..]), RunLength(s2[i..]);
            r == if m > n then 1 else if m < n then -1 else diff
  {
    var p1, p2 := i, i;
    while IsDigit(At(s1, p1))
      invariant i <= p1 <= |s1| && p1 == p2 <= |s2|
      invariant forall k :: i <= k < p1 ==> IsDigit(s1[k]) && IsDigit(s2[k])
      decreases |s1| - p1
    {
      p1 := p1 + 1;
      if !IsDigit(At(s2, p2)) {
        RunEnds(s2, i, p2);
        RunReaches(s1, i, p1);
        return 1;
      }
      p2 := p2 + 1;
    }
    RunEnds(s1, i, p1);
    if IsDigit(At(s2, p2)) {
      RunReaches(s2, i, p2 + 1);
      return -1;
    }
    RunEnds(s2, i, p2);
    return diff;
  }

  lemma {:induction false} RunReaches(s: Text, i: nat, j: nat)
    requires i <= j <= |s| && forall k :: i <= k < j ==> IsDigit(s[k])
    ensures RunLength(s[i..]) >= j - i
  {
    var t, n := s[i..], RunLength(s[i..]);
    assert n < |t| ==> !IsDigit(t[n]) && t[n] == s[i + n];
  }

  lemma {:induction false} RunEnds(s: Text, i: nat, j: nat)
    requires i <= j <= |s| && forall k :: i <= k < j ==> IsDigit(s[k])
    requires !IsDigit(At(s, j))
    ensures RunLength(s[i..]) == j - i
  {
    RunReaches(s, i, j);
    var t, n := s[i..], RunLength(s[i..]);
    assert j < |s| ==> t[j - i] == s[j];
  }

  /** The table-driven walk computes the order of the sort keys. */
  method Verscmp(s1: Text, s2: Text) returns (r: int)
    ensures Sign(r) == Compare(s1, s2)
  {
    hide Key, Lex, Order, Class, NextState, TableNext, TableResult, Rule;
    OrderOutside(s1, s2);
    var p1, p2 := 0, 0;
    var c1, c2 := At(s1, p1), At(s2, p2);
    p1, p2 := p1 + 1, p2 + 1;
    ghost var st := N;
    var state := S_N + Class(c1);
    assert s1[0..] == s1 && s2[0..] == s2;
    var diff := c1 - c2;
    while diff == 0
      invariant 1 <= p1 == p2 && p1 <= |s1| + 1 && p2 <= |s2| + 1
      invariant c1 == At(s1, p1 - 1) && c2 == At(s2, p2 - 1) && diff == c1 - c2
      invariant state == Code(st) + Class(c1)
      invariant s1[..p1 - 1] == s2[..p1 - 1]
      invariant Order(st, s1[p1 - 1..], s2[p2 - 1..]) == Compare(s1, s2)
      decreases |s1| + 1 - p1
    {
      ghost var a, b := s1[p1 - 1..], s2[p2 - 1..];
      if c1 == 0 {
        assert s1 == s2;
        TotalOrder(s1, s2, s2);
        return diff;
      }
      NextIs(st, c1);
      OrderStep(st, a, b);
      assert a[1..] == s1[p1..] && b[1..] == s2[p2..];
      state := TableNext(state);
      st := NextState(st, c1);
      c1, c2 := At(s1, p1), At(s2, p2);
      p1, p2 := p1 + 1, p2 + 1;
      state := state + Class(c1);
      diff := c1 - c2;
    }
    ghost var a, b := s1[p1 - 1..], s2[p2 - 1..];
    assert At(a, 0) == c1 && At(b, 0) == c2;
    RuleDecides(st, a, b);
    ResultIs(st, c1, c2);
    var t := TableResult(state * 3 + Class(c2));
    if t == CMP {
      return diff;
    } else if t == LEN {
      assert a[1..] == s1[p1..] && b[1..] == s2[p2..];
      r := CompareRuns(s1, s2, p1, diff);
    } else {
      return t;
    }
  }

  lemma {:induction false} OrderOutside(a: Text, b: Text)
    ensures Order(N, a, b) == Compare(a, b)
  {
  }

  // ---- what the order means for numbers ----

  function StateAfter(p: Text): State {
    if p == [] then N else NextState(StateAfter(p[..|p| - 1]), p[|p| - 1])
  }

  lemma {:induction false} CommonPrefix(p: Text, a: Text, b: Text)
    ensures Compare(p + a, p + b) == Order(StateAfter(p), a, b)
  {
    hide Order;
    if p == [] {
      assert p + a == a && p + b == b;
      OrderOutside(a, b);
    } else {
      var q, c := p[..|p| - 1], p[|p| - 1];
      CommonPrefix(q, [c] + a, [c] + b);
      assert p == q + [c];
      assert p + a == q + ([c] + a) && p + b == q + ([c] + b);
      OrderStep(StateAfter(q), [c] + a, [c] + b);
      assert ([c] + a)[1..] == a && ([c] + b)[1..] == b;
    }
  }

  /** Outside numbers the bytes decide. Two strings that part where no number is under
      way compare as with strcmp, unless a number without a leading zero starts in both;
      and so do two strings that both go on with something other than a digit. */
  lemma {:induction false} BytesDecide(p: Text, a: Text, b: Text)
    requires At(a, 0) != At(b, 0)
    requires p == [] || !IsDigit(p[|p| - 1]) || (!IsDigit(At(a, 0)) && !IsDigit(At(b, 0)))
    requires !(IsDigit(At(a, 0)) && At(a, 0) != ZERO && IsDigit(At(b, 0)) && At(b, 0) != ZERO)
    ensures Compare(p + a, p + b) == if At(a, 0) < At(b, 0) then -1 else 1
  {
    var st := StateAfter(p);
    assert p == [] || !IsDigit(p[|p| - 1]) ==> st == N;
    CommonPrefix(p, a, b);
    hide Order, Compare, StateAfter;
    RuleDecides(st, a, b);
  }

  /** The last `n` bytes are zeros, and no digit stands before them. */
  ghost predicate EndsInZeros(p: Text, n: nat) {
    && 0 < n <= |p|
    && (forall k :: |p| - n <= k < |p| ==> p[k] == ZERO)
    && (n < |p| ==> !IsDigit(p[|p| - n - 1]))
  }

  lemma {:induction false} LeadingZerosState(p: Text)
    ensures StateAfter(p) == Z <==> exists n: nat :: EndsInZeros(p, n)
  {
    if p != [] {
      var q := p[..|p| - 1];
      LeadingZerosState(q);
      if n: nat :| EndsInZeros(p, n) {
        if n == 1 {
          assert q == [] || !IsDigit(q[|q| - 1]);
        } else {
          assert EndsInZeros(q, n - 1);
        }
      }
      if StateAfter(p) == Z {
        if StateAfter(q) == Z {
          var n: nat :| EndsInZeros(q, n);
          assert forall k :: 0 <= k < |q| ==> p[k] == q[k];
          assert p[|q|] == ZERO;
          assert EndsInZeros(p, n + 1);
        } else {
          OutsideState(q);
          assert EndsInZeros(p, 1);
        }
      }
    }
  }

  lemma {:induction false} OutsideState(p: Text)
    ensures StateAfter(p) == N <==> p == [] || !IsDigit(p[|p| - 1])
  {
  }

  /** A string comes before those that go on behind it, unless it ends in the leading
      zeros of a number that goes on. */
  lemma {:induction false} PrefixFirst(p: Text, b: Text)
    requires b != []
    ensures Compare(p, p + b) == if IsDigit(b[0]) && exists n: nat :: EndsInZeros(p, n) then 1 else -1
  {
    assert p + [] == p;
    CommonPrefix(p, [], b);
    LeadingZerosState(p);
    hide Order, Compare, StateAfter;
    RuleDecides(StateAfter(p), [], b);
  }

  predicate Digits(d: Text) {
    forall k :: 0 <= k < |d| ==> IsDigit(d[k])
  }

  /** The decimal value of a digit string. */
  function Value(d: Text): nat
    requires Digits(d)
  {
    if d == [] then 0 else Value(d[..|d| - 1]) * 10 + (d[|d| - 1] - ZERO)
  }

  function Ten(n: nat): (r: nat)
    ensures r >= 1
  {
    if n == 0 then 1 else Ten(n - 1) * 10
  }

  lemma {:induction false} ValueBounds(d: Text)
    requires Digits(d)
    ensures Value(d) < Ten(|d|)
    ensures d != [] && d[0] != ZERO ==> Value(d) >= Ten(|d| - 1)
  {
    if |d| == 1 {
      assert d[..0] == [] && Ten(1) == 10;
    } else if |d| > 1 {
      ValueBounds(d[..|d| - 1]);
    }
  }

  /** Numbers of the same length compare digit by digit. */
  lemma {:induction false} ValueFirstDigit(p: Text, x: Uchar, y: Uchar, d: Text, e: Text)
    requires |d| == |e| && IsDigit(x) && IsDigit(y) && x < y
    requires Digits(p)
    requires Digits(d) && Digits(e)
    ensures Value(p + [x] + d) < Value(p + [y] + e)
    decreases |d|
  {
    var a, b := p + [x] + d, p + [y] + e;
    if d == [] {
      assert a[..|a| - 1] == p && b[..|b| - 1] == p;
    } else {
      var n := |d| - 1;
      ValueFirstDigit(p, x, y, d[..n], e[..n]);
      assert a[..|a| - 1] == p + [x] + d[..n] && b[..|b| - 1] == p + [y] + e[..n];
    }
  }

  lemma {:induction false} TenGrows(m: nat, n: nat)
    ensures m <= n ==> Ten(m) <= Ten(n)
    decreases n
  {
    if m < n {
      TenGrows(m, n - 1);
    }
  }

  lemma {:induction false} RunIs(d: Text, x: Text)
    requires Digits(d) && !IsDigit(At(x, 0))
    ensures RunLength(d + x) == |d|
  {
    var s := d + x;
    assert s[0..] == s;
    assert At(s, |d|) == At(x, 0);
    RunEnds(s, 0, |d|);
  }

  lemma {:induction false} FirstDifference(d: Text, e: Text) returns (i: nat)
    requires |d| == |e| && d != e
    ensures i < |d| == |e| && d[..i] == e[..i] && d[i] != e[i]
  {
    assert d[..|d|] == d && e[..|d|] == e;
    i := 0;
    while i < |d| && d[i] == e[i]
      invariant i <= |d| && d[..i] == e[..i]
    {
      i := i + 1;
    }
  }

  lemma {:induction false} DigitsCut(d: Text, i: nat)
    requires Digits(d) && i < |d|
    ensures d == d[..i] + [d[i]] + d[i + 1..]
    ensures IsDigit(d[i]) && Digits(d[..i]) && Digits(d[i + 1..])
  {
    var t := d[i + 1..];
    forall k | 0 <= k < |t| ensures IsDigit(t[k]) {
      assert t[k] == d[i + 1 + k];
    }
  }

  /** Of two numbers of one length the greater has the greater first digit that differs. */
  lemma {:induction false} ValueAt(d: Text, e: Text, i: nat)
    requires Digits(d) && Digits(e) && |d| == |e| && Value(d) < Value(e)
    requires i < |d| && d[..i] == e[..i] && d[i] != e[i]
    ensures d[i] < e[i]
  {
    DigitsCut(d, i);
    DigitsCut(e, i);
    hide Value, Digits;
    var p, u, v := d[..i], d[i + 1..], e[i + 1..];
    if e[i] < d[i] {
      ValueFirstDigit(p, e[i], d[i], v, u);
    }
  }

  /** Where a number without leading zeros starts, the strings are in the order of
      the numbers, whatever follows them. */
  lemma {:induction false} NumbersByValue(p: Text, d: Text, e: Text, x: Text, y: Text)
    requires p == [] || !IsDigit(p[|p| - 1])
    requires d != [] && e != [] && d[0] != ZERO && e[0] != ZERO && Digits(d) && Digits(e)
    requires !IsDigit(At(x, 0)) && !IsDigit(At(y, 0))
    requires Value(d) < Value(e)
    ensures Compare(p + d + x, p + e + y) < 0
  {
    assert StateAfter(p) == N;
    hide Digits, Value, Compare, Order, StateAfter;
    assert p + d + x == p + (d + x) && p + e + y == p + (e + y);
    CommonPrefix(p, d + x, e + y);
    ValueBounds(d);
    ValueBounds(e);
    TenGrows(|e|, |d| - 1);
    if |d| < |e| {
      ShorterFirst(d, e, x, y);
    } else {
      var i := FirstDifference(d, e);
      ValueAt(d, e, i);
      DigitsSameLength(d, e, x, y, i);
      SkipDigits(d, e, x, y, i);
    }
  }

  lemma {:induction false} ShorterFirst(d: Text, e: Text, x: Text, y: Text)
    requires d != [] && |d| < |e| && d[0] != ZERO && e[0] != ZERO && Digits(d) && Digits(e)
    requires !IsDigit(At(x, 0)) && !IsDigit(At(y, 0))
    ensures Order(N, d + x, e + y) == -1
  {
    var a, b := d + x, e + y;
    RunIs(d, x);
    RunIs(e, y);
    KeySplit(N, a);
    KeySplit(N, b);
    hide Key, Lex;
    LexNumber(|d|, d[0], |e|, e[0], Key(I, a[1..]), Key(I, b[1..]));
  }

  lemma {:induction false} SkipDigits(d: Text, e: Text, x: Text, y: Text, i: nat)
    requires |d| == |e| && i <= |d| && d[..i] == e[..i]
    ensures Order(N, d + x, e + y) == Order(StateAfter(d[..i]), (d + x)[i..], (e + y)[i..])
  {
    hide Order, StateAfter;
    var a, b := d + x, e + y;
    CommonPrefix(d[..i], a[i..], b[i..]);
    assert d[..i] + a[i..] == a && d[..i] + b[i..] == b;
    OrderOutside(a, b);
  }

  lemma {:induction false} InsideNumber(q: Text)
    requires q != [] && q[0] != ZERO && Digits(q)
    ensures StateAfter(q) == I
  {
    if |q| > 1 {
      InsideNumber(q[..|q| - 1]);
    } else {
      assert q[..0] == [];
    }
  }

  lemma {:induction false} DigitsSameLength(d: Text, e: Text, x: Text, y: Text, i: nat)
    requires |d| == |e| && i < |d| && d[i] < e[i] && d[..i] == e[..i]
    requires Digits(d) && Digits(e)
    requires !IsDigit(At(x, 0)) && !IsDigit(At(y, 0)) && d[0] != ZERO && e[0] != ZERO
    ensures Order(StateAfter(d[..i]), (d + x)[i..], (e + y)[i..]) == -1
  {
    var a, b := (d + x)[i..], (e + y)[i..];
    assert a == d[i..] + x && b == e[i..] + y;
    RunIs(d[i..], x);
    RunIs(e[i..], y);
    if i > 0 {
      InsideNumber(d[..i]);
    }
    RuleDecides(StateAfter(d[..i]), a, b);
  }

  // ---- numbers with leading zeros ----

  function Zeros(n: nat): (z: Text)
    ensures |z| == n && forall k :: 0 <= k < n ==> z[k] == ZERO
  {
    if n == 0 then [] else Zeros(n - 1) + [ZERO]
  }

  /** The fraction whose digits behind the point are `d`. */
  ghost function Fraction(d: Text): (r: real)
    requires Digits(d)
    ensures 0.0 <= r < 1.0
  {
    if d == [] then 0.0 else ((d[0] - ZERO) as real + Fraction(d[1..])) / 10.0
  }

  lemma {:induction false} FractionAt(f: Text, g: Text, i: nat)
    requires Digits(f) && Digits(g) && i < |f| && i < |g| && f[..i] == g[..i] && f[i] < g[i]
    ensures Fraction(f) < Fraction(g)
    decreases i
  {
    if i > 0 {
      assert f[..i][0] == f[0] && g[..i][0] == g[0];
      assert f[1..][..i - 1] == f[..i][1..] && g[1..][..i - 1] == g[..i][1..];
      FractionAt(f[1..], g[1..], i - 1);
    }
  }

  lemma {:induction false} FractionPrefix(f: Text, g: Text)
    requires Digits(f) && Digits(g) && g <= f
    ensures Fraction(g) <= Fraction(f)
  {
    if g != [] {
      assert g[0] == f[0] && g[1..] <= f[1..];
      FractionPrefix(f[1..], g[1..]);
    }
  }

  lemma {:induction false} Differ(f: Text, g: Text) returns (i: nat)
    requires !(f <= g) && !(g <= f)
    ensures i < |f| && i < |g| && f[..i] == g[..i] && f[i] != g[i]
  {
    var n := if |f| < |g| then |f| else |g|;
    assert f[..n] != g[..n];
    i := FirstDifference(f[..n], g[..n]);
    assert f[..n][..i] == f[..i] && g[..n][..i] == g[..i];
  }

  lemma {:induction false} AfterZeros(p: Text, n: nat)
    requires StateAfter(p) == N && n > 0
    ensures StateAfter(p + Zeros(n)) == Z
  {
    var q := p + Zeros(n);
    assert q[..|q| - 1] == p + Zeros(n - 1) && q[|q| - 1] == ZERO;
    if n == 1 {
      assert p + Zeros(0) == p;
    } else {
      AfterZeros(p, n - 1);
    }
  }

  lemma {:induction false} AfterFraction(p: Text, q: Text)
    requires StateAfter(p) == Z && q != [] && q[0] != ZERO && Digits(q)
    ensures StateAfter(p + q) == F
  {
    var n := |q| - 1;
    assert (p + q)[..|p| + n] == p + q[..n];
    if n == 0 {
      assert p + q[..n] == p;
    } else {
      AfterFraction(p, q[..n]);
    }
  }

  lemma {:induction false} MoreZeros(m: nat, n: nat)
    ensures Zeros(m + n) == Zeros(m) + Zeros(n)
  {
  }

  /** The digits of a number, behind its leading zeros. */
  predicate Tail(f: Text) {
    Digits(f) && (f != [] ==> f[0] != ZERO)
  }

  lemma {:induction false} TailHead(f: Text, x: Text)
    requires Tail(f) && !IsDigit(At(x, 0))
    ensures At(f + x, 0) != ZERO && (IsDigit(At(f + x, 0)) <==> f != [])
  {
    assert f + x == if f == [] then x else [f[0]] + (f[1..] + x);
  }

  /** Of two numbers with leading zeros, the one with more of them comes first, whatever
      the digits behind them. */
  lemma {:induction false} MoreZerosFirst(p: Text, m: nat, n: nat, f: Text, g: Text, x: Text, y: Text)
    requires p == [] || !IsDigit(p[|p| - 1])
    requires m > n > 0 && Tail(f) && Tail(g) && !IsDigit(At(x, 0)) && !IsDigit(At(y, 0))
    ensures Compare(p + Zeros(m) + f + x, p + Zeros(n) + g + y) < 0
  {
    assert StateAfter(p) == N;
    AfterZeros(p, n);
    MoreZeros(n, m - n);
    hide StateAfter, Compare, Order, Digits;
    var q, a, b := p + Zeros(n), Zeros(m - n) + f + x, g + y;
    assert p + Zeros(m) == q + Zeros(m - n);
    assert p + Zeros(m) + f + x == q + a && q + g + y == q + b;
    assert At(a, 0) == ZERO;
    TailHead(g, y);
    CommonPrefix(q, a, b);
    RuleDecides(Z, a, b);
  }

  /** With equally many leading zeros, the digits behind them compare as those of
      fractions: the smaller fraction comes first where two digits differ. A number of
      zeros alone comes last, and where one is a prefix of the other, the byte behind
      it is compared with a digit. */
  lemma {:induction false} FractionsByValue(p: Text, n: nat, f: Text, g: Text, x: Text, y: Text)
    requires p == [] || !IsDigit(p[|p| - 1])
    requires n > 0 && Tail(f) && Tail(g) && !IsDigit(At(x, 0)) && !IsDigit(At(y, 0))
    ensures Fraction(f) < Fraction(g) && !(f <= g) ==> Compare(p + Zeros(n) + f + x, p + Zeros(n) + g + y) < 0
    ensures f == [] && g != [] ==> Compare(p + Zeros(n) + f + x, p + Zeros(n) + g + y) > 0
    ensures f != [] && f < g ==>
              Compare(p + Zeros(n) + f + x, p + Zeros(n) + g + y) == Sign(At(x, 0) - g[|f|])
  {
    assert StateAfter(p) == N;
    AfterZeros(p, n);
    if Fraction(f) < Fraction(g) && !(f <= g) {
      if g <= f {
        FractionPrefix(f, g);
      }
      var i := Differ(f, g);
      if g[i] < f[i] {
        FractionAt(g, f, i);
      }
      TailsDiffer(p, n, f, g, x, y, i);
    } else if f < g {
      TailsDiffer(p, n, f, g, x, y, |f|);
    }
  }

  /** Behind a common part of the two tails. */
  lemma {:induction false} TailsDiffer(p: Text, n: nat, f: Text, g: Text, x: Text, y: Text, i: nat)
    requires StateAfter(p + Zeros(n)) == Z && Tail(f) && Tail(g) && !IsDigit(At(x, 0)) && !IsDigit(At(y, 0))
    requires i <= |f| && i < |g| && f[..i] == g[..i] && (i < |f| ==> f[i] != g[i])
    ensures var c := if i < |f| then f[i] else At(x, 0);
            Compare(p + Zeros(n) + f + x, p + Zeros(n) + g + y) == if i == |f| == 0 then 1 else Sign(c - g[i])
  {
    var q, a, b := p + Zeros(n) + f[..i], f[i..] + x, g[i..] + y;
    assert p + Zeros(n) + f + x == q + a && p + Zeros(n) + g + y == q + b;
    if i == 0 {
      assert q == p + Zeros(n);
    } else {
      AfterFraction(p + Zeros(n), f[..i]);
    }
    hide StateAfter, Compare, Order;
    CommonPrefix(q, a, b);
    assert At(b, 0) == g[i] && At(a, 0) == if i < |f| then f[i] else At(x, 0);
    RuleDecides(if i == 0 then Z else F, a, b);
  }
}
