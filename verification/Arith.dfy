/** Multiples and remainders, for sizes that are not known constants. */
module Arith {

  lemma {:induction false} MulMonotone(a: int, b: int, c: nat)
    ensures a <= b ==> a * c <= b * c
  {
    if a <= b {
      assert (b - a) * c >= 0;
    }
  }

  /** Distinct multiples of `p` are at least `p` apart. */
  lemma {:induction false} MultipleGap(a: int, p: nat)
    ensures a >= 1 ==> a * p >= p
    ensures a <= -1 ==> a * p <= 0 - p
  {
    MulMonotone(1, a, p);
    MulMonotone(a, -1, p);
  }

  lemma {:induction false} DivisionUnique(p: nat, q: int, r: nat)
    requires r < p
    ensures (q * p + r) / p == q && (q * p + r) % p == r
  {
    var x := q * p + r;
    assert (q - x / p) * p == x % p - r;
    MultipleGap(q - x / p, p);
  }
}
