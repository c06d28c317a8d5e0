/** The double-hashing table (src/search/hsearch_r.c). Unsigned arithmetic is that of
    32-bit words. */
module Hsearch {
  import opened Arith

  const WORD := 0x1_0000_0000
  const UINT_MAX := WORD - 1

  function Add32(a: nat, b: nat): (r: nat)
    ensures r < WORD
  {
    (a + b) % WORD
  }

  function Sub32(a: nat, b: nat): (r: nat)
    requires b <= WORD
    ensures r < WORD
  {
    (a + WORD - b) % WORD
  }

  // ---- prime sizes ----

  ghost predicate Prime(n: nat) {
    n >= 2 && forall d :: 1 < d < n ==> n % d != 0
  }

  lemma {:induction false} Cofactor(n: nat, d: nat)
    requires 0 < d < n && n % d == 0
    ensures n == d * (n / d) && n / d > 1 && n % (n / d) == 0
    ensures d > 1 ==> n / d < n
  {
    var e := n / d;
    MulMonotone(e, 1, d);
    MulMonotone(2, d, e);
    DivisionUnique(e, d, 0);
  }

  /** A divisor has a partner below the square root, and both are odd with the number. */
  lemma {:induction false} SmallDivisor(n: nat, d: nat, bound: nat) returns (small: nat)
    requires n % 2 == 1 && bound * bound > n && 1 < d < n && n % d == 0
    ensures 3 <= small < bound && small % 2 == 1 && n % small == 0
  {
    var e := n / d;
    Cofactor(n, d);
    OddDivisor(n, d);
    OddDivisor(n, e);
    MulMonotone(bound, d, e);
    MulMonotone(bound, e, bound);
    small := if d < bound then d else e;
  }

  lemma {:induction false} OddDivisor(n: nat, d: nat)
    requires d > 0 && n % 2 == 1 && n % d == 0
    ensures d % 2 == 1
  {
    var h, q := d / 2, n / d;
    assert n == d * q;
    assert d == 2 * h ==> n == 2 * (h * q);
  }

  ghost predicate NoOddDivisor(n: nat, bound: nat) {
    forall d :: 3 <= d < bound && d % 2 == 1 ==> n % d != 0
  }

  lemma {:induction false} NoDivisorYet(n: nat)
    ensures NoOddDivisor(n, 3)
  {
  }

  lemma {:induction false} NextDivisor(n: nat, d: nat)
    requires d >= 3 && d % 2 == 1 && NoOddDivisor(n, d) && n % d != 0
    ensures NoOddDivisor(n, d + 2)
  {
  }

  /** Trial division by odd numbers up to the square root is enough for an odd number. */
  lemma {:induction false} TrialDivision(n: nat, bound: nat)
    requires n >= 3 && n % 2 == 1 && bound > 0 && bound > n / bound && NoOddDivisor(n, bound)
    ensures Prime(n)
  {
    MulMonotone(n / bound + 1, bound, bound);
    forall d | 1 < d < n
      ensures n % d != 0
    {
      if n % d == 0 {
        var small := SmallDivisor(n, d, bound);
      }
    }
  }

  lemma {:induction false} DivisorFound(n: nat, d: nat)
    requires 1 < d < n && n % d == 0
    ensures !Prime(n)
  {
  }

  lemma {:induction false} BelowRoot(n: nat, d: nat)
    requires 3 <= d <= n / d
    ensures d < n
  {
    MulMonotone(3, d, n / d);
  }

  method IsPrime(number: nat) returns (r: bool)
    requires 3 <= number <= UINT_MAX && number % 2 == 1
    ensures r <==> Prime(number)
  {
    hide *;
    var div := 3;
    NoDivisorYet(number);
    while div <= number / div
      invariant div >= 3 && div % 2 == 1 && NoOddDivisor(number, div)
      decreases number - div
    {
      BelowRoot(number, div);
      if number % div == 0 {
        DivisorFound(number, div);
        return false;
      }
      NextDivisor(number, div);
      div := div + 2;
    }
    TrialDivision(number, div);
    return true;
  }

  // ---- the probe sequence ----

  /** The second hash moves the probe `step` slots down, wrapping from 1 to `size`. */
  function Next(size: nat, step: nat, idx: nat): (r: nat)
    requires 1 <= step < size && 1 <= idx <= size
    ensures 1 <= r <= size
  {
    if idx <= step then size + idx - step else idx - step
  }

  /** The first hash: a slot number, never zero. */
  function First(size: nat, h: nat): (r: nat)
    requires size >= 3
    ensures 1 <= r <= size
  {
    h % size + 1
  }

  /** The second hash: how far a probe moves. */
  function Step(size: nat, h: nat): (r: nat)
    requires size >= 3
    ensures 1 <= r <= size - 2
  {
    1 + h % (size - 2)
  }

  /** The slot looked at after `k` moves, for hash value `h`. */
  function Probe(size: nat, h: nat, k: nat): (r: nat)
    requires size >= 3
    ensures 1 <= r <= size
  {
    if k == 0 then First(size, h) else Next(size, Step(size, h), Probe(size, h, k - 1))
  }

  /** `k` moves of `step` down from `first`, wrapping `w` times. */
  function Shifted(first: int, k: int, step: int, w: int, size: int): int {
    first - k * step + w * size
  }

  /** The first `k` moves have wrapped `w` times. */
  lemma {:induction false} ProbeForm(size: nat, h: nat, k: nat) returns (w: nat)
    requires size >= 3
    ensures Probe(size, h, k) == Shifted(First(size, h), k, Step(size, h), w, size)
  {
    hide First, Step;
    if k == 0 {
      w := 0;
    } else {
      var v := ProbeForm(size, h, k - 1);
      w := if Probe(size, h, k - 1) <= Step(size, h) then v + 1 else v;
      MoreByOne(k - 1, Step(size, h));
      MoreByOne(v, size);
    }
  }

  lemma {:induction false} MoreByOne(a: int, b: int)
    ensures (a + 1) * b == a * b + b
  {
  }

  predicate Annihilates(p: nat, s: nat, n: nat)
    requires p > 0
  {
    (n * s) % p == 0
  }

  lemma {:induction false} AnnihilatesRemainder(p: nat, s: nat, a: nat, b: nat)
    requires p > 0 && b > 0 && Annihilates(p, s, a) && Annihilates(p, s, b)
    ensures Annihilates(p, s, a % b)
  {
    var q, r, x, y := a / b, a % b, (a * s) / p, (b * s) / p;
    assert a == q * b + r;
    assert a * s == x * p && b * s == y * p;
    assert r * s == a * s - q * (b * s);
    assert q * (y * p) == (q * y) * p;
    assert r * s == (x - q * y) * p + 0;
    DivisionUnique(p, x - q * y, 0);
  }

  lemma {:induction false} LeastAnnihilator(p: nat, s: nat, n: nat) returns (m: nat)
    requires p > 0 && n > 0 && Annihilates(p, s, n)
    ensures 0 < m <= n && Annihilates(p, s, m)
    ensures forall j :: 0 < j < m ==> !Annihilates(p, s, j)
  {
    if j: nat :| 0 < j < n && Annihilates(p, s, j) {
      m := LeastAnnihilator(p, s, j);
    } else {
      m := n;
    }
  }

  /** A prime divides no product of two smaller positive numbers. */
  lemma {:induction false} PrimeProduct(p: nat, s: nat, n: nat)
    requires Prime(p) && 0 < s < p && 0 < n < p
    ensures !Annihilates(p, s, n)
  {
    DivisionUnique(p, s, 0);
    assert p * s == s * p + 0;
    var m := LeastAnnihilator(p, s, p);
    AnnihilatesRemainder(p, s, p, m);
    assert p % m == 0;
    DivisionUnique(p, 0, s);
    assert 1 * s == s == 0 * p + s;
    assert m == p;
  }

  lemma {:induction false} SamePlace(first: int, j: int, k: int, s: nat, v: int, w: int, p: nat)
    requires p > 0 && j <= k && Shifted(first, j, s, v, p) == Shifted(first, k, s, w, p)
    ensures Annihilates(p, s, k - j)
  {
    DivisionUnique(p, w - v, 0);
    assert (k - j) * s == k * s - j * s;
    assert (w - v) * p == w * p - v * p;
  }

  /** With a prime size no slot comes twice in `size` probes. */
  lemma {:induction false} ProbesDistinct(size: nat, h: nat, j: nat, k: nat)
    requires Prime(size) && size >= 3 && j < k < size
    ensures Probe(size, h, j) != Probe(size, h, k)
  {
    hide *;
    var v := ProbeForm(size, h, j);
    var w := ProbeForm(size, h, k);
    if Probe(size, h, j) == Probe(size, h, k) {
      SamePlace(First(size, h), j, k, Step(size, h), v, w, size);
      PrimeProduct(size, Step(size, h), k - j);
    }
  }

  lemma {:induction false} AllRound(first: int, s: int, w: int, p: nat)
    requires 1 <= first <= p && 1 <= Shifted(first, p, s, w, p) <= p
    ensures Shifted(first, p, s, w, p) == first
  {
    assert w * p - p * s == (w - s) * p;
    MultipleGap(w - s, p);
  }

  lemma {:induction false} ProbeReturns(size: nat, h: nat)
    requires size >= 3
    ensures Probe(size, h, size) == Probe(size, h, 0)
  {
    assert Probe(size, h, 0) == First(size, h);
    hide *;
    var w := ProbeForm(size, h, size);
    AllRound(First(size, h), Step(size, h), w, size);
  }

  ghost function Probed(size: nat, h: nat, n: nat): (r: set<nat>)
    requires size >= 3
  {
    if n == 0 then {} else Probed(size, h, n - 1) + {Probe(size, h, n - 1)}
  }

  lemma {:induction false} ProbedHas(size: nat, h: nat, n: nat, i: nat)
    requires size >= 3 && i in Probed(size, h, n)
    ensures 1 <= i <= size && exists k :: 0 <= k < n && Probe(size, h, k) == i
  {
    hide Probe;
    if i in Probed(size, h, n - 1) {
      ProbedHas(size, h, n - 1, i);
      var k :| 0 <= k < n - 1 && Probe(size, h, k) == i;
    }
  }

  lemma {:induction false} ProbedCount(size: nat, h: nat, n: nat)
    requires Prime(size) && size >= 3 && n <= size
    ensures |Probed(size, h, n)| == n
  {
    hide Prime, Probe;
    if n > 0 {
      ProbedCount(size, h, n - 1);
      forall j | 0 <= j < n - 1
        ensures Probe(size, h, j) != Probe(size, h, n - 1)
      {
        ProbesDistinct(size, h, j, n - 1);
      }
      if Probe(size, h, n - 1) in Probed(size, h, n - 1) {
        ProbedHas(size, h, n - 1, Probe(size, h, n - 1));
      }
    }
  }

  ghost function Slots(size: nat): (r: set<nat>)
    ensures |r| == size && forall i :: i in r <==> 1 <= i <= size
  {
    if size == 0 then {} else Slots(size - 1) + {size}
  }

  /** The probe sequence visits every slot before it comes back to its start. */
  lemma {:induction false} ProbesCover(size: nat, h: nat, i: nat)
    requires Prime(size) && size >= 3 && 1 <= i <= size
    ensures exists k :: 0 <= k < size && Probe(size, h, k) == i
  {
    hide *;
    ProbedCount(size, h, size);
    forall j | j in Probed(size, h, size)
      ensures j in Slots(size)
    {
      ProbedHas(size, h, size, j);
    }
    SubsetFull(Probed(size, h, size), Slots(size));
    ProbedHas(size, h, size, i);
  }

  lemma {:induction false} SubsetFull(a: set<nat>, b: set<nat>)
    requires a <= b && |a| == |b|
    ensures a == b
  {
    if a != b {
      var x :| x in b && x !in a;
      assert a <= b - {x};
      SubsetSize(a, b - {x});
    }
  }

  lemma {:induction false} SubsetSize(a: set<nat>, b: set<nat>)
    requires a <= b
    ensures |a| <= |b|
    decreases |a|
  {
    if a != {} {
      var x :| x in a;
      SubsetSize(a - {x}, b - {x});
    }
  }

  // ---- keys and slots ----

  /** A `char`, which is signed. */
  type Char = x: int | -128 <= x < 128

  type Key = seq<Char>

  /** The caller's pointer, kept with the key. */
  type Data = int

  function HashFrom(key: Key, count: nat, h: nat): (r: nat)
    requires count <= |key| && h < WORD
    ensures r < WORD
  {
    if count == 0 then h else HashFrom(key, count - 1, ((h * 16) % WORD + WORD + key[count - 1]) % WORD)
  }

  /** The hash value, never zero. */
  function Hash(key: Key): (h: nat)
    ensures 0 < h < WORD
  {
    var len := |key| % WORD;
    var h := HashFrom(key, len, len);
    if h == 0 then 1 else h
  }

  function Sixteen(n: nat): (r: nat) {
    if n == 0 then 1 else 16 * Sixteen(n - 1)
  }

  /** The characters as the digits of a number to the base 16, the first one lowest. */
  function Digits(key: Key): int {
    if key == [] then 0 else Digits(key[..|key| - 1]) + key[|key| - 1] * Sixteen(|key| - 1)
  }

  /** A sum wrapped to a word. */
  function Wrapped(h: int, s: int, p: int): nat {
    (h * s + p) % WORD
  }

  lemma {:induction false} WrapMore(x: int, k: int)
    ensures (x + k * WORD) % WORD == x % WORD
  {
  }

  lemma {:induction false} Distribute(h: int, c: int, m: int, s: int)
    ensures (16 * h + c + m * WORD) * s == h * (16 * s) + c * s + (m * s) * WORD
  {
    assert (16 * h + c + m * WORD) * s == (16 * h) * s + c * s + (m * WORD) * s;
  }

  /** One digit more, and its carry lost. */
  lemma {:induction false} WrappedDigit(h': int, h: int, c: int, m: int, s: int, p: int)
    requires h' == 16 * h + c + m * WORD
    ensures Wrapped(h', s, p) == Wrapped(h, 16 * s, p + c * s)
  {
    Distribute(h, c, m, s);
    WrapMore(h * (16 * s) + (p + c * s), m * s);
  }

  lemma {:induction false} Carry(h: nat, c: Char) returns (m: int)
    ensures ((h * 16) % WORD + WORD + c) % WORD == 16 * h + c + m * WORD
  {
    var x := (h * 16) % WORD + WORD + c;
    m := 1 - (h * 16) / WORD - x / WORD;
  }

  lemma {:induction false} DigitMore(key: Key, n: nat)
    requires 0 < n <= |key|
    ensures Digits(key[..n]) == Digits(key[..n - 1]) + key[n - 1] * Sixteen(n - 1)
    ensures Sixteen(n) == 16 * Sixteen(n - 1)
  {
    assert key[..n][..n - 1] == key[..n - 1];
  }

  lemma {:induction false} HashFromIs(key: Key, n: nat, h: nat)
    requires n <= |key| && h < WORD
    ensures HashFrom(key, n, h) == Wrapped(h, Sixteen(n), Digits(key[..n]))
    decreases n
  {
    if n > 0 {
      hide Wrapped, Sixteen, Digits;
      var c := key[n - 1];
      var h' := ((h * 16) % WORD + WORD + c) % WORD;
      var m := Carry(h, c);
      HashFromIs(key, n - 1, h');
      DigitMore(key, n);
      WrappedDigit(h', h, c, m, Sixteen(n - 1), Digits(key[..n - 1]));
    }
  }

  /** The hash in one formula, wrapped once: the length of the key is the digit above
      its characters, and 0 becomes 1. */
  lemma {:induction false} HashIs(key: Key)
    requires |key| < WORD
    ensures var h := (|key| * Sixteen(|key|) + Digits(key)) % WORD; Hash(key) == if h == 0 then 1 else h
  {
    hide HashFrom, Digits, Sixteen;
    assert key[..|key|] == key && |key| % WORD == |key|;
    HashFromIs(key, |key|, |key|);
  }

  method ComputeHash(key: Key) returns (hval: nat)
    ensures hval == Hash(key)
  {
    var len := |key| % WORD;
    hval := len;
    var count := len;
    while count > 0
      invariant 0 <= count <= |key| && hval < WORD
      invariant HashFrom(key, count, hval) == HashFrom(key, len, len)
    {
      count := count - 1;
      hval := (hval * 16) % WORD;
      hval := (hval + WORD + key[count]) % WORD;
    }
    if hval == 0 {
      hval := hval + 1;
    }
  }

  datatype Entry = Zeroed | Entry(key: Key, data: Data)

  /** `used` is zero for a free slot and the hash of the key otherwise. */
  datatype Slot = Slot(used: nat, entry: Entry)

  predicate Has(s: Slot, key: Key) {
    s.used != 0 && s.entry.Entry? && s.entry.key == key
  }

  /** The first `n` probes for `h` all hit slots in use. */
  ghost predicate Passed(t: seq<Slot>, size: nat, h: nat, n: nat)
    requires size >= 3 && |t| == size + 1
  {
    forall j :: 0 <= j < n ==> t[Probe(size, h, j)].used != 0
  }

  /** Slot `i` is reached for `h` by way of slots in use. */
  ghost predicate OnPath(t: seq<Slot>, size: nat, h: nat, i: nat)
    requires size >= 3 && |t| == size + 1
  {
    exists k :: 0 <= k < size && Probe(size, h, k) == i && Passed(t, size, h, k)
  }

  ghost predicate Sound(t: seq<Slot>, size: nat)
    requires size >= 3 && |t| == size + 1
  {
    forall i :: 1 <= i <= size && t[i].used != 0 ==>
      t[i].entry.Entry? && t[i].used == Hash(t[i].entry.key) && OnPath(t, size, t[i].used, i)
  }

  /** The table holds the map `m`, each key once. */
  ghost predicate Holds(t: seq<Slot>, size: nat, m: map<Key, Data>)
    requires |t| == size + 1
  {
    && (forall i, key :: 1 <= i <= size && Has(t[i], key) ==> key in m && m[key] == t[i].entry.data)
    && (forall key :: key in m ==> exists i :: 1 <= i <= size && Has(t[i], key))
    && (forall i, j, key :: 1 <= i <= size && 1 <= j <= size && Has(t[i], key) && Has(t[j], key) ==> i == j)
  }

  ghost function Used(t: seq<Slot>, size: nat): (r: set<nat>)
    requires |t| == size + 1
  {
    set i | 1 <= i <= size && t[i].used != 0
  }

  ghost predicate Represents(t: seq<Slot>, size: nat, m: map<Key, Data>) {
    && size >= 3 && |t| == size + 1
    && Sound(t, size) && Holds(t, size, m) && |Used(t, size)| == |m|
  }

  ghost predicate Absent(t: seq<Slot>, size: nat, key: Key)
    requires |t| == size + 1
  {
    forall i :: 1 <= i <= size ==> !Has(t[i], key)
  }

  /** A path cannot lead over a free slot. */
  lemma {:induction false} PathCut(t: seq<Slot>, size: nat, h: nat, i: nat, k: nat)
    requires size >= 3 && |t| == size + 1 && 1 <= i <= size && k < size && t[Probe(size, h, k)].used == 0
    ensures OnPath(t, size, h, i) && t[i].used != 0 ==> exists n :: 0 <= n < k && Probe(size, h, n) == i
  {
    if OnPath(t, size, h, i) && t[i].used != 0 {
      var n :| 0 <= n < size && Probe(size, h, n) == i && Passed(t, size, h, n);
      assert n < k;
    }
  }

  /** The test the source makes on a slot: the stored hash first, then the key. */
  predicate Matches(s: Slot, hval: nat, key: Key) {
    s.used == hval && s.entry.Entry? && s.entry.key == key
  }

  lemma {:induction false} MatchHas(s: Slot, key: Key)
    requires Matches(s, Hash(key), key)
    ensures Has(s, key)
  {
  }

  /** The first `n` probes hit slots in use that do not have the key. */
  ghost predicate Walked(t: seq<Slot>, size: nat, key: Key, n: nat)
    requires size >= 3 && |t| == size + 1
  {
    forall j :: 0 <= j < n ==>
      t[Probe(size, Hash(key), j)].used != 0 && !Has(t[Probe(size, Hash(key), j)], key)
  }

  lemma {:induction false} NoneWalked(t: seq<Slot>, size: nat, key: Key)
    requires size >= 3 && |t| == size + 1
    ensures Walked(t, size, key, 0)
  {
  }

  lemma {:induction false} WalkedMore(t: seq<Slot>, size: nat, key: Key, k: nat)
    requires size >= 3 && |t| == size + 1 && Sound(t, size) && (k == 0 || Walked(t, size, key, k))
    requires t[Probe(size, Hash(key), k)].used != 0
    requires !Matches(t[Probe(size, Hash(key), k)], Hash(key), key)
    ensures Walked(t, size, key, k + 1)
  {
    hide Hash, Probe, OnPath;
    var i := Probe(size, Hash(key), k);
    assert t[i].used == Hash(t[i].entry.key);
  }

  /** A free slot ends the search: the key is nowhere. */
  lemma {:induction false} MissAtFree(t: seq<Slot>, size: nat, key: Key, k: nat)
    requires size >= 3 && |t| == size + 1 && Sound(t, size) && k < size && Walked(t, size, key, k)
    requires t[Probe(size, Hash(key), k)].used == 0
    ensures Absent(t, size, key) && OnPath(t, size, Hash(key), Probe(size, Hash(key), k))
  {
    assert Passed(t, size, Hash(key), k);
    hide OnPath, Hash, Probe, Passed;
    forall i | 1 <= i <= size
      ensures !Has(t[i], key)
    {
      PathCut(t, size, Hash(key), i, k);
    }
    PathHere(t, size, Hash(key), k);
  }

  lemma {:induction false} PathHere(t: seq<Slot>, size: nat, h: nat, k: nat)
    requires size >= 3 && |t| == size + 1 && k < size && Passed(t, size, h, k)
    ensures OnPath(t, size, h, Probe(size, h, k))
  {
  }

  /** Back at the start: every slot is in use and none has the key. */
  lemma {:induction false} MissAllRound(t: seq<Slot>, size: nat, key: Key)
    requires Prime(size) && size >= 3 && |t| == size + 1 && Walked(t, size, key, size)
    ensures Absent(t, size, key) && Used(t, size) == Slots(size)
  {
    hide Prime, Probe, Hash;
    forall i | 1 <= i <= size
      ensures !Has(t[i], key) && t[i].used != 0
    {
      ProbesCover(size, Hash(key), i);
    }
  }

  /** The wrapped 32-bit arithmetic of a move is exact. */
  lemma {:induction false} ProbeWord(size: nat, step: nat, idx: nat)
    requires 1 <= step < size < WORD && 1 <= idx <= size
    ensures (if idx <= step then Sub32(Add32(size, idx), step) else idx - step) == Next(size, step, idx)
  {
  }

  lemma {:induction false} NotFull(t: seq<Slot>, size: nat, m: map<Key, Data>, i: nat)
    requires Represents(t, size, m) && 1 <= i <= size && t[i].used == 0
    ensures |m| < size
  {
    assert i in Slots(size) && i !in Used(t, size);
    SubsetSize(Used(t, size), Slots(size) - {i});
  }

  lemma {:induction false} InsertHolds(t: seq<Slot>, size: nat, m: map<Key, Data>, i: nat, key: Key, data: Data)
    requires |t| == size + 1 && Holds(t, size, m) && 1 <= i <= size && t[i].used == 0 && Absent(t, size, key)
    ensures key !in m && Holds(t[i := Slot(Hash(key), Entry(key, data))], size, m[key := data])
  {
    hide Hash;
    var t' := t[i := Slot(Hash(key), Entry(key, data))];
    assert Has(t'[i], key);
    var m' := m[key := data];
    forall x | x in m'
      ensures exists j :: 1 <= j <= size && Has(t'[j], x)
    {
      if x != key {
        var j :| 1 <= j <= size && Has(t[j], x);
        assert Has(t'[j], x);
      }
    }
  }

  lemma {:induction false} InsertSound(t: seq<Slot>, size: nat, i: nat, key: Key, data: Data)
    requires size >= 3 && |t| == size + 1 && Sound(t, size) && 1 <= i <= size
    requires OnPath(t, size, Hash(key), i)
    ensures Sound(t[i := Slot(Hash(key), Entry(key, data))], size)
  {
    hide Hash, OnPath;
    var s := Slot(Hash(key), Entry(key, data));
    var t' := t[i := s];
    forall j | 1 <= j <= size && t'[j].used != 0
      ensures OnPath(t', size, t'[j].used, j)
    {
      PathStays(t, size, i, s, t'[j].used, j);
    }
  }

  lemma {:induction false} PathStays(t: seq<Slot>, size: nat, i: nat, s: Slot, h: nat, j: nat)
    requires size >= 3 && |t| == size + 1 && 1 <= i <= size && s.used != 0 && OnPath(t, size, h, j)
    ensures OnPath(t[i := s], size, h, j)
  {
    var k :| 0 <= k < size && Probe(size, h, k) == j && Passed(t, size, h, k);
    assert Passed(t[i := s], size, h, k);
  }

  lemma {:induction false} Insert(t: seq<Slot>, size: nat, m: map<Key, Data>, i: nat, key: Key, data: Data)
    requires Represents(t, size, m) && 1 <= i <= size && t[i].used == 0
    requires Absent(t, size, key) && OnPath(t, size, Hash(key), i)
    ensures Represents(t[i := Slot(Hash(key), Entry(key, data))], size, m[key := data])
  {
    hide Holds, Sound, Hash;
    InsertHolds(t, size, m, i, key, data);
    InsertSound(t, size, i, key, data);
    assert Used(t[i := Slot(Hash(key), Entry(key, data))], size) == Used(t, size) + {i};
  }

  lemma {:induction false} FoundIn(t: seq<Slot>, size: nat, m: map<Key, Data>, i: nat, key: Key)
    requires Represents(t, size, m) && 1 <= i <= size && Has(t[i], key)
    ensures key in m && t[i].entry == Entry(key, m[key])
  {
  }

  lemma {:induction false} NotIn(t: seq<Slot>, size: nat, m: map<Key, Data>, key: Key)
    requires Represents(t, size, m) && Absent(t, size, key)
    ensures key !in m
  {
  }

  lemma {:induction false} FullTable(t: seq<Slot>, size: nat, m: map<Key, Data>)
    requires Represents(t, size, m)
    ensures Used(t, size) == Slots(size) ==> |m| == size
  {
  }

  lemma {:induction false} EmptyTable(t: seq<Slot>, size: nat)
    requires size >= 3 && |t| == size + 1 && forall i :: 0 <= i <= size ==> t[i].used == 0
    ensures Represents(t, size, map[])
  {
    assert Used(t, size) == {};
  }

  // ---- the reference ----

  datatype Operation = Operation(key: Key, data: Data, enter: bool)

  datatype Result = Success(data: Data) | Failure

  /** One call on a finite map with room for `size` keys. */
  function Apply(size: nat, m: map<Key, Data>, op: Operation): (map<Key, Data>, Result) {
    if op.key in m then (m, Success(m[op.key]))
    else if op.enter && |m| < size then (m[op.key := op.data], Success(op.data))
    else (m, Failure)
  }

  function After(size: nat, ops: seq<Operation>): (m: map<Key, Data>) {
    if ops == [] then map[] else Apply(size, After(size, ops[..|ops| - 1]), ops[|ops| - 1]).0
  }

  /** What the run answers, call by call. */
  function Answers(size: nat, ops: seq<Operation>): (r: seq<Result>)
    ensures |r| == |ops|
  {
    if ops == [] then []
    else
      var before := ops[..|ops| - 1];
      Answers(size, before) + [Apply(size, After(size, before), ops[|ops| - 1]).1]
  }

  class HsearchData {
    var table: array?<Slot>
    var size: nat
    var filled: nat
    ghost var contents: map<Key, Data>

    ghost predicate Valid()
      reads this, table
    {
      table != null ==>
        && 3 <= size <= UINT_MAX - 2 && Prime(size)
        && table.Length == size + 1 && filled == |contents|
        && Represents(table[..], size, contents)
    }

    constructor ()
      ensures table == null && Valid()
    {
      table, size, filled := null, 0, 0;
      contents := map[];
    }

    /** __hcreate_r: the size is the first prime from max(nel, 3) on. */
    method Create(nel: nat) returns (ok: bool)
      requires Valid()
      modifies this
      ensures Valid()
      ensures old(table) != null ==> !ok && table == old(table)
      ensures old(table) == null && !ok ==>
                table == null && forall n :: nel <= n && 3 <= n <= UINT_MAX - 2 ==> !Prime(n)
      ensures ok ==> old(table) == null && table != null && fresh(table) && contents == map[]
      ensures ok ==> nel <= size && 3 <= size <= UINT_MAX - 2 && Prime(size)
      ensures ok ==> forall n :: nel <= n < size && 3 <= n ==> !Prime(n)
    {
      if table != null {
        return false;
      }
      hide *;
      var n := if nel < 3 then 3 else nel;
      ghost var least := n;
      if n % 2 == 0 {
        EvenNotPrime(n);
        n := n + 1;
      }
      while true
        invariant n % 2 == 1 && n >= least >= 3
        invariant forall c :: least <= c < n ==> !Prime(c)
        invariant table == null && unchanged(this)
        decreases UINT_MAX - n
      {
        if UINT_MAX - 2 < n {
          return false;
        }
        var p := IsPrime(n);
        if p {
          break;
        }
        EvenNotPrime(n + 1);
        n := n + 2;
      }
      MakeTable(n);
      ok := true;
    }

    /** calloc of the table for a prime number of entries. */
    method MakeTable(n: nat)
      requires table == null && Prime(n) && 3 <= n <= UINT_MAX - 2
      modifies this
      ensures Valid() && table != null && fresh(table) && contents == map[] && size == n
    {
      size, filled := n, 0;
      contents := map[];
      table := new Slot[size + 1](i => Slot(0, Zeroed));
      EmptyTable(table[..], size);
    }

    method Destroy()
      modifies this
      ensures table == null && Valid()
    {
      table := null;
    }

    /** The probing part of __hsearch_r. It stops at the key, at a free slot, or back
        at its start with every slot in use. */
    method Locate(key: Key, hval: nat) returns (found: bool, idx: nat)
      requires table != null && Valid() && hval == Hash(key)
      ensures 1 <= idx <= size
      ensures found ==> Has(table[idx], key)
      ensures !found ==> Absent(table[..], size, key)
      ensures !found && table[idx].used == 0 ==> OnPath(table[..], size, hval, idx)
      ensures !found && table[idx].used != 0 ==> Used(table[..], size) == Slots(size)
    {
      hide Holds, Sound, Prime, Hash, Has, Walked, OnPath, Absent, Used, First, Step;
      ghost var t, k := table[..], 0;
      idx := First(size, hval);
      if table[idx].used == 0 {
        NoneWalked(t, size, key);
        MissAtFree(t, size, key, 0);
        return false, idx;
      }
      if Matches(table[idx], hval, key) {
        MatchHas(t[idx], key);
        return true, idx;
      }
      WalkedMore(t, size, key, 0);
      var hval2, firstIdx := Step(size, hval), idx;
      while true
        invariant k < size && 1 <= idx <= size && idx == Probe(size, hval, k)
        invariant Walked(t, size, key, k + 1)
        decreases size - k
      {
        ProbeWord(size, hval2, idx);
        idx := if idx <= hval2 then Sub32(Add32(size, idx), hval2) else idx - hval2;
        k := k + 1;
        assert idx == Probe(size, hval, k);
        if idx == firstIdx {
          if k < size {
            ProbesDistinct(size, hval, 0, k);
          }
          MissAllRound(t, size, key);
          return false, idx;
        }
        if k == size {
          ProbeReturns(size, hval);
        }
        if Matches(table[idx], hval, key) {
          MatchHas(t[idx], key);
          return true, idx;
        }
        if table[idx].used == 0 {
          MissAtFree(t, size, key, k);
          return false, idx;
        }
        WalkedMore(t, size, key, k);
      }
    }

    /** __hsearch_r: one call does what the finite map does. */
    method Search(op: Operation) returns (ok: bool, retval: nat)
      requires table != null && Valid()
      modifies this`filled, this`contents, table
      ensures Valid() && table == old(table)
      ensures contents == Apply(size, old(contents), op).0
      ensures ok <==> Apply(size, old(contents), op).1.Success?
      ensures ok ==> 1 <= retval <= size && table[retval].entry == Entry(op.key, contents[op.key])
    {
      hide Represents, Has, Absent, OnPath, Used, Slots, Hash, Prime;
      var hval := ComputeHash(op.key);
      var found, idx := Locate(op.key, hval);
      if found {
        FoundIn(table[..], size, contents, idx, op.key);
        return true, idx;
      }
      NotIn(table[..], size, contents, op.key);
      if op.enter {
        if filled == size {
          return false, 0;
        }
        FullTable(table[..], size, contents);
        NotFull(table[..], size, contents, idx);
        Insert(table[..], size, contents, idx, op.key, op.data);
        table[idx] := Slot(hval, Entry(op.key, op.data));
        filled := filled + 1;
        contents := contents[op.key := op.data];
        return true, idx;
      }
      return false, 0;
    }

    /** Any sequence of calls on a new table. */
    method Run(ops: seq<Operation>) returns (answers: seq<Result>)
      requires table != null && Valid() && contents == map[]
      modifies this`filled, this`contents, table
      ensures Valid() && table == old(table) && contents == After(size, ops)
      ensures answers == Answers(size, ops)
    {
      hide Represents, Prime;
      answers := [];
      for i := 0 to |ops|
        invariant table == old(table) && Valid()
        invariant contents == After(size, ops[..i]) && answers == Answers(size, ops[..i])
      {
        assert ops[..i + 1][..i] == ops[..i];
        var ok, retval := Search(ops[i]);
        if ok {
          answers := answers + [Success(table[retval].entry.data)];
        } else {
          answers := answers + [Failure];
        }
      }
      assert ops[..|ops|] == ops;
    }
  }

  lemma {:induction false} EvenNotPrime(n: nat)
    requires n > 2 && n % 2 == 0
    ensures !Prime(n)
  {
  }

  // ---- what a run answers, in terms of the calls alone ----

  /** The keys some call tried to enter. */
  ghost function Entered(ops: seq<Operation>): set<Key> {
    set i | 0 <= i < |ops| && ops[i].enter :: ops[i].key
  }

  /** Call `i` is the first to enter `key`, and fewer than `size` keys came before it. */
  ghost predicate EnteredAt(size: nat, ops: seq<Operation>, i: nat, key: Key)
    requires i < |ops|
  {
    && ops[i].enter && ops[i].key == key
    && key !in Entered(ops[..i]) && |Entered(ops[..i])| < size
  }

  lemma {:induction false} EnteredOneMore(ops: seq<Operation>)
    requires ops != []
    ensures var last := ops[|ops| - 1]; var before := Entered(ops[..|ops| - 1]);
            Entered(ops) == if last.enter then before + {last.key} else before
  {
    var n := |ops| - 1;
    forall key | key in Entered(ops)
      ensures key in Entered(ops[..n]) || (ops[n].enter && key == ops[n].key)
    {
      var i :| 0 <= i < |ops| && ops[i].enter && ops[i].key == key;
      assert i < n ==> ops[..n][i] == ops[i];
    }
    forall key | key in Entered(ops[..n])
      ensures key in Entered(ops)
    {
      var i :| 0 <= i < n && ops[..n][i].enter && ops[..n][i].key == key;
      assert ops[i] == ops[..n][i];
    }
  }

  /** What a table with room for `size` keys keeps of the keys offered to it. */
  ghost predicate Keeps(size: nat, keys: set<Key>, offered: set<Key>) {
    && keys <= offered
    && |keys| == (if |offered| < size then |offered| else size)
    && (|offered| < size ==> keys == offered)
  }

  lemma {:induction false} KeepsOneMore(size: nat, keys: set<Key>, offered: set<Key>, key: Key)
    requires Keeps(size, keys, offered)
    ensures key in keys ==> Keeps(size, keys, offered + {key})
    ensures key !in keys && |keys| < size ==> Keeps(size, keys + {key}, offered + {key})
    ensures key !in keys && |keys| >= size ==> Keeps(size, keys, offered + {key})
  {
    if key in keys {
      assert offered + {key} == offered;
    } else if |keys| < size {
      assert |keys + {key}| == |keys| + 1;
      assert keys + {key} == offered + {key};
    } else {
      Superset(offered, offered + {key});
    }
  }

  /** The table takes new keys until `size` of them are in. */
  lemma {:induction false} KeysTaken(size: nat, ops: seq<Operation>)
    ensures Keeps(size, After(size, ops).Keys, Entered(ops))
    ensures |After(size, ops)| == |After(size, ops).Keys|
  {
    if ops != [] {
      var before, last := ops[..|ops| - 1], ops[|ops| - 1];
      var m := After(size, before);
      hide Entered, After, Keeps;
      KeysTaken(size, before);
      EnteredOneMore(ops);
      AfterOneMore(size, ops);
      KeepsOneMore(size, m.Keys, Entered(before), last.key);
      SameKeys(After(size, ops));
      assert m[last.key := last.data].Keys == m.Keys + {last.key};
    } else {
      assert Entered(ops) == {};
      assert After(size, ops).Keys == {};
    }
  }

  lemma {:induction false} AfterOneMore(size: nat, ops: seq<Operation>)
    requires ops != []
    ensures After(size, ops) == Apply(size, After(size, ops[..|ops| - 1]), ops[|ops| - 1]).0
  {
  }

  lemma {:induction false} SameKeys(m: map<Key, Data>)
    ensures |m| == |m.Keys|
  {
  }

  lemma {:induction false} Superset(a: set<Key>, b: set<Key>)
    requires a <= b
    ensures |a| <= |b|
  {
    assert b == a + (b - a);
  }

  lemma {:induction false} EnteredBefore(size: nat, ops: seq<Operation>, n: nat, i: nat, key: Key)
    requires i < n <= |ops|
    ensures EnteredAt(size, ops[..n], i, key) <==> EnteredAt(size, ops, i, key)
  {
    assert ops[..n][..i] == ops[..i];
  }

  /** The last call is the first to enter its key exactly if the table is changed by it. */
  lemma {:induction false} EnteredLast(size: nat, ops: seq<Operation>, key: Key)
    requires ops != []
    ensures var n := |ops| - 1; var m := After(size, ops[..n]);
            EnteredAt(size, ops, n, key) <==> ops[n].enter && ops[n].key == key && key !in m && |m| < size
  {
    hide Entered, After;
    KeysTaken(size, ops[..|ops| - 1]);
  }

  /** A key is in the table exactly when its first ENTER came while there was room, and
      it carries the data of that call. */
  lemma {:induction false} FirstEntered(size: nat, ops: seq<Operation>, key: Key)
    ensures key in After(size, ops) <==> exists i :: 0 <= i < |ops| && EnteredAt(size, ops, i, key)
    ensures forall i :: 0 <= i < |ops| && EnteredAt(size, ops, i, key) ==>
              key in After(size, ops) && After(size, ops)[key] == ops[i].data
  {
    if ops != [] {
      var n := |ops| - 1;
      var before := ops[..n];
      hide EnteredAt, Entered, After;
      AfterOneMore(size, ops);
      EnteredLast(size, ops, key);
      FirstEntered(size, before, key);
      forall i | 0 <= i < n
        ensures EnteredAt(size, before, i, key) <==> EnteredAt(size, ops, i, key)
      {
        EnteredBefore(size, ops, n, i, key);
      }
    }
  }

  lemma {:induction false} AnswerAt(size: nat, ops: seq<Operation>, i: nat)
    requires i < |ops|
    ensures Answers(size, ops)[i] == Apply(size, After(size, ops[..i]), ops[i]).1
  {
    if i < |ops| - 1 {
      AnswerAt(size, ops[..|ops| - 1], i);
      assert ops[..|ops| - 1][..i] == ops[..i];
    }
  }

  /** Every answer from the calls up to it: an entered key gives the data it was first
      entered with to a FIND and to a repeated ENTER alike. Otherwise a FIND fails,
      and an ENTER succeeds, with its own data, exactly if fewer than `size` keys came
      before it. */
  lemma {:induction false} Answered(size: nat, ops: seq<Operation>, i: nat)
    requires i < |ops|
    ensures forall j :: 0 <= j < i && EnteredAt(size, ops, j, ops[i].key) ==>
              Answers(size, ops)[i] == Success(ops[j].data)
    ensures (forall j :: 0 <= j < i ==> !EnteredAt(size, ops, j, ops[i].key)) ==>
              Answers(size, ops)[i] ==
              if ops[i].enter && |Entered(ops[..i])| < size then Success(ops[i].data) else Failure
  {
    hide Entered, After, Answers;
    var key, earlier := ops[i].key, ops[..i];
    AnswerAt(size, ops, i);
    KeysTaken(size, earlier);
    FirstEntered(size, earlier, key);
    forall j | 0 <= j < i
      ensures EnteredAt(size, earlier, j, key) <==> EnteredAt(size, ops, j, key)
    {
      EnteredBefore(size, ops, i, j, key);
    }
  }
}
