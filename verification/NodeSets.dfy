/** Node sets of the regex engine: strictly increasing index arrays that are
    merged inside their own buffer (src/regex/regex_internal.c). */
module NodeSets {

  ghost predicate Increasing(s: seq<nat>) {
    forall i, j :: 0 <= i < j < |s| ==> s[i] < s[j]
  }

  ghost function Elems(s: seq<nat>): set<nat> {
    set x | x in s
  }

  lemma {:induction false} Snoc(s: seq<nat>, x: nat)
    requires Increasing(s) && forall y :: y in Elems(s) ==> y < x
    ensures Increasing(s + [x]) && Elems(s + [x]) == Elems(s) + {x}
  {
    forall i | 0 <= i < |s| ensures s[i] < x { assert s[i] in Elems(s); }
  }

  lemma {:induction false} Unsnoc(s: seq<nat>)
    requires Increasing(s) && s != []
    ensures var t, x := s[..|s| - 1], s[|s| - 1];
            Increasing(t) && Elems(s) == Elems(t) + {x} && forall y :: y in Elems(t) ==> y < x
  {
    var t, x := s[..|s| - 1], s[|s| - 1];
    assert s == t + [x];
  }

  lemma {:induction false} Cons(x: nat, s: seq<nat>)
    requires Increasing(s) && forall y :: y in Elems(s) ==> x < y
    ensures Increasing([x] + s) && Elems([x] + s) == {x} + Elems(s)
  {
    forall i | 0 <= i < |s| ensures x < s[i] { assert s[i] in Elems(s); }
  }

  lemma {:induction false} Uncons(s: seq<nat>)
    requires Increasing(s) && s != []
    ensures Increasing(s[1..]) && Elems(s) == {s[0]} + Elems(s[1..])
    ensures forall y :: y in Elems(s[1..]) ==> s[0] < y
  {
    assert s == [s[0]] + s[1..];
  }

  /** The part of `s` that is not already in `d`, in order. */
  ghost function Missing(s: seq<nat>, d: seq<nat>): (r: seq<nat>)
    ensures |r| <= |s|
  {
    if s == [] then []
    else if s[0] in d then Missing(s[1..], d)
    else [s[0]] + Missing(s[1..], d)
  }

  lemma {:induction false} MissingFacts(s: seq<nat>, d: seq<nat>)
    requires Increasing(s)
    ensures Increasing(Missing(s, d))
    ensures Elems(Missing(s, d)) == Elems(s) - Elems(d)
  {
    if s != [] {
      Uncons(s);
      MissingFacts(s[1..], d);
      if s[0] !in d {
        Cons(s[0], Missing(s[1..], d));
      }
    }
  }

  lemma {:induction false} AddCommonEdges(d: seq<nat>, s1: seq<nat>, s2: seq<nat>)
    ensures AddCommon(d, s1, s2) == MergeTop(d, Missing(Common(s1, s2), d))
    ensures s1 == [] || s2 == [] ==> AddCommon(d, s1, s2) == d
  {
    if s2 == [] && s1 != [] {
      CommonNone(s1);
    }
  }

  lemma {:induction false} CommonNone(s: seq<nat>)
    ensures Common(s, []) == []
  {
    if s != [] {
      CommonNone(s[1..]);
    }
  }

  ghost predicate Apart(s: seq<nat>, d: seq<nat>) {
    forall i, j :: 0 <= i < |s| && 0 <= j < |d| ==> s[i] != d[j]
  }

  lemma {:induction false} AllMissing(s: seq<nat>, d: seq<nat>)
    requires Apart(s, d)
    ensures Missing(s, d) == s
  {
    if s != [] {
      AllMissing(s[1..], d);
    }
  }

  lemma {:induction false} MissingSplit(s: seq<nat>, t: seq<nat>, d: seq<nat>)
    ensures Missing(s + t, d) == Missing(s, d) + Missing(t, d)
  {
    if s == [] {
      assert s + t == t;
    } else {
      var u := s + t;
      assert u[1..] == s[1..] + t && u[0] == s[0];
      MissingSplit(s[1..], t, d);
      var head := if s[0] in d then [] else [s[0]];
      assert Missing(u, d) == head + (Missing(s[1..], d) + Missing(t, d));
      assert Missing(s, d) == head + Missing(s[1..], d);
    }
  }

  lemma {:induction false} MissingLow(s: seq<nat>, i: nat, d: seq<nat>)
    requires i <= |s| && Apart(s[..i], d)
    ensures Missing(s, d) == s[..i] + Missing(s[i..], d)
  {
    AllMissing(s[..i], d);
    MissingSplit(s[..i], s[i..], d);
    assert s == s[..i] + s[i..];
  }

  /** Both inputs merged from the top down: the order in which the in-place
      loops move elements. */
  ghost function MergeTop(a: seq<nat>, b: seq<nat>): (r: seq<nat>)
    ensures |r| == |a| + |b|
    decreases |a| + |b|
  {
    if b == [] then a
    else if a == [] then b
    else if b[|b| - 1] > a[|a| - 1] then MergeTop(a, b[..|b| - 1]) + [b[|b| - 1]]
    else MergeTop(a[..|a| - 1], b) + [a[|a| - 1]]
  }

  lemma {:induction false} MergeTopFacts(a: seq<nat>, b: seq<nat>)
    requires Increasing(a) && Increasing(b)
    requires Elems(a) !! Elems(b)
    ensures Elems(MergeTop(a, b)) == Elems(a) + Elems(b)
    ensures Increasing(MergeTop(a, b))
    decreases |a| + |b|
  {
    if a != [] && b != [] {
      var x, y := a[|a| - 1], b[|b| - 1];
      Unsnoc(a);
      Unsnoc(b);
      hide Elems, Increasing;
      assert x in Elems(a) && y in Elems(b);
      if y > x {
        MergeTopFacts(a, b[..|b| - 1]);
        Snoc(MergeTop(a, b[..|b| - 1]), y);
      } else {
        MergeTopFacts(a[..|a| - 1], b);
        Snoc(MergeTop(a[..|a| - 1], b), x);
      }
    } else {
      NoElems(a);
      NoElems(b);
    }
  }

  lemma {:induction false} NoElems(s: seq<nat>)
    ensures Elems(s) == {} <==> s == []
  {
    assert s != [] ==> s[0] in Elems(s);
  }

  /** The buffer `re_node_set_merge` leaves. */
  ghost function Union(d: seq<nat>, src: seq<nat>): seq<nat> {
    MergeTop(d, Missing(src, d))
  }

  lemma {:induction false} UnionFacts(d: seq<nat>, src: seq<nat>)
    requires Increasing(d) && Increasing(src)
    ensures Increasing(Union(d, src))
    ensures Elems(Union(d, src)) == Elems(d) + Elems(src)
  {
    MissingFacts(src, d);
    MergeTopFacts(d, Missing(src, d));
  }

  lemma {:induction false} UnionEdges(d: seq<nat>, src: seq<nat>)
    ensures Union(d, []) == d && Union([], src) == src
    ensures Union(d, src) == MergeTop(d, Missing(src, d))
  {
    AllMissing(src, []);
  }

  /** A set of nodes has one representation, so comparing buffers compares sets. */
  lemma {:induction false} SameElemsSameSeq(a: seq<nat>, b: seq<nat>)
    requires Increasing(a) && Increasing(b)
    requires Elems(a) == Elems(b)
    ensures a == b
  {
    hide Elems, Increasing;
    NoElems(a);
    NoElems(b);
    if a != [] {
      Uncons(a);
      Uncons(b);
      SameHead(a[0], Elems(a[1..]), b[0], Elems(b[1..]));
      SameElemsSameSeq(a[1..], b[1..]);
      assert a == [a[0]] + a[1..] && b == [b[0]] + b[1..];
    }
  }

  lemma {:induction false} SameHead(x: nat, s: set<nat>, y: nat, t: set<nat>)
    requires (forall z :: z in s ==> x < z) && (forall z :: z in t ==> y < z) && {x} + s == {y} + t
    ensures x == y && s == t
  {
    assert x in {y} + t && y in {x} + s;
    assert x !in s && x !in t;
    assert s == ({x} + s) - {x} && t == ({y} + t) - {y};
  }

  /** The part of `s` that is also in `d`, in order. */
  ghost function Common(s: seq<nat>, d: seq<nat>): (r: seq<nat>)
    ensures |r| <= |s|
  {
    if s == [] then []
    else if s[0] in d then [s[0]] + Common(s[1..], d)
    else Common(s[1..], d)
  }

  lemma {:induction false} CommonFacts(s: seq<nat>, d: seq<nat>)
    requires Increasing(s)
    ensures Increasing(Common(s, d))
    ensures Elems(Common(s, d)) == Elems(s) * Elems(d)
  {
    if s != [] {
      Uncons(s);
      CommonFacts(s[1..], d);
      if s[0] in d {
        Cons(s[0], Common(s[1..], d));
      }
    }
  }

  /** What `re_node_set_add_intersect` leaves. */
  ghost function AddCommon(d: seq<nat>, s1: seq<nat>, s2: seq<nat>): seq<nat> {
    MergeTop(d, Missing(Common(s1, s2), d))
  }

  lemma {:induction false} AddCommonFacts(d: seq<nat>, s1: seq<nat>, s2: seq<nat>)
    requires Increasing(d) && Increasing(s1)
    ensures Increasing(AddCommon(d, s1, s2))
    ensures Elems(AddCommon(d, s1, s2)) == Elems(d) + Elems(s1) * Elems(s2)
  {
    CommonFacts(s1, s2);
    MissingFacts(Common(s1, s2), d);
    MergeTopFacts(d, Missing(Common(s1, s2), d));
  }

  /** `all` is the final order; its first `i + d` places are still to be filled
      from the first `i` items of `a` and the first `d` of `b`. */
  ghost predicate Pending(a: seq<nat>, b: seq<nat>, i: int, d: int, all: seq<nat>) {
    && 0 <= i <= |a| && 0 <= d <= |b| && i + d <= |all|
    && MergeTop(a[..i], b[..d]) == all[..i + d]
  }

  lemma {:induction false} PendingStart(a: seq<nat>, b: seq<nat>)
    ensures Pending(a, b, |a|, |b|, MergeTop(a, b))
  {
    assert a[..|a|] == a && b[..|b|] == b && MergeTop(a, b)[..|a| + |b|] == MergeTop(a, b);
  }

  lemma {:induction false} PendingStep(a: seq<nat>, b: seq<nat>, i: int, d: int, all: seq<nat>)
    requires Pending(a, b, i, d, all) && 0 < i && 0 < d
    ensures b[d - 1] > a[i - 1] ==> all[i + d - 1] == b[d - 1] && Pending(a, b, i, d - 1, all)
    ensures b[d - 1] <= a[i - 1] ==> all[i + d - 1] == a[i - 1] && Pending(a, b, i - 1, d, all)
  {
    var u, x, y := all[..i + d], a[..i], b[..d];
    assert x[..i - 1] == a[..i - 1] && y[..d - 1] == b[..d - 1];
    assert u[..i + d - 1] == all[..i + d - 1] && u[i + d - 1] == all[i + d - 1];
  }

  /** When one side has run out, the rest of `all` is the other side. */
  lemma {:induction false} PendingDone(a: seq<nat>, b: seq<nat>, i: int, d: int, all: seq<nat>)
    requires Pending(a, b, i, d, all) && (i == 0 || d == 0)
    ensures forall k :: 0 <= k < i ==> all[k] == a[k]
    ensures forall k :: 0 <= k < d ==> all[k] == b[k]
  {
    assert all[..i + d] == a[..i] + b[..d];
    assert forall k :: 0 <= k < i + d ==> all[k] == (a[..i] + b[..d])[k];
  }

  /** The increasing sequence with one more element. */
  function Inserted(s: seq<nat>, x: nat): (r: seq<nat>)
    ensures |r| == |s| + 1
  {
    if s == [] then [x]
    else if x < s[0] then [x] + s
    else [s[0]] + Inserted(s[1..], x)
  }

  lemma {:induction false} InsertedFacts(s: seq<nat>, x: nat)
    requires Increasing(s) && x !in Elems(s)
    ensures Increasing(Inserted(s, x)) && Elems(Inserted(s, x)) == Elems(s) + {x}
  {
    if s != [] {
      assert s[0] in Elems(s);
      Uncons(s);
      if x < s[0] {
        Cons(x, s);
      } else {
        InsertedFacts(s[1..], x);
        Cons(s[0], Inserted(s[1..], x));
      }
    }
  }

  lemma {:induction false} InsertedAt(s: seq<nat>, x: nat, k: nat)
    requires Increasing(s) && k <= |s|
    requires k < |s| ==> x < s[k]
    requires k > 0 ==> s[k - 1] < x
    ensures Inserted(s, x) == s[..k] + [x] + s[k..]
  {
    if k > 0 {
      assert s[0] < x;
      InsertedAt(s[1..], x, k - 1);
      ShiftSlices(s, x, k);
    }
  }

  lemma {:induction false} ShiftSlices(s: seq<nat>, x: nat, k: nat)
    requires 0 < k <= |s|
    ensures [s[0]] + (s[1..][..k - 1] + [x] + s[1..][k - 1..]) == s[..k] + [x] + s[k..]
  {
    assert s[..k] == [s[0]] + s[1..][..k - 1];
    assert s[1..][k - 1..] == s[k..];
  }

  /** An element above all others goes to the end. */
  lemma {:induction false} InsertedLast(s: seq<nat>, x: nat)
    requires Increasing(s) && forall y :: y in Elems(s) ==> y < x
    ensures Inserted(s, x) == s + [x]
  {
    assert s != [] ==> s[|s| - 1] in Elems(s);
    InsertedAt(s, x, |s|);
    assert s[..|s|] == s && s[|s|..] == [];
  }

  /** Shift the larger elements up one slot and put `x` in the gap. */
  method ShiftInsert(buf: array<nat>, n: nat, x: nat, ghost s: seq<nat>)
    requires 0 < n < buf.Length && s == buf[..n] && Increasing(s) && x !in s
    modifies buf
    ensures buf[..n + 1] == Inserted(s, x)
    ensures Increasing(Inserted(s, x))
  {
    hide Inserted;
    var idx := n;
    assert x !in Elems(s);
    while idx > 0 && buf[idx - 1] > x
      invariant 0 <= idx <= n
      invariant forall k :: 0 <= k < idx ==> buf[k] == s[k]
      invariant forall k :: idx < k <= n ==> buf[k] == s[k - 1]
      invariant idx < n ==> x < s[idx]
    {
      buf[idx] := buf[idx - 1];
      idx := idx - 1;
    }
    buf[idx] := x;
    InsertedAt(s, x, idx);
    InsertedFacts(s, x);
    assert buf[..n + 1] == s[..idx] + [x] + s[idx..];
  }

  /** memcpy of `src` right below the `found` items that end at `top`. */
  method PushBelow(buf: array<nat>, sbase: nat, top: nat, src: seq<nat>, n: nat, ghost found: seq<nat>)
    requires n + |src| <= sbase <= top <= buf.Length && found == buf[sbase..top]
    modifies buf
    ensures buf[sbase - |src|..top] == src + found
    ensures buf[..n] == old(buf[..n])
  {
    var from := sbase - |src|;
    forall k | 0 <= k < |src| {
      buf[from + k] := src[k];
    }
    assert buf[from..sbase] == src && buf[sbase..top] == found;
  }

  /** memcpy of `src` to the start of the buffer. */
  method CopyIn(buf: array<nat>, src: seq<nat>)
    requires |src| <= buf.Length
    modifies buf
    ensures buf[..|src|] == src
  {
    forall i | 0 <= i < |src| {
      buf[i] := src[i];
    }
  }

  /** memcpy of `count` slots from `from` to the start of the buffer. */
  method CopyDown(buf: array<nat>, from: nat, count: nat)
    requires count <= from && from + count <= buf.Length
    modifies buf
    ensures buf[..] == old(buf[from..from + count]) + old(buf[count..])
  {
    forall k | 0 <= k < count {
      buf[k] := buf[from + k];
    }
  }

  /** Every item of `d` after `id` is above the item of `src` under the cursor. */
  ghost predicate Above(d: seq<nat>, id: int, src: seq<nat>, si: int) {
    0 <= si < |src| ==> forall k :: 0 <= k < |d| && id < k ==> d[k] > src[si]
  }

  lemma {:induction false} MissingStep(src: seq<nat>, si: nat, d: seq<nat>, id: nat)
    requires Increasing(d) && Increasing(src) && si < |src| && id < |d| && Above(d, id, src, si)
    ensures d[id] == src[si] ==>
              Missing(src[si..], d) == Missing(src[si + 1..], d) && Above(d, id - 1, src, si - 1)
    ensures d[id] < src[si] ==>
              Missing(src[si..], d) == [src[si]] + Missing(src[si + 1..], d) && Above(d, id, src, si - 1)
    ensures d[id] > src[si] ==> Above(d, id - 1, src, si)
  {
    assert src[si..][1..] == src[si + 1..] && src[si..][0] == src[si];
    assert d[id] < src[si] ==> forall k :: 0 <= k < |d| ==> d[k] != src[si];
  }

  lemma {:induction false} ScanStart(src: seq<nat>, d: seq<nat>)
    ensures Missing(src[|src|..], d) == [] && Above(d, |d| - 1, src, |src| - 1)
  {
  }

  lemma {:induction false} ScanDone(src: seq<nat>, si: int, d: seq<nat>, id: int)
    requires Increasing(src) && -1 <= si < |src| && Above(d, id, src, si)
    requires si == -1 || id == -1
    ensures Apart(src[..si + 1], d)
  {
  }

  /** The old items at the bottom, and the items `found` stacked up to `top`. */
  ghost predicate Stacked(s: seq<nat>, d: seq<nat>, sbase: nat, top: nat, found: seq<nat>) {
    |d| <= sbase <= top <= |s| && s[..|d|] == d && s[sbase..top] == found
  }

  lemma {:induction false} Push(s: seq<nat>, d: seq<nat>, sbase: nat, top: nat, found: seq<nat>, x: nat)
    requires Stacked(s, d, sbase, top, found) && |d| < sbase
    ensures sbase <= |s| && Stacked(s[sbase - 1 := x], d, sbase - 1, top, [x] + found)
  {
    var t := s[sbase - 1 := x];
    assert t[sbase - 1..top] == [x] + s[sbase..top];
    assert t[..|d|] == s[..|d|];
  }

  lemma {:induction false} StackEmpty(s: seq<nat>, d: seq<nat>, top: nat)
    requires |d| <= top <= |s| && s[..|d|] == d
    ensures Stacked(s, d, top, top, [])
  {
  }

  lemma {:induction false} StackSlices(s: seq<nat>, d: seq<nat>, sbase: nat, top: nat, found: seq<nat>)
    requires Stacked(s, d, sbase, top, found)
    ensures |d| <= sbase <= top <= |s| && s[..|d|] == d && s[sbase..top] == found
  {
  }

  lemma {:induction false} BottomOf(s: seq<nat>, d: seq<nat>, sbase: nat, top: nat, found: seq<nat>, k: nat)
    requires Stacked(s, d, sbase, top, found) && k < |d|
    ensures k < |s| && s[k] == d[k]
  {
    assert s[..|d|][k] == s[k];
  }

  /** The scanning loop of the merge: both sequences are walked from the top,
      and what `d` lacks is pushed below `sbase`. */
  method ScanMissing(buf: array<nat>, n: nat, src: seq<nat>, ghost d: seq<nat>) returns (sbase: nat, si: int)
    requires n + 2 * |src| <= buf.Length && d == buf[..n]
    requires Increasing(d) && Increasing(src)
    modifies buf
    ensures -1 <= si < |src| && n + |src| + si + 1 <= sbase <= n + 2 * |src|
    ensures buf[..n] == d
    ensures buf[sbase..n + 2 * |src|] == Missing(src[si + 1..], d)
    ensures Apart(src[..si + 1], d)
  {
    hide *;
    var top := n + 2 * |src|;
    sbase, si := top, |src| - 1;
    var id: int := n - 1;
    ScanStart(src, d);
    ghost var found := [];
    StackEmpty(buf[..], d, top);
    while si >= 0 && id >= 0
      invariant -1 <= si < |src| && -1 <= id < n
      invariant n + |src| + si + 1 <= sbase <= top
      invariant Stacked(buf[..], d, sbase, top, found) && found == Missing(src[si + 1..], d)
      invariant Above(d, id, src, si)
      decreases si + id
    {
      ghost var s := buf[..];
      BottomOf(s, d, sbase, top, found, id);
      MissingStep(src, si, d, id);
      if buf[id] == src[si] {
        si, id := si - 1, id - 1;
      } else if buf[id] < src[si] {
        Push(s, d, sbase, top, found, src[si]);
        sbase := sbase - 1;
        buf[sbase] := src[si];
        assert buf[..] == s[sbase := src[si]];
        si, found := si - 1, [src[si]] + found;
      } else {
        id := id - 1;
      }
    }
    StackSlices(buf[..], d, sbase, top, found);
    ScanDone(src, si, d, id);
  }

  /** Phase one of the merge: the items of `src` that the `n` items at the
      bottom lack, copied to the top of the buffer, right-aligned at
      `n + 2 * |src|`. */
  method GatherMissing(buf: array<nat>, n: nat, src: seq<nat>, ghost d: seq<nat>) returns (sbase: nat)
    requires n + 2 * |src| <= buf.Length && d == buf[..n]
    requires Increasing(d) && Increasing(src)
    modifies buf
    ensures n + |src| <= sbase <= n + 2 * |src|
    ensures buf[..n] == d
    ensures buf[sbase..n + 2 * |src|] == Missing(src, d)
  {
    hide *;
    var si: int;
    sbase, si := ScanMissing(buf, n, src, d);
    // When dest is exhausted, the remaining items of src are all missing.
    var low := src[..si + 1];
    MissingLow(src, si + 1, d);
    PushBelow(buf, sbase, n + 2 * |src|, low, n, Missing(src[si + 1..], d));
    sbase := sbase - |low|;
  }

  /** Every item of `s2` after `i2` is above the item of `s1` under the cursor:
      `Above`, applied to both other sets. */
  ghost predicate Cursor(s1: seq<nat>, i1: int, s2: seq<nat>, i2: int, d: seq<nat>, id: int) {
    Above(s2, i2, s1, i1) && Above(d, id, s1, i1)
  }

  /** What the scan has found once it is down at `i1`. */
  ghost function FoundAbove(s1: seq<nat>, i1: int, s2: seq<nat>, d: seq<nat>): seq<nat>
    requires -1 <= i1 < |s1|
  {
    Missing(Common(s1[i1 + 1..], s2), d)
  }

  lemma {:induction false} CursorLow(s1: seq<nat>, i1: nat, s2: seq<nat>, i2: nat, d: seq<nat>, id: int)
    requires Increasing(s1) && Increasing(s2) && i1 < |s1| && i2 < |s2|
    requires Cursor(s1, i1, s2, i2, d, id) && s1[i1] != s2[i2]
    ensures s1[i1] < s2[i2] ==> Cursor(s1, i1, s2, i2 - 1, d, id)
    ensures s1[i1] > s2[i2] ==>
              Cursor(s1, i1 - 1, s2, i2, d, id) && FoundAbove(s1, i1 - 1, s2, d) == FoundAbove(s1, i1, s2, d)
  {
    assert s1[i1..][1..] == s1[i1 + 1..] && s1[i1..][0] == s1[i1];
    assert s1[i1] > s2[i2] ==> forall k :: 0 <= k < |s2| ==> s2[k] != s1[i1];
  }

  lemma {:induction false} CursorHit(s1: seq<nat>, i1: nat, s2: seq<nat>, i2: nat, d: seq<nat>, id: int)
    requires Increasing(s1) && Increasing(d) && i1 < |s1| && i2 < |s2| && id < |d|
    requires Cursor(s1, i1, s2, i2, d, id) && s1[i1] == s2[i2]
    requires id < 0 || d[id] <= s1[i1]
    ensures Cursor(s1, i1 - 1, s2, i2 - 1, d, id)
    ensures var rest := FoundAbove(s1, i1, s2, d);
            FoundAbove(s1, i1 - 1, s2, d) == if id < 0 || d[id] != s1[i1] then [s1[i1]] + rest else rest
  {
    assert s1[i1..][1..] == s1[i1 + 1..] && s1[i1..][0] == s1[i1];
    var c := Common(s1[i1 + 1..], s2);
    assert Common(s1[i1..], s2) == [s1[i1]] + c;
    assert ([s1[i1]] + c)[1..] == c;
    assert id < 0 || d[id] != s1[i1] ==> forall k :: 0 <= k < |d| ==> d[k] != s1[i1];
  }

  lemma {:induction false} CursorStart(s1: seq<nat>, s2: seq<nat>, d: seq<nat>)
    ensures FoundAbove(s1, |s1| - 1, s2, d) == []
    ensures Cursor(s1, |s1| - 1, s2, |s2| - 1, d, |d| - 1)
  {
  }

  /** What lies below the cursor is not common to both. */
  lemma {:induction false} NothingBelow(s1: seq<nat>, i1: int, s2: seq<nat>, i2: int)
    requires Increasing(s1) && -1 <= i1 < |s1| && -1 <= i2 && (i1 < 0 || i2 < 0) && Above(s2, i2, s1, i1)
    ensures Common(s1[i1 + 1..], s2) == Common(s1, s2)
    decreases i1 + 1
  {
    assert s1[0..] == s1;
    if i1 >= 0 {
      assert s1[i1..][1..] == s1[i1 + 1..] && s1[i1..][0] == s1[i1];
      assert forall k :: 0 <= k < |s2| ==> s2[k] != s1[i1];
      NothingBelow(s1, i1 - 1, s2, i2);
    }
  }

  lemma {:induction false} CursorDone(s1: seq<nat>, i1: int, s2: seq<nat>, i2: int, d: seq<nat>, id: int)
    requires Increasing(s1) && -1 <= i1 < |s1| && -1 <= i2 && (i1 < 0 || i2 < 0)
    requires Cursor(s1, i1, s2, i2, d, id)
    ensures FoundAbove(s1, i1, s2, d) == Missing(Common(s1, s2), d)
  {
    hide Above, Common, Missing, Increasing;
    NothingBelow(s1, i1, s2, i2);
  }

  lemma {:induction false} CursorSkip(s1: seq<nat>, i1: nat, s2: seq<nat>, i2: nat, d: seq<nat>, id: nat)
    requires i1 < |s1| && id < |d| && d[id] > s1[i1] && Cursor(s1, i1, s2, i2, d, id)
    ensures Cursor(s1, i1, s2, i2, d, id - 1)
  {
  }

  /** The inner loop: pass over the old items above the common one. */
  method SkipAbove(buf: array<nat>, ghost d: seq<nat>, from: int, s1: seq<nat>, i1: nat, ghost s2: seq<nat>,
                   ghost i2: nat)
    returns (id: int)
    requires -1 <= from < |d| <= buf.Length && buf[..|d|] == d && i1 < |s1| && Cursor(s1, i1, s2, i2, d, from)
    ensures -1 <= id <= from && Cursor(s1, i1, s2, i2, d, id)
    ensures id >= 0 ==> buf[id] == d[id] <= s1[i1]
  {
    hide *;
    id := from;
    while id >= 0 && buf[id] > s1[i1]
      invariant -1 <= id <= from && Cursor(s1, i1, s2, i2, d, id)
    {
      assert buf[id] == d[id];
      CursorSkip(s1, i1, s2, i2, d, id);
      id := id - 1;
    }
  }

  /** The scanning loop of `re_node_set_add_intersect`: items found in both
      sources but not in `d` are pushed below `sbase`. */
  method ScanCommon(buf: array<nat>, n: nat, s1: seq<nat>, s2: seq<nat>, ghost d: seq<nat>) returns (sbase: nat)
    requires n + |s1| + |s2| <= buf.Length && d == buf[..n]
    requires Increasing(d) && Increasing(s1) && Increasing(s2)
    modifies buf
    ensures n + |s1| <= sbase <= n + |s1| + |s2| && n + |s2| <= sbase
    ensures buf[..n] == d
    ensures buf[sbase..n + |s1| + |s2|] == Missing(Common(s1, s2), d)
  {
    hide *;
    var top := n + |s1| + |s2|;
    sbase := top;
    var i1: int, i2: int, id: int := |s1| - 1, |s2| - 1, n - 1;
    CursorStart(s1, s2, d);
    ghost var found := [];
    StackEmpty(buf[..], d, top);
    while i1 >= 0 && i2 >= 0
      invariant -1 <= i1 < |s1| && -1 <= i2 < |s2| && -1 <= id < n
      invariant n + |s2| + i1 + 1 <= sbase <= top && n + |s1| + i2 + 1 <= sbase
      invariant Stacked(buf[..], d, sbase, top, found) && found == FoundAbove(s1, i1, s2, d)
      invariant Cursor(s1, i1, s2, i2, d, id)
      decreases i1 + i2
    {
      ghost var s := buf[..];
      if s1[i1] == s2[i2] {
        StackSlices(s, d, sbase, top, found);
        id := SkipAbove(buf, d, id, s1, i1, s2, i2);
        CursorHit(s1, i1, s2, i2, d, id);
        if id < 0 || buf[id] != s1[i1] {
          Push(s, d, sbase, top, found, s1[i1]);
          sbase := sbase - 1;
          buf[sbase] := s1[i1];
          assert buf[..] == s[sbase := s1[i1]];
          found := [s1[i1]] + found;
        }
        i1, i2 := i1 - 1, i2 - 1;
      } else {
        CursorLow(s1, i1, s2, i2, d, id);
        if s1[i1] < s2[i2] {
          i2 := i2 - 1;
        } else {
          i1 := i1 - 1;
        }
      }
    }
    StackSlices(buf[..], d, sbase, top, found);
    CursorDone(s1, i1, s2, i2, d, id);
  }

  /** The buffer in the middle of the downward pass: `id + 1` old items and `delta` new
      ones still wait, and everything above their final places is in order. */
  ghost predicate Placing(s: seq<nat>, a: seq<nat>, b: seq<nat>, id: int, delta: int, sbase: nat, all: seq<nat>) {
    && -1 <= id < |a| && 0 <= delta <= |b| && |all| == |a| + |b| <= sbase && sbase + |b| <= |s|
    && (forall k :: 0 <= k <= id ==> s[k] == a[k])
    && (forall k :: sbase <= k < sbase + delta ==> s[k] == b[k - sbase])
    && (forall k :: id + delta < k < |all| ==> s[k] == all[k])
  }

  lemma {:induction false} PlacingStep(s: seq<nat>, a: seq<nat>, b: seq<nat>, id: nat, delta: nat, sbase: nat,
                                       all: seq<nat>)
    requires Placing(s, a, b, id, delta, sbase, all) && Pending(a, b, id + 1, delta, all) && delta > 0
    ensures var taken := s[sbase + delta - 1] > s[id];
            var i, d := if taken then id else id - 1, if taken then delta - 1 else delta;
            && Placing(s[id + delta := if taken then s[sbase + delta - 1] else s[id]], a, b, i, d, sbase, all)
            && Pending(a, b, i + 1, d, all)
  {
    PendingStep(a, b, id + 1, delta, all);
    assert s[sbase + delta - 1] == b[delta - 1] && s[id] == a[id];
    hide Pending;
  }

  lemma {:induction false} PlacingStart(s: seq<nat>, a: seq<nat>, b: seq<nat>, sbase: nat)
    requires |a| + |b| <= sbase && sbase + |b| <= |s| && a == s[..|a|] && b == s[sbase..sbase + |b|]
    ensures Placing(s, a, b, |a| - 1, |b|, sbase, MergeTop(a, b)) && Pending(a, b, |a|, |b|, MergeTop(a, b))
  {
    PendingStart(a, b);
    hide Pending;
    assert forall k :: sbase <= k < sbase + |b| ==> b[k - sbase] == s[k];
  }

  lemma {:induction false} PlacingEnd(s: seq<nat>, s': seq<nat>, a: seq<nat>, b: seq<nat>, id: int, delta: nat,
                                      sbase: nat, all: seq<nat>)
    requires Placing(s, a, b, id, delta, sbase, all) && Pending(a, b, id + 1, delta, all) && (id < 0 || delta == 0)
    requires s' == s[sbase..sbase + delta] + s[delta..]
    ensures s'[..|all|] == all
  {
    PendingDone(a, b, id + 1, delta, all);
    hide Pending;
  }

  /** Phase two, shared by both merging functions: `count` new items wait at
      `sbase`, the `n` old ones sit at the bottom, and one pass from the top puts
      them in order without reading an overwritten slot. */
  method MergeDown(buf: array<nat>, n: nat, sbase: nat, count: nat, ghost a: seq<nat>, ghost b: seq<nat>)
    requires n + count <= sbase && sbase + count <= buf.Length
    requires a == buf[..n] && b == buf[sbase..sbase + count]
    modifies buf
    ensures buf[..n + count] == MergeTop(a, b)
  {
    hide *;
    ghost var all := MergeTop(a, b);
    var id: int := n - 1;
    var si: int := sbase + count - 1;
    var delta := count;
    ghost var s := buf[..];
    assert |a| == n && |b| == count && a == s[..n] && b == s[sbase..sbase + count];
    PlacingStart(s, a, b, sbase);
    while delta > 0 && id >= 0
      invariant -1 <= id < n && 0 <= delta <= count && si == sbase + delta - 1
      invariant s == buf[..] && Placing(s, a, b, id, delta, sbase, all) && Pending(a, b, id + 1, delta, all)
      decreases id + delta
    {
      PlacingStep(s, a, b, id, delta, sbase, all);
      if buf[si] > buf[id] {
        buf[id + delta] := buf[si];
        assert buf[..] == s[id + delta := s[si]];
        s := s[id + delta := s[si]];
        delta, si := delta - 1, si - 1;
      } else {
        buf[id + delta] := buf[id];
        assert buf[..] == s[id + delta := s[id]];
        s := s[id + delta := s[id]];
        id := id - 1;
      }
    }
    CopyDown(buf, sbase, delta);
    assert buf[..] == s[sbase..sbase + delta] + s[delta..] && |all| == n + count;
    PlacingEnd(s, buf[..], a, b, id, delta, sbase, all);
    assert buf[..n + count] == buf[..][..n + count];
  }

  /** `out` is the union of what the two-way merge has read; both rests lie above it. */
  ghost predicate UnionOf(out: seq<nat>, s1: seq<nat>, i1: nat, s2: seq<nat>, i2: nat) {
    && i1 <= |s1| && i2 <= |s2| && Increasing(s1) && Increasing(s2)
    && Increasing(out) && Elems(out) == Elems(s1[..i1]) + Elems(s2[..i2])
    && (forall y :: y in Elems(out) && i1 < |s1| ==> y < s1[i1])
    && (forall y :: y in Elems(out) && i2 < |s2| ==> y < s2[i2])
  }

  lemma {:induction false} TakeOne(s: seq<nat>, i: nat)
    requires i < |s| && Increasing(s)
    ensures Elems(s[..i + 1]) == Elems(s[..i]) + {s[i]}
    ensures i + 1 < |s| ==> s[i] < s[i + 1]
  {
    assert s[..i + 1] == s[..i] + [s[i]];
  }

  lemma {:induction false} UnionTake(out: seq<nat>, s1: seq<nat>, i1: nat, s2: seq<nat>, i2: nat)
    requires UnionOf(out, s1, i1, s2, i2) && i1 < |s1| && (i2 < |s2| ==> s1[i1] <= s2[i2])
    ensures UnionOf(out + [s1[i1]], s1, i1 + 1, s2, if i2 < |s2| && s2[i2] == s1[i1] then i2 + 1 else i2)
  {
    Snoc(out, s1[i1]);
    TakeOne(s1, i1);
    if i2 < |s2| {
      TakeOne(s2, i2);
    }
  }

  lemma {:induction false} UnionSwap(out: seq<nat>, s1: seq<nat>, i1: nat, s2: seq<nat>, i2: nat)
    requires UnionOf(out, s1, i1, s2, i2)
    ensures UnionOf(out, s2, i2, s1, i1)
  {
  }

  /** When one source is used up, the rest of the other follows. */
  lemma {:induction false} UnionTail(out: seq<nat>, s1: seq<nat>, i1: nat, s2: seq<nat>)
    requires UnionOf(out, s1, i1, s2, |s2|)
    ensures Increasing(out + s1[i1..]) && Elems(out + s1[i1..]) == Elems(s1) + Elems(s2)
    decreases |s1| - i1
  {
    if i1 < |s1| {
      UnionTake(out, s1, i1, s2, |s2|);
      UnionTail(out + [s1[i1]], s1, i1 + 1, s2);
      assert out + [s1[i1]] + s1[i1 + 1..] == out + s1[i1..];
    } else {
      assert s1[..i1] == s1 && s2[..|s2|] == s2 && out + s1[i1..] == out;
    }
  }

  /** The loop of re_node_set_init_union. */
  method MergeInto(buf: array<nat>, src1: seq<nat>, src2: seq<nat>) returns (id: nat)
    requires Increasing(src1) && Increasing(src2) && |src1| + |src2| <= buf.Length
    modifies buf
    ensures id <= |src1| + |src2| && Increasing(buf[..id]) && Elems(buf[..id]) == Elems(src1) + Elems(src2)
  {
    hide Increasing, Elems, UnionOf;
    var i1, i2 := 0, 0;
    id := 0;
    UnionNothing(src1, src2);
    assert buf[..0] == [];
    while i1 < |src1| && i2 < |src2|
      invariant i1 <= |src1| && i2 <= |src2| && id <= i1 + i2
      invariant UnionOf(buf[..id], src1, i1, src2, i2)
      decreases |src1| - i1 + |src2| - i2
    {
      ghost var out := buf[..id];
      if src1[i1] > src2[i2] {
        UnionSwap(out, src1, i1, src2, i2);
        UnionTake(out, src2, i2, src1, i1);
        UnionSwap(out + [src2[i2]], src2, i2 + 1, src1, i1);
        buf[id] := src2[i2];
        assert buf[..id + 1] == out + [src2[i2]];
        id, i2 := id + 1, i2 + 1;
        continue;
      }
      UnionTake(out, src1, i1, src2, i2);
      if src1[i1] == src2[i2] {
        i2 := i2 + 1;
      }
      buf[id] := src1[i1];
      assert buf[..id + 1] == out + [src1[i1]];
      id, i1 := id + 1, i1 + 1;
    }
    ghost var out := buf[..id];
    if i1 < |src1| {
      UnionTail(out, src1, i1, src2);
      CopyTail(buf, id, src1[i1..]);
      id := id + (|src1| - i1);
    } else {
      UnionSwap(out, src1, i1, src2, i2);
      UnionTail(out, src2, i2, src1);
      CopyTail(buf, id, src2[i2..]);
      id := id + (|src2| - i2);
    }
  }

  lemma {:induction false} UnionNothing(s1: seq<nat>, s2: seq<nat>)
    requires Increasing(s1) && Increasing(s2)
    ensures UnionOf([], s1, 0, s2, 0)
  {
  }

  method CopyTail(buf: array<nat>, id: nat, tail: seq<nat>)
    requires id + |tail| <= buf.Length
    modifies buf
    ensures buf[..id + |tail|] == old(buf[..id]) + tail
  {
    forall k | 0 <= k < |tail| {
      buf[id + k] := tail[k];
    }
  }

  class NodeSet {
    /** The buffer; its length is `alloc`. */
    var elems: array<nat>
    var nelem: nat

    ghost predicate Valid()
      reads this, elems
    {
      nelem <= elems.Length && Increasing(elems[..nelem])
    }

    ghost function Items(): seq<nat>
      reads this, elems
      requires nelem <= elems.Length
    {
      elems[..nelem]
    }

    constructor Alloc(size: nat)
      ensures Valid() && Items() == [] && fresh(elems) && elems.Length == size
    {
      elems := new nat[size];
      nelem := 0;
    }

    /** re_node_set_init_union: a new set, src1 + src2 (a null source is empty). */
    constructor InitUnion(src1: seq<nat>, src2: seq<nat>)
      requires Increasing(src1) && Increasing(src2)
      ensures Valid() && fresh(elems) && Elems(Items()) == Elems(src1) + Elems(src2)
    {
      elems := new nat[|src1| + |src2|];
      nelem := 0;
      new;
      hide Increasing, Elems;
      var n := MergeInto(elems, src1, src2);
      nelem := n;
    }

    /** realloc: a longer buffer with the old contents. */
    method Realloc(newAlloc: nat)
      requires nelem <= elems.Length <= newAlloc
      modifies this`elems
      ensures fresh(elems) && elems.Length == newAlloc
      ensures elems[..nelem] == old(elems[..nelem])
    {
      var bigger := new nat[newAlloc];
      forall i | 0 <= i < elems.Length {
        bigger[i] := elems[i];
      }
      elems := bigger;
    }

    /** dest := dest + src. */
    method Merge(src: seq<nat>)
      requires Valid() && Increasing(src)
      modifies this, elems
      ensures Valid()
      ensures elems == old(elems) || fresh(elems)
      ensures Items() == Union(old(Items()), src)
      ensures Elems(Items()) == old(Elems(Items())) + Elems(src)
    {
      hide Missing, MergeTop, Union, Increasing, Elems;
      ghost var d := elems[..nelem];
      UnionFacts(d, src);
      UnionEdges(d, src);
      if |src| == 0 {
        return;
      }
      if elems.Length < 2 * |src| + nelem {
        Realloc(2 * (|src| + elems.Length));
      }
      if nelem == 0 {
        nelem := |src|;
        CopyIn(elems, src);
        return;
      }
      var top := nelem + 2 * |src|;
      var sbase := GatherMissing(elems, nelem, src, d);
      MergeDown(elems, nelem, sbase, top - sbase, d, Missing(src, d));
      nelem := nelem + (top - sbase);
    }

    /** dest := dest + src1 * src2. */
    method AddIntersect(src1: seq<nat>, src2: seq<nat>)
      requires Valid() && Increasing(src1) && Increasing(src2)
      modifies this, elems
      ensures Valid()
      ensures elems == old(elems) || fresh(elems)
      ensures Items() == AddCommon(old(Items()), src1, src2)
      ensures Elems(Items()) == old(Elems(Items())) + Elems(src1) * Elems(src2)
    {
      hide Missing, Common, MergeTop, Increasing, Elems, AddCommon;
      ghost var d := elems[..nelem];
      AddCommonFacts(d, src1, src2);
      AddCommonEdges(d, src1, src2);
      if |src1| == 0 || |src2| == 0 {
        return;
      }
      if |src1| + |src2| + nelem > elems.Length {
        Realloc(|src1| + |src2| + elems.Length);
      }
      var top := nelem + |src1| + |src2|;
      var sbase := ScanCommon(elems, nelem, src1, src2, d);
      MergeDown(elems, nelem, sbase, top - sbase, d, Missing(Common(src1, src2), d));
      nelem := nelem + (top - sbase);
    }

    /** Add an element the set does not have. */
    method Insert(elem: nat)
      requires Valid() && elem !in Items()
      modifies this, elems
      ensures Valid()
      ensures elems == old(elems) || fresh(elems)
      ensures Items() == Inserted(old(Items()), elem)
    {
      ghost var s := elems[..nelem];
      if elems.Length == 0 {
        elems := new nat[1];
        elems[0], nelem := elem, 1;
        assert elems[..nelem] == [elem];
        return;
      }
      if nelem == 0 {
        elems[0], nelem := elem, 1;
        assert elems[..nelem] == [elem];
        return;
      }
      if elems.Length == nelem {
        Realloc(elems.Length * 2);
      }
      ShiftInsert(elems, nelem, elem, s);
      nelem := nelem + 1;
    }

    /** Add an element above every element of the set. */
    method InsertLast(elem: nat)
      requires Valid() && forall y :: y in Elems(Items()) ==> y < elem
      modifies this, elems
      ensures Valid()
      ensures elems == old(elems) || fresh(elems)
      ensures Items() == old(Items()) + [elem]
    {
      ghost var s := elems[..nelem];
      Snoc(s, elem);
      if elems.Length == nelem {
        Realloc((elems.Length + 1) * 2);
      }
      elems[nelem] := elem;
      nelem := nelem + 1;
      assert elems[..nelem] == s + [elem];
    }

    /** One plus the position of `elem`, or zero. */
    method Contains(elem: nat) returns (r: nat)
      requires Valid()
      ensures r <= nelem && (r > 0 ==> elems[r - 1] == elem)
      ensures r > 0 <==> elem in Items()
    {
      if nelem <= 0 {
        return 0;
      }
      var idx, right := 0, nelem - 1;
      while idx < right
        invariant 0 <= idx <= right < nelem
        invariant forall k :: 0 <= k < idx ==> elems[..nelem][k] < elem
        invariant forall k :: right < k < nelem ==> elem < elems[..nelem][k] || elem == elems[right]
        invariant right < nelem - 1 ==> elem <= elems[right]
      {
        var mid := (idx + right) / 2;
        assert elems[..nelem][mid] == elems[mid];
        if elems[mid] < elem {
          idx := mid + 1;
        } else {
          right := mid;
        }
      }
      assert elems[..nelem][idx] == elems[idx];
      return if elems[idx] == elem then idx + 1 else 0;
    }
  }
}
