/** Argz vectors: byte vectors of NUL-terminated entries (src/argz). */
module Argz {

  type Byte = b: int | 0 <= b < 256

  /** A C string without its NUL, when `NoNul` holds of it. */
  type Str = seq<Byte>

  const WORD := 0x1_0000_0000

  datatype Option<T> = None | Some(value: T)

  predicate NoNul(s: Str) {
    forall k :: 0 <= k < |s| ==> s[k] != 0
  }

  predicate Plain(es: seq<Str>) {
    forall i :: 0 <= i < |es| ==> NoNul(es[i])
  }

  // ---- vectors as lists of entries ----

  /** Every entry with its NUL, one after the other. */
  function Encode(es: seq<Str>): (r: seq<Byte>)
    ensures Terminated(r)
  {
    if es == [] then [] else Encode(es[..|es| - 1]) + es[|es| - 1] + [0]
  }

  predicate Terminated(b: seq<Byte>) {
    b == [] || b[|b| - 1] == 0
  }

  /** strchr (b + i, '\0'). */
  function NulAt(b: seq<Byte>, i: nat): (n: nat)
    requires Terminated(b) && i < |b|
    ensures i <= n < |b| && b[n] == 0 && NoNul(b[i..n])
    decreases |b| - i
  {
    if b[i] == 0 then i else NulAt(b, i + 1)
  }

  /** The entries of the vector from the offset `i` on. */
  function EntriesFrom(b: seq<Byte>, i: nat): seq<Str>
    requires Terminated(b) && i <= |b|
    decreases |b| - i
  {
    if i == |b| then [] else [b[i..NulAt(b, i)]] + EntriesFrom(b, NulAt(b, i) + 1)
  }

  function Entries(b: seq<Byte>): seq<Str>
    requires Terminated(b)
  {
    EntriesFrom(b, 0)
  }

  lemma {:induction false} EncodeConcat(a: seq<Str>, b: seq<Str>)
    ensures Encode(a + b) == Encode(a) + Encode(b)
  {
    if b == [] {
      assert a + b == a;
    } else {
      var init, last := b[..|b| - 1], b[|b| - 1];
      EncodeConcat(a, init);
      assert (a + b)[..|a + b| - 1] == a + init && (a + b)[|a + b| - 1] == last;
      assert Encode(a + b) == Encode(a + init) + last + [0];
      assert Encode(b) == Encode(init) + last + [0];
      Regroup(Encode(a), Encode(init), last);
    }
  }

  lemma {:induction false} Regroup(a: seq<Byte>, b: seq<Byte>, c: seq<Byte>)
    ensures (a + b) + c + [0] == a + (b + c + [0])
  {
    assert (a + b) + c == a + (b + c);
  }

  lemma {:induction false} EncodeOne(e: Str)
    ensures Encode([e]) == e + [0]
  {
    assert [e][..0] == [];
  }

  /** Where entry `i` starts. */
  function Offset(es: seq<Str>, i: nat): nat
    requires i <= |es|
  {
    |Encode(es[..i])|
  }

  lemma {:induction false} EncodeAround(es: seq<Str>, i: nat)
    requires i < |es|
    ensures Encode(es) == Encode(es[..i]) + es[i] + [0] + Encode(es[i + 1..])
    ensures Encode(es[..i + 1]) == Encode(es[..i]) + es[i] + [0]
  {
    assert es[..i + 1][..i] == es[..i];
    assert es == es[..i + 1] + es[i + 1..];
    EncodeConcat(es[..i + 1], es[i + 1..]);
  }

  /** The bytes of an entry between what precedes and what follows it. */
  lemma {:induction false} EntryBetween(p: seq<Byte>, e: Str, t: seq<Byte>)
    requires NoNul(e) && Terminated(t)
    ensures var b := p + e + [0] + t;
            && Terminated(b) && b[|p|..|p| + |e|] == e && b[..|p|] == p
            && NulAt(b, |p|) == |p| + |e|
  {
    var b := p + e + [0] + t;
    assert b[|p|..|p| + |e|] == e;
    assert b[|p| + |e|] == 0;
    NulIs(b, |p|, |p| + |e|);
  }

  lemma {:induction false} NulIs(b: seq<Byte>, i: nat, n: nat)
    requires Terminated(b) && i <= n < |b| && b[n] == 0 && NoNul(b[i..n])
    ensures NulAt(b, i) == n
    decreases n - i
  {
    if i < n {
      assert b[i..n][0] == b[i] && b[i + 1..n] == b[i..n][1..];
      NulIs(b, i + 1, n);
    }
  }

  /** Entry `i` lies at its offset, its NUL right behind it. */
  lemma {:induction false} EntryAt(es: seq<Str>, i: nat)
    requires i < |es| && Plain(es)
    ensures var b, o := Encode(es), Offset(es, i);
            && o + |es[i]| < |b| && b[o..o + |es[i]|] == es[i] && b[..o] == Encode(es[..i])
            && NulAt(b, o) == o + |es[i]| && Offset(es, i + 1) == o + |es[i]| + 1
  {
    EncodeAround(es, i);
    var p, t := Encode(es[..i]), Encode(es[i + 1..]);
    hide Encode;
    EntryBetween(p, es[i], t);
  }

  lemma {:induction false} OffsetEnd(es: seq<Str>)
    ensures Offset(es, |es|) == |Encode(es)| && Offset(es, 0) == 0
  {
    assert es[..|es|] == es;
  }

  lemma {:induction false} FirstEntry(b: seq<Byte>, i: nat, n: nat)
    requires Terminated(b) && i < |b| && NulAt(b, i) == n
    ensures n < |b| && EntriesFrom(b, i) == [b[i..n]] + EntriesFrom(b, n + 1) && NoNul(b[i..n]) && b[n] == 0
  {
  }

  lemma {:induction false} EntriesStep(b: seq<Byte>, o: nat, e: Str, rest: seq<Str>)
    requires Terminated(b) && o + |e| < |b| && b[o..o + |e|] == e && NulAt(b, o) == o + |e|
    requires EntriesFrom(b, o + |e| + 1) == rest
    ensures EntriesFrom(b, o) == [e] + rest
  {
  }

  lemma {:induction false} HeadAndTail(es: seq<Str>, i: nat)
    requires i < |es|
    ensures es[i..] == [es[i]] + es[i + 1..]
  {
  }

  lemma {:induction false} EntriesOfEncode(es: seq<Str>, i: nat)
    requires i <= |es| && Plain(es)
    ensures Offset(es, i) <= |Encode(es)|
    ensures EntriesFrom(Encode(es), Offset(es, i)) == es[i..]
    decreases |es| - i
  {
    if i == |es| {
      OffsetEnd(es);
    } else {
      hide *;
      EntryAt(es, i);
      EntriesOfEncode(es, i + 1);
      EntriesStep(Encode(es), Offset(es, i), es[i], es[i + 1..]);
      HeadAndTail(es, i);
    }
  }

  lemma {:induction false} SliceAround(b: seq<Byte>, i: nat, n: nat)
    requires i <= n < |b| && b[n] == 0
    ensures b[i..] == b[i..n] + [0] + b[n + 1..]
  {
  }

  lemma {:induction false} EncodeCons(e: Str, es: seq<Str>)
    requires NoNul(e) && Plain(es)
    ensures Plain([e] + es) && Encode([e] + es) == e + [0] + Encode(es)
  {
    EncodeConcat([e], es);
    EncodeOne(e);
  }

  lemma {:induction false} EncodeOfEntriesFrom(b: seq<Byte>, i: nat)
    requires Terminated(b) && i <= |b|
    ensures Plain(EntriesFrom(b, i)) && Encode(EntriesFrom(b, i)) == b[i..]
    decreases |b| - i
  {
    if i == |b| {
      assert EntriesFrom(b, i) == [] && b[i..] == [];
    } else {
      hide *;
      var n := NulAt(b, i);
      FirstEntry(b, i, n);
      EncodeOfEntriesFrom(b, n + 1);
      EncodeCons(b[i..n], EntriesFrom(b, n + 1));
      SliceAround(b, i, n);
    }
  }

  lemma {:induction false} EntriesOf(b: seq<Byte>)
    requires Terminated(b)
    ensures Plain(Entries(b)) && Encode(Entries(b)) == b
  {
    EncodeOfEntriesFrom(b, 0);
    assert b[0..] == b;
  }

  /** Decoding an encoded list gives the list back, and a terminated vector is the
      encoding of its entries. */
  lemma {:induction false} EntriesRoundTrip(es: seq<Str>, b: seq<Byte>)
    requires Plain(es) && Terminated(b)
    ensures Entries(Encode(es)) == es
    ensures Plain(Entries(b)) && Encode(Entries(b)) == b
  {
    EntriesOf(b);
    EntriesOfEncode(es, 0);
    OffsetEnd(es);
    assert es[0..] == es;
  }

  /** __argz_next: pointers into the vector are offsets. */
  function Next(b: seq<Byte>, entry: Option<nat>): Option<nat>
    requires Terminated(b)
  {
    match entry
    case Some(e) =>
      var next := if e < |b| then NulAt(b, e) + 1 else e;
      if next >= |b| then None else Some(next)
    case None => if |b| > 0 then Some(0) else None
  }

  /** Stepping with __argz_next visits the entries in order, each once, and ends. */
  lemma {:induction false} NextWalks(es: seq<Str>, i: nat)
    requires Plain(es) && i <= |es|
    ensures Next(Encode(es), if i == 0 then None else Some(Offset(es, i - 1)))
            == if i < |es| then Some(Offset(es, i)) else None
  {
    hide Encode, Offset, NulAt, Plain, NoNul;
    OffsetEnd(es);
    if i > 0 {
      EntryAt(es, i - 1);
    }
    if i < |es| {
      EntryAt(es, i);
    }
    assert i == 0 ==> Next(Encode(es), None) == if |Encode(es)| > 0 then Some(0) else None;
  }

  // ---- replacement, on values ----

  predicate OccursAt(s: Str, sub: Str, i: nat) {
    i + |sub| <= |s| && s[i..i + |sub|] == sub
  }

  /** strstr: the first occurrence. */
  function StrStr(s: Str, sub: Str): (r: Option<nat>)
    ensures r.Some? ==> OccursAt(s, sub, r.value) && forall k :: 0 <= k < r.value ==> !OccursAt(s, sub, k)
    ensures r.None? ==> forall k :: 0 <= k ==> !OccursAt(s, sub, k)
  {
    FindFrom(s, sub, 0)
  }

  function FindFrom(s: Str, sub: Str, i: nat): (r: Option<nat>)
    requires i <= |s|
    ensures r.Some? ==> i <= r.value && OccursAt(s, sub, r.value)
    ensures r.Some? ==> forall k :: i <= k < r.value ==> !OccursAt(s, sub, k)
    ensures r.None? ==> forall k :: i <= k ==> !OccursAt(s, sub, k)
    decreases |s| - i
  {
    if OccursAt(s, sub, i) then Some(i) else if i == |s| then None else FindFrom(s, sub, i + 1)
  }

  /** Every leftmost, non-overlapping occurrence of `str` replaced. */
  function ReplaceAll(s: Str, str: Str, with: Str): Str
    requires str != []
    decreases |s|
  {
    match StrStr(s, str)
    case None => s
    case Some(i) => s[..i] + with + ReplaceAll(s[i + |str|..], str, with)
  }

  function MapReplace(es: seq<Str>, str: Str, with: Str): (r: seq<Str>)
    requires str != []
    ensures |r| == |es| && forall i :: 0 <= i < |es| ==> r[i] == ReplaceAll(es[i], str, with)
  {
    if es == [] then []
    else MapReplace(es[..|es| - 1], str, with) + [ReplaceAll(es[|es| - 1], str, with)]
  }

  /** How many entries contain `str`. */
  function Containing(es: seq<Str>, str: Str): nat {
    if es == [] then 0
    else Containing(es[..|es| - 1], str) + if StrStr(es[|es| - 1], str).Some? then 1 else 0
  }

  lemma {:induction false} MapReplaceNext(es: seq<Str>, i: nat, str: Str, with: Str)
    requires i < |es| && str != []
    ensures MapReplace(es[..i + 1], str, with) == MapReplace(es[..i], str, with) + [ReplaceAll(es[i], str, with)]
    ensures Containing(es[..i + 1], str) == Containing(es[..i], str) + if StrStr(es[i], str).Some? then 1 else 0
  {
    assert es[..i + 1][..i] == es[..i];
  }

  lemma {:induction false} MapReplaceNothing(es: seq<Str>, str: Str, with: Str)
    requires str != []
    ensures Containing(es, str) == 0 <==> forall i :: 0 <= i < |es| ==> StrStr(es[i], str).None?
    ensures Containing(es, str) == 0 ==> MapReplace(es, str, with) == es
  {
    if es != [] {
      MapReplaceNothing(es[..|es| - 1], str, with);
      assert es == es[..|es| - 1] + [es[|es| - 1]];
    }
  }

  /** The entries in which `str` occurs. */
  ghost function Hits(es: seq<Str>, str: Str): set<nat> {
    set i: nat | i < |es| && !Nowhere(es[i], str)
  }

  ghost predicate Nowhere(s: Str, str: Str) {
    forall k: nat :: !OccursAt(s, str, k)
  }

  lemma {:induction false} NowhereIs(s: Str, str: Str)
    ensures Nowhere(s, str) <==> StrStr(s, str).None?
  {
  }

  lemma {:induction false} HitsMore(es: seq<Str>, str: Str)
    requires es != []
    ensures var n := |es| - 1;
            Hits(es, str) == if Nowhere(es[n], str) then Hits(es[..n], str) else Hits(es[..n], str) + {n}
    ensures |es| - 1 !in Hits(es[..|es| - 1], str)
  {
    hide Nowhere;
    var n := |es| - 1;
    forall i: nat | i < n
      ensures es[..n][i] == es[i]
    {
    }
  }

  /** Containing counts the entries in which `str` occurs. */
  lemma {:induction false} ContainingCounts(es: seq<Str>, str: Str)
    ensures Containing(es, str) == |Hits(es, str)|
  {
    if es != [] {
      hide Nowhere, Hits, StrStr;
      ContainingCounts(es[..|es| - 1], str);
      HitsMore(es, str);
      NowhereIs(es[|es| - 1], str);
    } else {
      assert Hits(es, str) == {};
    }
  }

  /** The pieces with `x` between each two of them. */
  function Woven(pieces: seq<Str>, x: Str): Str
    requires pieces != []
  {
    if |pieces| == 1 then pieces[0] else pieces[0] + x + Woven(pieces[1..], x)
  }

  /** The text is cut at its occurrences of `str`, each time at the first one left. */
  ghost predicate CutAtFirst(pieces: seq<Str>, str: Str) {
    && pieces != []
    && (forall i, k: nat :: 0 <= i < |pieces| - 1 && k < |pieces[i]| ==> !OccursAt(pieces[i] + str, str, k))
    && Nowhere(pieces[|pieces| - 1], str)
  }

  lemma {:induction false} CutCons(p: Str, pieces: seq<Str>, str: Str)
    requires CutAtFirst(pieces, str) && forall k: nat :: k < |p| ==> !OccursAt(p + str, str, k)
    ensures CutAtFirst([p] + pieces, str)
  {
    hide OccursAt;
    var all := [p] + pieces;
    forall i, k: nat | 0 <= i < |all| - 1 && k < |all[i]|
      ensures !OccursAt(all[i] + str, str, k)
    {
      if i > 0 {
        assert all[i] == pieces[i - 1];
      }
    }
  }

  /** Replacing cuts the text at `str`, from left to right, and puts the pieces together
      with the replacement between them. */
  lemma {:induction false} ReplaceAllWeaves(s: Str, str: Str, with: Str) returns (pieces: seq<Str>)
    requires str != []
    ensures CutAtFirst(pieces, str) && Woven(pieces, str) == s && Woven(pieces, with) == ReplaceAll(s, str, with)
    decreases |s|
  {
    var m := StrStr(s, str);
    ReplaceFirst(s, str, with, []);
    if m.None? {
      pieces := [s];
      assert [] + s == s && [] + ReplaceAll(s, str, with) == ReplaceAll(s, str, with);
    } else {
      var p, rest := s[..m.value], s[m.value + |str|..];
      FirstCut(s, str, m.value);
      assert s == p + str + rest;
      hide OccursAt, StrStr, ReplaceAll, CutAtFirst;
      var more := ReplaceAllWeaves(rest, str, with);
      CutCons(p, more, str);
      WovenCons(p, more, str);
      WovenCons(p, more, with);
      pieces := [p] + more;
      assert [] + p == p && [] + ReplaceAll(s, str, with) == ReplaceAll(s, str, with);
    }
  }

  lemma {:induction false} WovenCons(p: Str, pieces: seq<Str>, x: Str)
    requires pieces != []
    ensures Woven([p] + pieces, x) == p + x + Woven(pieces, x)
  {
    assert ([p] + pieces)[1..] == pieces;
  }

  lemma {:induction false} FirstCut(s: Str, str: Str, n: nat)
    requires OccursAt(s, str, n) && forall k :: 0 <= k < n ==> !OccursAt(s, str, k)
    ensures forall k: nat :: k < |s[..n]| ==> !OccursAt(s[..n] + str, str, k)
  {
    var t := s[..n] + str;
    assert t == s[..n + |str|];
    forall k: nat | OccursAt(t, str, k)
      ensures OccursAt(s, str, k)
    {
      assert s[k..k + |str|] == t[k..k + |str|];
    }
  }

  /** An entry stays an entry: no NUL gets in. */
  lemma {:induction false} ReplaceAllPlain(s: Str, str: Str, with: Str)
    requires str != [] && NoNul(s) && NoNul(with)
    ensures NoNul(ReplaceAll(s, str, with))
    decreases |s|
  {
    if StrStr(s, str).Some? {
      ReplaceAllPlain(s[StrStr(s, str).value + |str|..], str, with);
    }
  }

  // ---- splitting and joining, on values ----

  /** The entries made of `cur` and what follows it: a separator ends a non-empty
      field and is dropped otherwise; the end of the string always ends a field. */
  function Rest(cur: Str, s: Str, sep: Byte): seq<Str>
    decreases |s|
  {
    if s == [] then [cur]
    else if s[0] != sep then Rest(cur + [s[0]], s[1..], sep)
    else if cur == [] then Rest([], s[1..], sep)
    else [cur] + Rest([], s[1..], sep)
  }

  function Split(s: Str, sep: Byte): seq<Str> {
    if s == [] then [] else Rest([], s, sep)
  }

  function Join(es: seq<Str>, sep: Byte): Str {
    if es == [] then [] else if |es| == 1 then es[0] else es[0] + [sep] + Join(es[1..], sep)
  }

  predicate Free(s: Str, sep: Byte) {
    forall k :: 0 <= k < |s| ==> s[k] != sep
  }

  /** No separator is doubled. */
  predicate Spaced(s: Str, sep: Byte) {
    forall k :: 0 <= k < |s| - 1 ==> s[k] != sep || s[k + 1] != sep
  }

  /** Nor is there one at the front. */
  predicate Clean(s: Str, sep: Byte) {
    (s != [] ==> s[0] != sep) && Spaced(s, sep)
  }

  lemma {:induction false} CleanTail(s: Str, sep: Byte)
    requires s != []
    ensures s[0] == sep ==> (Clean(s[1..], sep) <==> Spaced(s, sep))
    ensures s[0] != sep ==> (Clean(s, sep) <==> Spaced(s[1..], sep))
  {
    assert forall k :: 0 <= k < |s| - 1 ==> s[1..][k] == s[k + 1];
    assert Spaced(s, sep) <==> (|s| > 1 ==> s[0] != sep || s[1] != sep) && Spaced(s[1..], sep) by {
      if Spaced(s[1..], sep) {
        forall k | 1 <= k < |s| - 1
          ensures s[k] != sep || s[k + 1] != sep
        {
          assert s[1..][k - 1] == s[k] && s[1..][k] == s[k + 1];
        }
      }
    }
  }

  /** Joining what was split loses exactly the separators in the wrong places. */
  lemma {:induction false} JoinRest(cur: Str, s: Str, sep: Byte)
    ensures Rest(cur, s, sep) != []
    ensures var j := Join(Rest(cur, s, sep), sep);
            if (if cur == [] then Clean(s, sep) else Spaced(s, sep)) then j == cur + s else |j| < |cur| + |s|
    decreases |s|
  {
    if s == [] {
      assert cur + s == cur;
    } else {
      CleanTail(s, sep);
      if s[0] != sep {
        JoinRest(cur + [s[0]], s[1..], sep);
        assert (cur + [s[0]]) + s[1..] == cur + s;
      } else {
        JoinRest([], s[1..], sep);
        var t := Rest([], s[1..], sep);
        assert ([cur] + t)[1..] == t;
        assert cur + [sep] + ([] + s[1..]) == cur + s;
      }
    }
  }

  /** `s` without the separators that lead or follow another one. */
  function Squeezed(s: Str, sep: Byte, after: bool): Str {
    if s == [] then [] else (if s[0] == sep && after then [] else [s[0]]) + Squeezed(s[1..], sep, s[0] == sep)
  }

  lemma {:induction false} SqueezedStep(s: Str, sep: Byte, after: bool)
    requires s != []
    ensures var rest := Squeezed(s[1..], sep, s[0] == sep);
            Squeezed(s, sep, after) == if s[0] == sep && after then rest else [s[0]] + rest
  {
    var rest := Squeezed(s[1..], sep, s[0] == sep);
    assert [] + rest == rest;
  }

  lemma {:induction false} RestSqueezes(cur: Str, s: Str, sep: Byte)
    ensures Rest(cur, s, sep) != [] && Join(Rest(cur, s, sep), sep) == cur + Squeezed(s, sep, cur == [])
    decreases |s|
  {
    if s == [] {
      assert cur + [] == cur;
    } else {
      var rest := Squeezed(s[1..], sep, s[0] == sep);
      SqueezedStep(s, sep, cur == []);
      hide Squeezed;
      if s[0] != sep {
        RestSqueezes(cur + [s[0]], s[1..], sep);
        Associate(cur, [s[0]], rest);
      } else {
        var t := Rest([], s[1..], sep);
        RestSqueezes([], s[1..], sep);
        assert [] + rest == rest;
        JoinCons(cur, t, sep);
        hide Join;
        Associate(cur, [sep], rest);
      }
    }
  }

  lemma {:induction false} Associate(a: Str, b: Str, c: Str)
    ensures (a + b) + c == a + (b + c)
  {
  }

  lemma {:induction false} JoinCons(e: Str, es: seq<Str>, sep: Byte)
    requires es != []
    ensures Join([e] + es, sep) == e + [sep] + Join(es, sep)
  {
    assert ([e] + es)[1..] == es;
  }

  /** What a split is, for every string: the one list of entries free of the separator, none
      empty but the last, that joined give the string without leading and doubled
      separators. The empty string has no entries. */
  lemma {:induction false} SplitIs(s: Str, sep: Byte, es: seq<Str>)
    ensures s != [] ==>
              (es == Split(s, sep) <==> es != [] && Fields(es, sep) && Join(es, sep) == Squeezed(s, sep, true))
    ensures s == [] ==> Split(s, sep) == []
  {
    if s != [] {
      RestIsFields([], s, sep);
      RestSqueezes([], s, sep);
      assert [] + Squeezed(s, sep, true) == Squeezed(s, sep, true);
      if es != [] && Fields(es, sep) && Join(es, sep) == Squeezed(s, sep, true) {
        RestOfJoin(es, sep);
        RestOfJoin(Split(s, sep), sep);
      }
    }
  }

  /** `s` without its separators. */
  function Without(s: Str, sep: Byte): Str {
    if s == [] then [] else (if s[0] == sep then [] else [s[0]]) + Without(s[1..], sep)
  }

  function Together(es: seq<Str>): Str {
    if es == [] then [] else es[0] + Together(es[1..])
  }

  /** No byte but separators is lost, and none moves. */
  lemma {:induction false} SplitKeepsBytes(s: Str, sep: Byte)
    ensures Together(Split(s, sep)) == Without(s, sep)
  {
    if s != [] {
      RestKeepsBytes([], s, sep);
      assert [] + Without(s, sep) == Without(s, sep);
    }
  }

  lemma {:induction false} RestKeepsBytes(cur: Str, s: Str, sep: Byte)
    ensures Together(Rest(cur, s, sep)) == cur + Without(s, sep)
    decreases |s|
  {
    if s == [] {
      assert [cur][1..] == [] && cur + [] == cur;
    } else if s[0] != sep {
      RestKeepsBytes(cur + [s[0]], s[1..], sep);
      assert (cur + [s[0]]) + Without(s[1..], sep) == cur + ([s[0]] + Without(s[1..], sep));
    } else {
      RestKeepsBytes([], s[1..], sep);
      var t := Rest([], s[1..], sep);
      assert ([cur] + t)[1..] == t;
      assert [] + Without(s[1..], sep) == Without(s[1..], sep);
    }
  }

  /** Splitting at `sep` and joining with it restores a string exactly when no
      separator leads or is doubled. */
  lemma {:induction false} JoinOfSplit(s: Str, sep: Byte)
    ensures Join(Split(s, sep), sep) == s <==> Clean(s, sep)
  {
    if s != [] {
      JoinRest([], s, sep);
      assert [] + s == s;
    }
  }

  lemma {:induction false} RestOver(cur: Str, e: Str, s: Str, sep: Byte)
    requires Free(e, sep)
    ensures Rest(cur, e + s, sep) == Rest(cur + e, s, sep)
    decreases |e|
  {
    if e == [] {
      assert e + s == s && cur + e == cur;
    } else {
      RestOver(cur + [e[0]], e[1..], s, sep);
      assert (e + s)[0] == e[0] && (e + s)[1..] == e[1..] + s;
      assert (cur + [e[0]]) + e[1..] == cur + e;
    }
  }

  /** Entries that a split can produce. */
  predicate Fields(es: seq<Str>, sep: Byte) {
    (forall i :: 0 <= i < |es| ==> Free(es[i], sep)) && forall i :: 0 <= i < |es| - 1 ==> es[i] != []
  }

  lemma {:induction false} RestIsFields(cur: Str, s: Str, sep: Byte)
    requires Free(cur, sep)
    ensures Fields(Rest(cur, s, sep), sep) && Rest(cur, s, sep) != []
    decreases |s|
  {
    if s != [] {
      if s[0] != sep {
        RestIsFields(cur + [s[0]], s[1..], sep);
      } else {
        RestIsFields([], s[1..], sep);
      }
    }
  }

  lemma {:induction false} RestOfJoin(es: seq<Str>, sep: Byte)
    requires es != [] && Fields(es, sep)
    ensures Rest([], Join(es, sep), sep) == es
  {
    assert [] + es[0] == es[0] && es == [es[0]] + es[1..];
    if |es| == 1 {
      RestOver([], es[0], [], sep);
      assert es[0] + [] == es[0];
    } else {
      var j := Join(es[1..], sep);
      var t := [sep] + j;
      RestOfJoin(es[1..], sep);
      assert Join(es, sep) == es[0] + t && t[1..] == j;
      hide Join, Fields;
      RestOver([], es[0], t, sep);
    }
  }

  /** Joining with `sep` and splitting there restores exactly the vectors whose entries
      are free of `sep` and, but for the last one, not empty; and not a single empty
      entry. */
  lemma {:induction false} SplitOfJoin(es: seq<Str>, sep: Byte)
    ensures Split(Join(es, sep), sep) == es <==> Fields(es, sep) && es != [[]]
  {
    var j := Join(es, sep);
    RestIsFields([], j, sep);
    if Fields(es, sep) && es != [] {
      RestOfJoin(es, sep);
      assert j == [] ==> |es| == 1 && es[0] == [];
      assert |es| == 1 && es[0] == [] ==> es == [[]];
    }
  }

  /** What __argz_stringify does to the bytes. */
  function Stringified(b: seq<Byte>, sep: Byte): (r: seq<Byte>)
    ensures |r| == |b|
    ensures forall i :: 0 <= i < |b| ==> r[i] == if i < |b| - 1 && b[i] == 0 then sep else b[i]
  {
    seq(|b|, i requires 0 <= i < |b| => if i < |b| - 1 && b[i] == 0 then sep else b[i])
  }

  lemma {:induction false} StringifiedHead(e: Str, t: seq<Byte>, sep: Byte)
    requires NoNul(e) && t != []
    ensures Stringified(e + [0] + t, sep) == e + [sep] + Stringified(t, sep)
  {
    var r, q := Stringified(e + [0] + t, sep), e + [sep] + Stringified(t, sep);
    forall i | 0 <= i < |r|
      ensures r[i] == q[i]
    {
      if i > |e| {
        assert (e + [0] + t)[i] == t[i - |e| - 1];
      }
    }
  }

  /** A vector with entries becomes one string: the entries joined with `sep`. */
  lemma {:induction false} StringifiedIsJoin(es: seq<Str>, sep: Byte)
    requires es != [] && Plain(es)
    ensures Stringified(Encode(es), sep) == Join(es, sep) + [0]
  {
    var e := es[0];
    assert es == [e] + es[1..];
    EncodeConcat([e], es[1..]);
    EncodeOne(e);
    if |es| == 1 {
      assert Encode(es) == e + [0];
    } else {
      StringifiedIsJoin(es[1..], sep);
      StringifiedHead(e, Encode(es[1..]), sep);
      hide Stringified;
      assert e + [sep] + (Join(es[1..], sep) + [0]) == Join(es, sep) + [0];
    }
  }

  /** Splitting a string into a vector and stringifying that gives the string back
      exactly when no separator leads or is doubled. */
  lemma {:induction false} StringifyOfSplit(s: Str, sep: Byte)
    requires s != [] && NoNul(s)
    ensures Stringified(Encode(Split(s, sep)), sep) == s + [0] <==> Clean(s, sep)
  {
    SplitPlain(s, sep);
    JoinRest([], s, sep);
    JoinOfSplit(s, sep);
    StringifiedIsJoin(Split(s, sep), sep);
    var j := Join(Split(s, sep), sep);
    assert (j + [0])[..|j|] == j && (s + [0])[..|s|] == s;
    assert j + [0] == s + [0] ==> |j| == |s|;
  }

  // ---- the operations ----

  method Stringify(argz: array<Byte>, length: nat, sep: Byte)
    requires length <= argz.Length
    modifies argz
    ensures argz[..length] == Stringified(old(argz[..length]), sep) && argz[length..] == old(argz[length..])
  {
    ghost var b := argz[..length];
    if length > 0 {
      var at, len := 0, length;
      while true
        invariant 0 < len && at + len == length
        invariant forall k :: 0 <= k < at ==> argz[k] == if b[k] == 0 then sep else b[k]
        invariant forall k :: at <= k < argz.Length ==> argz[k] == old(argz[k])
        decreases len
      {
        var partLen := StrNLen(argz, at, len);
        at, len := at + partLen, len - partLen;
        if len <= 1 {
          break;
        }
        len := len - 1;
        argz[at] := sep;
        at := at + 1;
      }
    }
  }

  /** strnlen. */
  method StrNLen(a: array<Byte>, at: nat, max: nat) returns (n: nat)
    requires at + max <= a.Length
    ensures n <= max && (forall k :: at <= k < at + n ==> a[k] != 0) && (n < max ==> a[at + n] == 0)
  {
    n := 0;
    while n < max && a[at + n] != 0
      invariant n <= max && forall k :: at <= k < at + n ==> a[k] != 0
    {
      n := n + 1;
    }
  }

  /** The split loop has written the entries `done` and the field `cur`. */
  ghost predicate Writing(out: seq<Byte>, done: seq<Str>, cur: Str, str: Str, rp: nat, delim: Byte) {
    && rp <= |str| && out == Encode(done) + cur && NoNul(cur)
    && Split(str, delim) == done + Rest(cur, str[rp..], delim)
    && (delim == 0 ==> |cur| == rp)
  }

  lemma {:induction false} WritingStart(str: Str, delim: Byte)
    requires str != []
    ensures Writing([], [], [], str, 0, delim)
  {
    assert str[0..] == str;
  }

  lemma {:induction false} WritingLast(out: seq<Byte>, done: seq<Str>, cur: Str, str: Str, rp: nat, delim: Byte)
    requires Writing(out, done, cur, str, rp, delim)
    ensures out != [] && out[|out| - 1] != 0 <==> cur != []
  {
  }

  lemma {:induction false} WritingChar(out: seq<Byte>, done: seq<Str>, cur: Str, str: Str, rp: nat, delim: Byte)
    requires Writing(out, done, cur, str, rp, delim) && rp < |str| && str[rp] != 0
    ensures str[rp] != delim ==> Writing(out + [str[rp]], done, cur + [str[rp]], str, rp + 1, delim)
    ensures str[rp] == delim && cur == [] ==> Writing(out, done, cur, str, rp + 1, delim)
    ensures str[rp] == delim && cur != [] ==> Writing(out + [0], done + [cur], [], str, rp + 1, delim)
  {
    assert str[rp..][0] == str[rp] && str[rp..][1..] == str[rp + 1..];
    if str[rp] != delim {
      assert out + [str[rp]] == Encode(done) + (cur + [str[rp]]);
    } else if cur != [] {
      assert (done + [cur])[..|done|] == done;
      assert Encode(done + [cur]) == Encode(done) + cur + [0];
      assert done + ([cur] + Rest([], str[rp + 1..], delim)) == (done + [cur]) + Rest([], str[rp + 1..], delim);
    }
  }

  lemma {:induction false} WritingEnd(out: seq<Byte>, done: seq<Str>, cur: Str, str: Str, delim: Byte)
    requires Writing(out, done, cur, str, |str|, delim)
    ensures out + [0] == Encode(Split(str, delim))
  {
    assert str[|str|..] == [];
    assert (done + [cur])[..|done|] == done;
  }

  /** One byte more behind what has been written from `at` on. */
  method Put(argz: array<Byte>, ghost at: nat, wp: nat, c: Byte)
    requires at <= wp < argz.Length
    modifies argz
    ensures argz[..at] == old(argz[..at]) && argz[at..wp + 1] == old(argz[at..wp]) + [c]
  {
    argz[wp] := c;
  }

  /** The loop shared by __argz_create_sep and __argz_add_sep: it writes `str` at `at`
      and returns how many bytes it wrote. */
  method WriteSplit(argz: array<Byte>, at: nat, str: Str, delim: Byte) returns (nlen: nat)
    requires str != [] && NoNul(str) && at + |str| + 1 <= argz.Length && (at > 0 ==> argz[at - 1] == 0)
    modifies argz
    ensures 0 < nlen <= |str| + 1
    ensures argz[..at] == old(argz[..at]) && argz[at..at + nlen] == Encode(Split(str, delim))
  {
    hide Writing, Encode, Split;
    ghost var done, cur := [], [];
    nlen := |str| + 1;
    var rp, wp := 0, at;
    WritingStart(str, delim);
    assert argz[at..wp] == [];
    while true
      invariant 0 <= rp <= |str| && at <= wp <= at + rp && nlen == (wp - at) + (|str| + 1 - rp)
      invariant argz[..at] == old(argz[..at])
      invariant Writing(argz[at..wp], done, cur, str, rp, delim)
      decreases |str| - rp
    {
      var c: Byte := if rp < |str| then str[rp] else 0;
      ghost var out := argz[at..wp];
      WritingLast(out, done, cur, str, rp, delim);
      if rp < |str| {
        WritingChar(out, done, cur, str, rp, delim);
      } else {
        EndsInField(out, done, cur, str, delim);
        WritingEnd(out, done, cur, str, delim);
      }
      assert at < wp ==> argz[wp - 1] == out[|out| - 1];
      assert at > 0 ==> argz[at - 1] == argz[..at][at - 1];
      if c == delim {
        if wp > 0 && argz[wp - 1] != 0 {
          Put(argz, at, wp, 0);
          wp := wp + 1;
          done, cur := done + [cur], [];
        } else {
          nlen := nlen - 1;
        }
      } else {
        Put(argz, at, wp, c);
        wp := wp + 1;
        cur := cur + [c];
      }
      if rp == |str| {
        break;
      }
      rp := rp + 1;
    }
  }

  lemma {:induction false} EndsInField(out: seq<Byte>, done: seq<Str>, cur: Str, str: Str, delim: Byte)
    requires Writing(out, done, cur, str, |str|, delim)
    ensures delim == 0 ==> |cur| == |str|
  {
  }

  /** realloc to `n` bytes: the first `keep` survive. */
  method Realloc(a: array<Byte>, keep: nat, n: nat) returns (b: array<Byte>)
    requires keep <= a.Length && keep <= n
    ensures fresh(b) && b.Length == n && b[..keep] == a[..keep]
  {
    b := new Byte[n](_ => 0);
    for i := 0 to keep
      invariant b[..i] == a[..i]
    {
      b[i] := a[i];
    }
  }

  method Copy(a: array<Byte>, at: nat, bytes: seq<Byte>)
    requires at + |bytes| <= a.Length
    modifies a
    ensures a[..at] == old(a[..at]) && a[at..at + |bytes|] == bytes && a[at + |bytes|..] == old(a[at + |bytes|..])
  {
    for i := 0 to |bytes|
      invariant a[..at] == old(a[..at]) && a[at..at + i] == bytes[..i]
      invariant a[at + |bytes|..] == old(a[at + |bytes|..])
    {
      a[at + i] := bytes[i];
    }
  }

  /** str_append: `to` holds `toLen` bytes and a NUL. */
  method StrAppend(to: array<Byte>, toLen: nat, buf: Str) returns (newTo: array<Byte>, newLen: nat)
    requires toLen < to.Length
    ensures fresh(newTo) && newLen == toLen + |buf| && newTo.Length == newLen + 1
    ensures newTo[..newLen] == to[..toLen] + buf && newTo[newLen] == 0
  {
    newLen := toLen + |buf|;
    newTo := Realloc(to, toLen, newLen + 1);
    Copy(newTo, toLen, buf);
    newTo[newLen] := 0;
    assert newTo[..newLen] == newTo[..toLen] + newTo[toLen..newLen];
  }

  /** strndup. */
  method StrNDup(s: Str, n: nat) returns (to: array<Byte>)
    requires n <= |s|
    ensures fresh(to) && to.Length == n + 1 && to[..n] == s[..n] && to[n] == 0
  {
    to := new Byte[n + 1](_ => 0);
    Copy(to, 0, s[..n]);
    assert to[..n] == to[0..n] && to[n] == to[n..][0];
  }

  lemma {:induction false} ReplaceFirst(s: Str, str: Str, with: Str, before: Str)
    requires str != []
    ensures var m := StrStr(s, str);
            before + ReplaceAll(s, str, with) ==
            if m.Some? then before + s[..m.value] + with + ReplaceAll(s[m.value + |str|..], str, with) else before + s
  {
    var m := StrStr(s, str);
    if m.Some? {
      var t := ReplaceAll(s[m.value + |str|..], str, with);
      assert before + (s[..m.value] + with + t) == before + s[..m.value] + with + t;
    }
  }

  /** The inner loop of __argz_replace: one entry, of which the first match is known. */
  method Substitute(arg: Str, match0: nat, str: Str, with: Str) returns (to: array<Byte>, toLen: nat)
    requires str != [] && StrStr(arg, str) == Some(match0)
    ensures fresh(to) && toLen < to.Length && to[toLen] == 0 && to[..toLen] == ReplaceAll(arg, str, with)
  {
    hide ReplaceAll, StrStr, Completed;
    CompletedStart(arg, match0, str, with);
    to := StrNDup(arg, match0);
    toLen := match0;
    var from := Some(match0 + |str|);
    while from.Some?
      invariant fresh(to) && toLen < to.Length && to[toLen] == 0
      invariant from.Some? ==> from.value <= |arg|
      invariant Completed(to[..toLen], arg, from, str, with) == ReplaceAll(arg, str, with)
      decreases from.Some?, if from.Some? then |arg| - from.value else 0
    {
      to, toLen, from := SubstituteOnce(to, toLen, arg, from.value, str, with);
    }
    CompletedEnd(to[..toLen], arg, str, with);
  }

  /** The whole result, of which `out` is written and the text from `from` on is to do. */
  ghost function Completed(out: Str, arg: Str, from: Option<nat>, str: Str, with: Str): Str
    requires str != [] && (from.Some? ==> from.value <= |arg|)
  {
    if from.Some? then out + with + ReplaceAll(arg[from.value..], str, with) else out
  }

  lemma {:induction false} CompletedStart(arg: Str, match0: nat, str: Str, with: Str)
    requires str != [] && StrStr(arg, str) == Some(match0)
    ensures match0 + |str| <= |arg|
    ensures Completed(arg[..match0], arg, Some(match0 + |str|), str, with) == ReplaceAll(arg, str, with)
  {
    hide StrStr;
  }

  lemma {:induction false} CompletedEnd(out: Str, arg: Str, str: Str, with: Str)
    requires str != []
    ensures Completed(out, arg, None, str, with) == out
  {
  }

  /** One turn of that loop: the replacement, then the text up to the next match, or
      to the end. */
  method SubstituteOnce(to: array<Byte>, toLen: nat, arg: Str, from: nat, str: Str, with: Str)
    returns (newTo: array<Byte>, newLen: nat, next: Option<nat>)
    requires str != [] && toLen < to.Length && from <= |arg|
    ensures fresh(newTo) && newLen < newTo.Length && newTo[newLen] == 0
    ensures next.Some? ==> from < next.value <= |arg|
    ensures Completed(to[..toLen], arg, Some(from), str, with) == Completed(newTo[..newLen], arg, next, str, with)
  {
    hide ReplaceAll;
    var rest := arg[from..];
    newTo, newLen := StrAppend(to, toLen, with);
    ReplaceFirst(rest, str, with, newTo[..newLen]);
    var m := StrStr(rest, str);
    hide StrStr;
    if m.Some? {
      assert rest[m.value + |str|..] == arg[from + m.value + |str|..];
      newTo, newLen := StrAppend(newTo, newLen, rest[..m.value]);
      next := Some(from + m.value + |str|);
    } else {
      newTo, newLen := StrAppend(newTo, newLen, rest);
      next := None;
    }
  }

  /** An unsigned int counter, `n` steps on. */
  function Bumped(count: nat, n: nat): nat {
    (count + n) % WORD
  }

  lemma {:induction false} BumpedOnce(count: nat, n: nat)
    ensures (Bumped(count, n) + 1) % WORD == Bumped(count, n + 1)
    ensures count < WORD ==> Bumped(count, 0) == count
  {
  }

  /** What __argz_replace has copied after `i` entries: as long as nothing has matched,
      nothing. */
  ghost predicate Copied(delayed: bool, dst: seq<Byte>, es: seq<Str>, i: nat, str: Str, with: Str) {
    && i <= |es| && str != [] && (delayed <==> Containing(es[..i], str) == 0)
    && dst == if delayed then [] else Encode(MapReplace(es[..i], str, with))
  }

  /** The first match brings over, unchanged, all entries before it. */
  lemma {:induction false} CopiedFirst(dst: seq<Byte>, es: seq<Str>, i: nat, str: Str, with: Str)
    requires Copied(true, dst, es, i, str, with)
    ensures dst == [] && Encode(es[..i]) == Encode(MapReplace(es[..i], str, with))
  {
    MapReplaceNothing(es[..i], str, with);
  }

  lemma {:induction false} CopiedMatch(dst: seq<Byte>, es: seq<Str>, i: nat, str: Str, with: Str)
    requires i < |es| && str != [] && StrStr(es[i], str).Some? && dst == Encode(MapReplace(es[..i], str, with))
    ensures Copied(false, dst + ReplaceAll(es[i], str, with) + [0], es, i + 1, str, with)
    ensures Containing(es[..i + 1], str) == Containing(es[..i], str) + 1
  {
    MapReplaceNext(es, i, str, with);
    hide MapReplace, Containing, StrStr, ReplaceAll, Encode;
    EncodeSnoc(MapReplace(es[..i], str, with), ReplaceAll(es[i], str, with));
  }

  lemma {:induction false} CopiedNone(delayed: bool, dst: seq<Byte>, es: seq<Str>, i: nat, str: Str, with: Str)
    requires Copied(delayed, dst, es, i, str, with) && i < |es| && StrStr(es[i], str).None?
    ensures Copied(delayed, if delayed then [] else dst + es[i] + [0], es, i + 1, str, with)
    ensures Containing(es[..i + 1], str) == Containing(es[..i], str)
  {
    MapReplaceNext(es, i, str, with);
    assert ReplaceAll(es[i], str, with) == es[i];
    hide MapReplace, Containing, StrStr, ReplaceAll, Encode;
    EncodeSnoc(MapReplace(es[..i], str, with), es[i]);
  }

  lemma {:induction false} CopiedStart(es: seq<Str>, str: Str, with: Str)
    requires str != []
    ensures Copied(true, [], es, 0, str, with) && Containing(es[..0], str) == 0
  {
  }

  lemma {:induction false} EncodeSnoc(es: seq<Str>, e: Str)
    ensures Encode(es + [e]) == Encode(es) + e + [0]
  {
    assert (es + [e])[..|es|] == es;
  }

  lemma {:induction false} CopiedAll(delayed: bool, dst: seq<Byte>, es: seq<Str>, str: Str, with: Str)
    requires Copied(delayed, dst, es, |es|, str, with) && Plain(es) && NoNul(with)
    ensures delayed <==> Containing(es, str) == 0
    ensures delayed ==> MapReplace(es, str, with) == es
    ensures !delayed ==> Terminated(dst) && Entries(dst) == MapReplace(es, str, with)
    ensures es[..|es|] == es
  {
    assert es[..|es|] == es;
    MapReplaceNothing(es, str, with);
    MapReplacePlain(es, str, with);
    hide MapReplace, Containing, Encode, Entries, Plain;
    EntriesRoundTrip(MapReplace(es, str, with), []);
  }

  class Vector {
    var argz: array<Byte>
    var len: nat

    ghost predicate Valid()
      reads this, argz
    {
      len <= argz.Length && Terminated(argz[..len])
    }

    ghost function Contents(): seq<Byte>
      reads this, argz
      requires len <= argz.Length
    {
      argz[..len]
    }

    constructor ()
      ensures Valid() && Contents() == [] && fresh(argz)
    {
      argz, len := new Byte[0], 0;
    }

    /** __argz_append. */
    method Append(buf: seq<Byte>)
      requires len <= argz.Length
      modifies this
      ensures len <= argz.Length && fresh(argz) && Contents() == old(Contents()) + buf
    {
      var newArgz := Realloc(argz, len, len + |buf|);
      Copy(newArgz, len, buf);
      assert newArgz[..len + |buf|] == newArgz[..len] + newArgz[len..len + |buf|];
      argz, len := newArgz, len + |buf|;
    }

    /** __argz_add: one entry more. */
    method Add(str: Str)
      requires Valid() && NoNul(str)
      modifies this
      ensures Valid() && fresh(argz) && Entries(Contents()) == old(Entries(Contents())) + [str]
      ensures Contents() == old(Contents()) + str + [0]
    {
      hide Encode, Entries;
      ghost var es := Entries(Contents());
      EntriesOf(Contents());
      EntriesRoundTrip(es + [str], []);
      EncodeConcat(es, [str]);
      EncodeOne(str);
      assert Contents() + (str + [0]) == Contents() + str + [0];
      Append(str + [0]);
    }

    /** __argz_add_sep. */
    method AddSep(text: Str, delim: Byte)
      requires Valid() && NoNul(text)
      modifies this
      ensures Valid() && Entries(Contents()) == old(Entries(Contents())) + Split(text, delim)
    {
      hide Encode, Entries;
      ghost var es, before := Entries(Contents()), Contents();
      SplitPlain(text, delim);
      EntriesOf(before);
      EntriesRoundTrip(es + Split(text, delim), []);
      EncodeConcat(es, Split(text, delim));
      var nlen := |text| + 1;
      if nlen > 1 {
        var newArgz := Realloc(argz, len, len + nlen);
        nlen := WriteSplit(newArgz, len, text, delim);
        assert newArgz[..len + nlen] == newArgz[..len] + newArgz[len..len + nlen];
        argz, len := newArgz, len + nlen;
      } else {
        assert es + Split(text, delim) == es;
      }
    }

    /** __argz_create_sep, into this vector. */
    method CreateSep(text: Str, delim: Byte)
      requires NoNul(text)
      modifies this
      ensures Valid() && Entries(Contents()) == Split(text, delim)
      ensures text == [] <==> len == 0
    {
      SplitPlain(text, delim);
      EntriesRoundTrip(Split(text, delim), []);
      var nlen := |text| + 1;
      if nlen > 1 {
        var newArgz := new Byte[nlen](_ => 0);
        nlen := WriteSplit(newArgz, 0, text, delim);
        assert newArgz[..nlen] == newArgz[0..nlen];
        argz, len := newArgz, nlen;
      } else {
        argz, len := new Byte[0], 0;
      }
    }

    /** The turn of __argz_replace for an entry with a match, on its output vector. The
        first time, the entries before it, `skipped`, come over as they are. */
    method AddReplaced(delayedCopy: bool, skipped: seq<Byte>, arg: Str, match0: nat, str: Str, with: Str,
                       ghost es: seq<Str>, ghost i: nat)
      requires Valid() && Copied(delayedCopy, Contents(), es, i, str, with) && str != []
      requires i < |es| && es[i] == arg && StrStr(arg, str) == Some(match0) && NoNul(arg) && NoNul(with)
      requires skipped == Encode(es[..i])
      modifies this
      ensures Valid() && fresh(argz) && Copied(false, Contents(), es, i + 1, str, with)
      ensures Containing(es[..i + 1], str) == Containing(es[..i], str) + 1
    {
      hide Encode, Entries, MapReplace, Containing, ReplaceAll, StrStr, Copied;
      ReplaceAllPlain(arg, str, with);
      var to, toLen := Substitute(arg, match0, str, with);
      if delayedCopy {
        CopiedFirst(Contents(), es, i, str, with);
        if |skipped| > 0 {
          Append(skipped);
        }
        assert Contents() == skipped;
      } else {
        CopiedLater(Contents(), es, i, str, with);
      }
      CopiedMatch(Contents(), es, i, str, with);
      Add(to[..toLen]);
    }

    /** The outer loop of __argz_replace over the vector `b`, filling this one. */
    method ReplaceLoop(b: seq<Byte>, str: Str, with: Str, count: nat, ghost es: seq<Str>)
      returns (delayedCopy: bool, newCount: nat)
      requires str != [] && NoNul(with) && count < WORD && Plain(es) && b == Encode(es)
      requires Valid() && Contents() == []
      modifies this
      ensures Valid() && Copied(delayedCopy, Contents(), es, |es|, str, with)
      ensures newCount == Bumped(count, Containing(es[..|es|], str))
      ensures argz == old(argz) || fresh(argz)
    {
      hide *;
      delayedCopy, newCount := true, count;
      ghost var i := 0;
      CopiedStart(es, str, with);
      BumpedOnce(count, 0);
      NextWalks(es, 0);
      ValidBounds(this);
      var arg := Next(b, None);
      while arg.Some?
        invariant 0 <= i <= |es| && arg == (if i < |es| then Some(Offset(es, i)) else None)
        invariant Valid() && len <= argz.Length && (argz == old(argz) || fresh(argz))
        invariant Copied(delayedCopy, Contents(), es, i, str, with)
        invariant newCount == Bumped(count, Containing(es[..i], str))
        decreases |es| - i
      {
        EntryAt(es, i);
        var entry := b[arg.value..NulAt(b, arg.value)];
        PlainEntry(es, i);
        var m := StrStr(entry, str);
        if m.Some? {
          AddReplaced(delayedCopy, b[..arg.value], entry, m.value, str, with, es, i);
          delayedCopy := false;
          BumpedOnce(count, Containing(es[..i], str));
          newCount := (newCount + 1) % WORD;
        } else {
          CopiedNone(delayedCopy, Contents(), es, i, str, with);
          if !delayedCopy {
            Add(entry);
          } else {
            CopiedFirst(Contents(), es, i, str, with);
          }
        }
        ValidBounds(this);
        NextWalks(es, i + 1);
        arg := Next(b, arg);
        i := i + 1;
      }
    }

    /** __argz_replace: every entry is replaced in, wherever the first match is, and
        the counter (an unsigned int) grows by the number of entries with a match. */
    method Replace(str: Str, with: Str, count: nat) returns (newCount: nat)
      requires Valid() && NoNul(with) && count < WORD
      modifies this
      ensures Valid()
      ensures str == [] ==> Contents() == old(Contents()) && newCount == count
      ensures str != [] ==>
                && Entries(Contents()) == MapReplace(old(Entries(Contents())), str, with)
                && newCount == (count + Containing(old(Entries(Contents())), str)) % 0x1_0000_0000
                && (Containing(old(Entries(Contents())), str) == 0 ==> argz == old(argz))
    {
      newCount := count;
      if str == [] {
        return;
      }
      hide *;
      ValidBounds(this);
      ghost var es := Entries(Contents());
      EntriesOf(Contents());
      var dst := new Vector();
      var delayedCopy;
      delayedCopy, newCount := dst.ReplaceLoop(argz[..len], str, with, count, es);
      CopiedAll(delayedCopy, dst.Contents(), es, str, with);
      ValidBounds(dst);
      if !delayedCopy {
        argz, len := dst.argz, dst.len;
        SameVector(this, dst);
      }
    }
  }

  lemma {:induction false} PlainEntry(es: seq<Str>, i: nat)
    requires Plain(es) && i < |es|
    ensures NoNul(es[i])
  {
  }

  lemma {:induction false} SameVector(v: Vector, w: Vector)
    requires w.Valid() && v.argz == w.argz && v.len == w.len
    ensures v.Valid() && v.Contents() == w.Contents()
  {
  }

  lemma {:induction false} ValidBounds(v: Vector)
    requires v.Valid()
    ensures v.len <= v.argz.Length
  {
  }

  lemma {:induction false} CopiedLater(dst: seq<Byte>, es: seq<Str>, i: nat, str: Str, with: Str)
    requires Copied(false, dst, es, i, str, with)
    ensures dst == Encode(MapReplace(es[..i], str, with))
  {
  }

  lemma {:induction false} MapReplacePlain(es: seq<Str>, str: Str, with: Str)
    requires str != [] && Plain(es) && NoNul(with)
    ensures Plain(MapReplace(es, str, with))
  {
    forall i | 0 <= i < |es|
      ensures NoNul(MapReplace(es, str, with)[i])
    {
      ReplaceAllPlain(es[i], str, with);
    }
  }

  lemma {:induction false} RestPlain(cur: Str, s: Str, sep: Byte)
    requires NoNul(cur) && NoNul(s)
    ensures Plain(Rest(cur, s, sep))
    decreases |s|
  {
    if s != [] {
      if s[0] != sep {
        RestPlain(cur + [s[0]], s[1..], sep);
      } else {
        RestPlain([], s[1..], sep);
      }
    }
  }

  lemma {:induction false} SplitPlain(s: Str, sep: Byte)
    requires NoNul(s)
    ensures Plain(Split(s, sep))
  {
    if s != [] {
      RestPlain([], s, sep);
    }
  }
}
