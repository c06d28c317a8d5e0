/** The obstack allocator (src/malloc/obstack.c, src/malloc/obstack.h). Addresses are
    indices of one flat memory; chunks are address ranges in it. */
module Obstack {
  import opened Arith

  type Byte = b: int | 0 <= b < 256

  /** The offset of `contents` in struct _obstack_chunk, behind two pointers. */
  const HEADER := 16
  const DEFAULT_ALIGNMENT := 16
  const DEFAULT_SIZE := 4064
  const COPYING_UNIT := 4

  predicate Aligned(p: nat, a: nat)
    requires a > 0
  {
    p % a == 0
  }

  /** __PTR_ALIGN for the mask `a - 1`. */
  function Align(p: nat, a: nat): (r: nat)
    requires a > 0
    ensures p <= r < p + a && Aligned(r, a)
  {
    var q, m := p / a, p % a;
    assert p == q * a + m;
    DivisionUnique(a, q + 1, 0);
    assert (q + 1) * a + 0 == q * a + a;
    if m == 0 then p else p + (a - m)
  }

  datatype Chunk = Chunk(addr: nat, limit: nat)

  /** Where the first object of a chunk goes. */
  function Start(c: Chunk, a: nat): (r: nat)
    requires a > 0
    ensures c.addr + HEADER <= r < c.addr + HEADER + a && Aligned(r, a)
  {
    Align(c.addr + HEADER, a)
  }

  predicate Apart(c: Chunk, d: Chunk) {
    c.limit <= d.addr || d.limit <= c.addr
  }

  /** The chain, oldest chunk first: ranges of the memory that do not overlap. */
  ghost predicate Layout(chunks: seq<Chunk>, a: nat, memory: nat)
    requires a > 0
  {
    && |chunks| > 0
    && (forall i :: 0 <= i < |chunks| ==> Start(chunks[i], a) <= chunks[i].limit <= memory)
    && (forall i, j :: 0 <= i < j < |chunks| ==> Apart(chunks[i], chunks[j]))
  }

  /** A finished object: its address, its bytes and the chunk it was finished in. */
  datatype Object = Object(addr: nat, bytes: seq<Byte>, home: nat) {
    function End(): nat {
      addr + |bytes|
    }
  }

  /** Each object lies in its chunk, and an object with any bytes is aligned (an empty
      one may sit at the very end of a chunk). */
  ghost predicate Placed(objects: seq<Object>, chunks: seq<Chunk>, a: nat)
    requires a > 0
  {
    forall i :: 0 <= i < |objects| ==>
      && objects[i].home < |chunks|
      && Start(chunks[objects[i].home], a) <= objects[i].addr
      && objects[i].End() <= chunks[objects[i].home].limit
      && (Aligned(objects[i].addr, a) || objects[i].addr == chunks[objects[i].home].limit)
  }

  /** Older objects lie in older chunks, or below. */
  ghost predicate Ordered(objects: seq<Object>) {
    forall i, j :: 0 <= i < j < |objects| ==>
      || objects[i].home < objects[j].home
      || (objects[i].home == objects[j].home && objects[i].End() <= objects[j].addr)
  }

  /** The objects of chunk `top` end at or below `base`. */
  ghost predicate Below(objects: seq<Object>, top: int, base: nat) {
    forall i :: 0 <= i < |objects| && objects[i].home == top ==> objects[i].End() <= base
  }

  ghost predicate NoneEmpty(objects: seq<Object>, top: int) {
    forall i :: 0 <= i < |objects| && objects[i].home == top ==> objects[i].bytes != []
  }

  /** The memory `m` holds `bytes` at `addr`. */
  ghost predicate Stores(m: seq<Byte>, addr: nat, bytes: seq<Byte>) {
    addr + |bytes| <= |m| && m[addr..addr + |bytes|] == bytes
  }

  ghost predicate Kept(m: seq<Byte>, objects: seq<Object>) {
    forall i :: 0 <= i < |objects| ==> Stores(m, objects[i].addr, objects[i].bytes)
  }

  lemma {:induction false} KeptSnoc(m: seq<Byte>, objects: seq<Object>, o: Object)
    requires Kept(m, objects) && Stores(m, o.addr, o.bytes)
    ensures Kept(m, objects + [o])
  {
    hide Stores;
  }

  /** The memory with `bytes` written at `at`. */
  function Written(m: seq<Byte>, at: nat, bytes: seq<Byte>): (r: seq<Byte>)
    requires at + |bytes| <= |m|
    ensures |r| == |m|
  {
    m[..at] + bytes + m[at + |bytes|..]
  }

  lemma {:induction false} WrittenThere(m: seq<Byte>, at: nat, bytes: seq<Byte>)
    requires at + |bytes| <= |m|
    ensures Written(m, at, bytes)[at..at + |bytes|] == bytes
  {
  }

  lemma {:induction false} WrittenElsewhere(m: seq<Byte>, at: nat, bytes: seq<Byte>, lo: nat, hi: nat)
    requires at + |bytes| <= |m| && lo <= hi <= |m| && (hi <= at || at + |bytes| <= lo)
    ensures Written(m, at, bytes)[lo..hi] == m[lo..hi]
  {
    forall k | 0 <= k < hi - lo
      ensures Written(m, at, bytes)[lo..hi][k] == m[lo..hi][k]
    {
    }
  }

  lemma {:induction false} WrittenIs(m: seq<Byte>, m': seq<Byte>, at: nat, bytes: seq<Byte>)
    requires at + |bytes| <= |m| == |m'|
    requires forall x :: at <= x < at + |bytes| ==> m'[x] == bytes[x - at]
    requires forall x :: 0 <= x < |m| && !(at <= x < at + |bytes|) ==> m'[x] == m[x]
    ensures m' == Written(m, at, bytes)
  {
  }

  datatype Option = None | Some(addr: nat)

  type Allocator = (seq<Chunk>, nat) -> Option

  /** The allocator gives memory that no chunk of the chain uses, or gives up. */
  ghost predicate Honest(alloc: Allocator, memory: nat) {
    forall chunks, n :: alloc(chunks, n).Some? ==> Grants(chunks, n, alloc(chunks, n).addr, memory)
  }

  ghost predicate Grants(chunks: seq<Chunk>, n: nat, addr: nat, memory: nat) {
    addr + n <= memory && forall i :: 0 <= i < |chunks| ==> Apart(chunks[i], Chunk(addr, addr + n))
  }

  // ---- facts about the chain ----

  /** A chunk whose growing object starts at its start holds no finished object. */
  lemma {:induction false} OnlyData(objects: seq<Object>, chunks: seq<Chunk>, a: nat, base: nat)
    requires a > 0 && |chunks| > 0 && Placed(objects, chunks, a) && Below(objects, |chunks| - 1, base)
    requires NoneEmpty(objects, |chunks| - 1) && base == Start(chunks[|chunks| - 1], a)
    ensures forall i :: 0 <= i < |objects| ==> objects[i].home < |chunks| - 1
  {
    hide Start, Aligned;
  }

  /** Replacing the newest chunk, or adding one, leaves the objects of others in place. */
  lemma {:induction false} ChainGrows(objects: seq<Object>, chunks: seq<Chunk>, a: nat, n: nat, c: Chunk, memory: nat)
    requires a > 0 && Layout(chunks, a, memory) && Placed(objects, chunks, a) && n <= |chunks|
    requires forall i :: 0 <= i < |objects| ==> objects[i].home < n
    requires Start(c, a) <= c.limit <= memory && forall i :: 0 <= i < |chunks| ==> Apart(chunks[i], c)
    ensures Layout(chunks[..n] + [c], a, memory) && Placed(objects, chunks[..n] + [c], a)
    ensures Below(objects, n, Start(c, a)) && NoneEmpty(objects, n)
  {
    hide Start, Aligned, Apart;
    var chunks' := chunks[..n] + [c];
    forall i, j | 0 <= i < j < |chunks'|
      ensures Apart(chunks'[i], chunks'[j])
    {
      if j == n {
        assert chunks'[j] == c && chunks'[i] == chunks[i];
      } else {
        assert chunks'[j] == chunks[j] && chunks'[i] == chunks[i];
      }
    }
  }

  /** The chain cut back to the chunk of object `k`, with the objects before it. */
  lemma {:induction false} ChainCut(objects: seq<Object>, chunks: seq<Chunk>, a: nat, k: nat, memory: nat)
    requires a > 0 && Layout(chunks, a, memory) && Placed(objects, chunks, a) && Ordered(objects) && k < |objects|
    ensures var n := objects[k].home;
            && n < |chunks|
            && Layout(chunks[..n + 1], a, memory) && Placed(objects[..k], chunks[..n + 1], a)
            && Ordered(objects[..k]) && Below(objects[..k], n, objects[k].addr)
  {
    hide Start, Aligned, Apart;
  }

  /** The search of the chain for an address stops at the chunk of the object there. */
  lemma {:induction false} OwnerOnly(chunks: seq<Chunk>, a: nat, memory: nat, n: nat, x: nat, i: nat)
    requires a > 0 && Layout(chunks, a, memory) && n < |chunks| && i < |chunks|
    requires Start(chunks[n], a) <= x <= chunks[n].limit
    ensures chunks[i].addr < x <= chunks[i].limit <==> i == n
  {
    assert Apart(chunks[if i < n then i else n], chunks[if i < n then n else i]) || i == n;
    assert Start(chunks[i], a) <= chunks[i].limit;
  }

  /** Writing clear of the objects keeps them. */
  lemma {:induction false} KeptOutside(m: seq<Byte>, objects: seq<Object>, at: nat, bytes: seq<Byte>)
    requires Kept(m, objects) && at + |bytes| <= |m|
    requires forall i :: 0 <= i < |objects| ==> objects[i].End() <= at || at + |bytes| <= objects[i].addr
    ensures Kept(Written(m, at, bytes), objects)
  {
    hide Written;
    forall i | 0 <= i < |objects|
      ensures Stores(Written(m, at, bytes), objects[i].addr, objects[i].bytes)
    {
      assert Stores(m, objects[i].addr, objects[i].bytes);
      WrittenElsewhere(m, at, bytes, objects[i].addr, objects[i].End());
    }
  }

  /** The objects are clear of whatever lies from `lo` to the limit of the newest chunk. */
  lemma {:induction false} ClearAbove(objects: seq<Object>, chunks: seq<Chunk>, a: nat, memory: nat, lo: nat, hi: nat)
    requires a > 0 && Layout(chunks, a, memory) && Placed(objects, chunks, a)
    requires Below(objects, |chunks| - 1, lo)
    requires Start(chunks[|chunks| - 1], a) <= lo <= hi <= chunks[|chunks| - 1].limit
    ensures forall i :: 0 <= i < |objects| ==> objects[i].End() <= lo || hi <= objects[i].addr
  {
    forall i | 0 <= i < |objects|
      ensures objects[i].End() <= lo || hi <= objects[i].addr
    {
      assert objects[i].home < |chunks| - 1 ==> Apart(chunks[objects[i].home], chunks[|chunks| - 1]);
    }
  }

  /** The objects are clear of a range that no chunk of theirs meets. */
  lemma {:induction false} ClearOf(objects: seq<Object>, chunks: seq<Chunk>, a: nat, c: Chunk)
    requires a > 0 && Placed(objects, chunks, a) && forall i :: 0 <= i < |chunks| ==> Apart(chunks[i], c)
    ensures forall i :: 0 <= i < |objects| ==> objects[i].End() <= c.addr || c.limit <= objects[i].addr
  {
    forall i | 0 <= i < |objects|
      ensures objects[i].End() <= c.addr || c.limit <= objects[i].addr
    {
      assert Apart(chunks[objects[i].home], c);
    }
  }

  /** The word loop of the copy, from the last whole word down. */
  method CopyWords(mem: array<Byte>, src: nat, dst: nat, count: nat, ghost bytes: seq<Byte>)
    requires src + |bytes| <= mem.Length && dst + |bytes| <= mem.Length && COPYING_UNIT * count <= |bytes|
    requires src + |bytes| <= dst || dst + |bytes| <= src
    requires mem[src..src + |bytes|] == bytes
    modifies mem
    ensures forall x :: dst <= x < dst + COPYING_UNIT * count ==> mem[x] == bytes[x - dst]
    ensures forall x :: 0 <= x < mem.Length && !(dst <= x < dst + COPYING_UNIT * count) ==> mem[x] == old(mem[x])
  {
    ghost var m := mem[..];
    var i := count - 1;
    while i >= 0
      invariant -1 <= i < count
      invariant forall x :: dst + COPYING_UNIT * (i + 1) <= x < dst + COPYING_UNIT * count ==> mem[x] == bytes[x - dst]
      invariant forall x :: 0 <= x < mem.Length ==>
                  dst + COPYING_UNIT * (i + 1) <= x < dst + COPYING_UNIT * count || mem[x] == m[x]
    {
      var to, from := dst + COPYING_UNIT * i, src + COPYING_UNIT * i;
      assert forall x :: from <= x < from + COPYING_UNIT ==> mem[x] == bytes[x - src];
      mem[to], mem[to + 1], mem[to + 2], mem[to + 3] := mem[from], mem[from + 1], mem[from + 2], mem[from + 3];
      i := i - 1;
    }
  }

  /** Move `n` bytes between ranges that do not overlap, by words when `words`. */
  method CopyObject(mem: array<Byte>, src: nat, dst: nat, n: nat, words: bool)
    requires src + n <= mem.Length && dst + n <= mem.Length && (src + n <= dst || dst + n <= src)
    modifies mem
    ensures mem[..] == Written(old(mem[..]), dst, old(mem[src..src + n]))
  {
    ghost var m, bytes := mem[..], mem[src..src + n];
    var already := 0;
    if words {
      CopyWords(mem, src, dst, n / COPYING_UNIT, bytes);
      already := n / COPYING_UNIT * COPYING_UNIT;
    }
    for i := already to n
      invariant forall x :: dst <= x < dst + i ==> mem[x] == bytes[x - dst]
      invariant forall x :: 0 <= x < mem.Length && !(dst <= x < dst + i) ==> mem[x] == m[x]
    {
      assert mem[src + i] == bytes[i];
      mem[dst + i] := mem[src + i];
    }
    WrittenIs(m, mem[..], dst, bytes);
  }

  /** memcpy into the memory. */
  method CopyBytes(mem: array<Byte>, at: nat, data: seq<Byte>)
    requires at + |data| <= mem.Length
    modifies mem
    ensures mem[..] == Written(old(mem[..]), at, data)
  {
    ghost var m := mem[..];
    for i := 0 to |data|
      invariant forall x :: at <= x < at + i ==> mem[x] == data[x - at]
      invariant forall x :: 0 <= x < mem.Length && !(at <= x < at + i) ==> mem[x] == m[x]
    {
      mem[at + i] := data[i];
    }
    WrittenIs(m, mem[..], at, data);
  }

  /** The state of an obstack, except for what the memory holds. */
  ghost predicate Fits(chunks: seq<Chunk>, a: nat, memory: nat, objects: seq<Object>, base: nat, top: nat,
                       maybeEmpty: bool) {
    && a > 0 && Layout(chunks, a, memory)
    && Start(chunks[|chunks| - 1], a) <= base <= top <= chunks[|chunks| - 1].limit
    && (Aligned(base, a) || base == chunks[|chunks| - 1].limit)
    && Placed(objects, chunks, a) && Ordered(objects)
    && Below(objects, |chunks| - 1, base)
    && (!maybeEmpty ==> NoneEmpty(objects, |chunks| - 1))
  }

  lemma {:induction false} FitsBounds(chunks: seq<Chunk>, a: nat, memory: nat, objects: seq<Object>, base: nat,
                                      top: nat, maybeEmpty: bool)
    requires Fits(chunks, a, memory, objects, base, top, maybeEmpty)
    ensures a > 0 && |chunks| > 0 && base <= top <= chunks[|chunks| - 1].limit <= memory
    ensures forall i :: 0 <= i < |objects| ==> objects[i].home < |chunks|
  {
  }

  lemma {:induction false} LongerSlice(m: seq<Byte>, lo: nat, mid: nat, hi: nat)
    requires lo <= mid <= hi <= |m|
    ensures m[lo..mid] <= m[lo..hi]
  {
    assert m[lo..hi][..mid - lo] == m[lo..mid];
  }

  /** An object with any bytes is aligned. */
  lemma {:induction false} FitsAligned(chunks: seq<Chunk>, a: nat, memory: nat, objects: seq<Object>, base: nat,
                                       top: nat, maybeEmpty: bool)
    requires Fits(chunks, a, memory, objects, base, top, maybeEmpty)
    ensures forall i :: 0 <= i < |objects| && objects[i].bytes != [] ==> Aligned(objects[i].addr, a)
    ensures base < top ==> Aligned(base, a)
  {
    hide Aligned, Start, Layout, Ordered, Below, NoneEmpty;
  }

  /** A new chunk gets out of the way of everything there is. */
  lemma {:induction false} NewIsClear(chunks: seq<Chunk>, a: nat, memory: nat, objects: seq<Object>, base: nat,
                                      top: nat, maybeEmpty: bool, c: Chunk)
    requires Fits(chunks, a, memory, objects, base, top, maybeEmpty)
    requires forall i :: 0 <= i < |chunks| ==> Apart(chunks[i], c)
    ensures top <= c.addr || c.limit <= base
    ensures forall i :: 0 <= i < |objects| ==> objects[i].End() <= c.addr || c.limit <= objects[i].addr
  {
    hide Placed, Ordered, Below, NoneEmpty;
    assert Apart(chunks[|chunks| - 1], c);
    ClearOf(objects, chunks, a, c);
  }

  /** The growing object may move to a new chunk; the chunk it leaves may go when it
      holds nothing else. */
  lemma {:induction false} MoveFits(chunks: seq<Chunk>, a: nat, memory: nat, objects: seq<Object>, base: nat, top: nat,
                                    maybeEmpty: bool, c: Chunk, n: nat)
    requires Fits(chunks, a, memory, objects, base, top, maybeEmpty)
    requires forall i :: 0 <= i < |chunks| ==> Apart(chunks[i], c)
    requires Start(c, a) + (top - base) <= c.limit <= memory
    requires n == |chunks| || (n == |chunks| - 1 && !maybeEmpty && base == Start(chunks[n], a))
    ensures Fits(chunks[..n] + [c], a, memory, objects, Start(c, a), Start(c, a) + (top - base), false)
    ensures forall i :: 0 <= i < |objects| ==> objects[i].home < n
  {
    if n < |chunks| {
      OnlyData(objects, chunks, a, base);
    } else {
      FitsBounds(chunks, a, memory, objects, base, top, maybeEmpty);
    }
    hide Layout, Placed, Below, NoneEmpty;
    ChainGrows(objects, chunks, a, n, c, memory);
  }

  lemma {:induction false} GrowFits(chunks: seq<Chunk>, a: nat, memory: nat, objects: seq<Object>, base: nat, top: nat,
                                    maybeEmpty: bool, top': nat)
    requires Fits(chunks, a, memory, objects, base, top, maybeEmpty) && |chunks| > 0
    requires base <= top' <= chunks[|chunks| - 1].limit
    ensures Fits(chunks, a, memory, objects, base, top', maybeEmpty)
    ensures forall i :: 0 <= i < |objects| ==> objects[i].End() <= base || top' <= objects[i].addr
  {
    ClearAbove(objects, chunks, a, memory, base, top');
  }

  lemma {:induction false} FinishFits(chunks: seq<Chunk>, a: nat, memory: nat, objects: seq<Object>, base: nat,
                                      top: nat, maybeEmpty: bool, bytes: seq<Byte>, next: nat)
    requires Fits(chunks, a, memory, objects, base, top, maybeEmpty) && |chunks| > 0 && base + |bytes| == top
    requires top <= next <= chunks[|chunks| - 1].limit && (Aligned(next, a) || next == chunks[|chunks| - 1].limit)
    ensures Fits(chunks, a, memory, objects + [Object(base, bytes, |chunks| - 1)], next, next,
                 maybeEmpty || bytes == [])
  {
    hide Start, Aligned, Layout;
  }

  /** Freeing object `k`: back to its chunk, and to its address. */
  lemma {:induction false} FreeFits(chunks: seq<Chunk>, a: nat, memory: nat, objects: seq<Object>, base: nat, top: nat,
                                    maybeEmpty: bool, k: nat)
    requires Fits(chunks, a, memory, objects, base, top, maybeEmpty) && k < |objects|
    ensures var n := objects[k].home;
            && n < |chunks|
            && Fits(chunks[..n + 1], a, memory, objects[..k], objects[k].addr, objects[k].addr,
                    n + 1 < |chunks| || maybeEmpty)
            && forall i :: 0 <= i < |chunks| ==> (chunks[i].addr < objects[k].addr <= chunks[i].limit <==> i == n)
  {
    var n := objects[k].home;
    ChainCut(objects, chunks, a, k, memory);
    forall i | 0 <= i < |chunks|
      ensures chunks[i].addr < objects[k].addr <= chunks[i].limit <==> i == n
    {
      OwnerOnly(chunks, a, memory, n, objects[k].addr, i);
    }
    hide Start, Layout, Ordered, Aligned;
    assert n + 1 == |chunks| ==> chunks[..n + 1] == chunks;
  }

  class ObstackData {
    const mem: array<Byte>
    const alignment: nat
    var chunkSize: nat
    var chunks: seq<Chunk>
    var objectBase: nat
    var nextFree: nat
    var chunkLimit: nat
    var maybeEmptyObject: bool
    /** The finished objects that have not been freed, oldest first. */
    ghost var objects: seq<Object>

    ghost predicate Frame()
      reads this
    {
      && Fits(chunks, alignment, mem.Length, objects, objectBase, nextFree, maybeEmptyObject)
      && |chunks| > 0 && chunkLimit == chunks[|chunks| - 1].limit
    }

    ghost predicate Valid()
      reads this, mem
    {
      Frame() && Kept(mem[..], objects)
    }

    /** The object being grown. */
    ghost function Growing(): seq<Byte>
      reads this, mem
      requires objectBase <= nextFree <= mem.Length
    {
      mem[objectBase..nextFree]
    }

    /** _obstack_begin. A chunk must have room for its header and for alignment. */
    constructor Begin(memory: array<Byte>, size: nat, align: nat, alloc: Allocator)
      requires Honest(alloc, memory.Length)
      requires var a := if align == 0 then DEFAULT_ALIGNMENT else align;
               (if size == 0 then DEFAULT_SIZE else size) >= HEADER + a
      requires alloc([], if size == 0 then DEFAULT_SIZE else size).Some?
      ensures Valid() && mem == memory && objects == [] && objectBase == nextFree
      ensures alignment == (if align == 0 then DEFAULT_ALIGNMENT else align)
      ensures chunkSize == (if size == 0 then DEFAULT_SIZE else size) && !maybeEmptyObject
      ensures var addr := alloc([], chunkSize).addr;
              && chunks == [Chunk(addr, addr + chunkSize)] && chunkLimit == addr + chunkSize
              && addr + HEADER <= objectBase < addr + HEADER + alignment && Aligned(objectBase, alignment)
    {
      var a := if align == 0 then DEFAULT_ALIGNMENT else align;
      var n := if size == 0 then DEFAULT_SIZE else size;
      mem, alignment, chunkSize := memory, a, n;
      var addr := alloc([], n).addr;
      var c := Chunk(addr, addr + n);
      chunks, chunkLimit := [c], addr + n;
      nextFree, objectBase := Start(c, a), Start(c, a);
      maybeEmptyObject := false;
      objects := [];
      new;
      assert Grants([], n, addr, memory.Length);
    }

    /** The second half of _obstack_newchunk: link the chunk, copy the growing object
        into it, and drop the old chunk if that held nothing else. */
    method Relocate(c: Chunk) returns (released: seq<Chunk>)
      requires Valid() && forall i :: 0 <= i < |chunks| ==> Apart(chunks[i], c)
      requires Start(c, alignment) + |Growing()| <= c.limit <= mem.Length
      modifies this`chunks, this`objectBase, this`nextFree, this`chunkLimit, this`maybeEmptyObject, mem
      ensures Valid() && Growing() == old(Growing())
      ensures chunkLimit == c.limit && objectBase == Start(c, alignment)
      ensures nextFree == Start(c, alignment) + |old(Growing())| && !maybeEmptyObject
      ensures released != [] <==> !old(maybeEmptyObject) && old(objectBase == Start(chunks[|chunks| - 1], alignment))
      ensures |released| <= 1 && chunks == old(chunks)[..|old(chunks)| - |released|] + [c]
      ensures released != [] ==> released[0] == old(chunks[|chunks| - 1])
      ensures forall i :: 0 <= i < |objects| ==> objects[i].home < |old(chunks)| - |released|
    {
      hide Fits, Start, Aligned, Apart, Kept, Written;
      FitsBounds(chunks, alignment, mem.Length, objects, objectBase, nextFree, maybeEmptyObject);
      NewIsClear(chunks, alignment, mem.Length, objects, objectBase, nextFree, maybeEmptyObject, c);
      var objSize, base := nextFree - objectBase, Start(c, alignment);
      var alone := !maybeEmptyObject && objectBase == Start(chunks[|chunks| - 1], alignment);
      ghost var bytes := Growing();
      KeptOutside(mem[..], objects, base, bytes);
      WrittenThere(mem[..], base, bytes);
      CopyObject(mem, objectBase, base, objSize, alignment >= DEFAULT_ALIGNMENT);
      ghost var m := mem[..];
      var n := |chunks|;
      released := [];
      if alone {
        released := [chunks[n - 1]];
        n := n - 1;
      }
      MoveFits(chunks, alignment, mem.Length, objects, objectBase, nextFree, maybeEmptyObject, c, n);
      chunks := chunks[..n] + [c];
      chunkLimit := c.limit;
      objectBase := base;
      nextFree := base + objSize;
      maybeEmptyObject := false;
      assert mem[..] == m;
      assert mem[objectBase..nextFree] == m[objectBase..nextFree];
    }

    /** The size _obstack_newchunk asks for, for `length` more bytes. */
    function Request(length: nat): nat
      reads this
      requires alignment > 0 && objectBase <= nextFree
    {
      var objSize := nextFree - objectBase;
      var newSize := objSize + length + objSize / 8 + (alignment - 1) + 100;
      if newSize < chunkSize then chunkSize else newSize
    }

    /** There is no room for `length` more bytes, and the allocator has no chunk for them. */
    ghost predicate Refused(length: nat, alloc: Allocator)
      reads this
      requires alignment > 0 && objectBase <= nextFree
    {
      nextFree + length > chunkLimit && alloc(chunks, Request(length)).None?
    }

    /** The newest chunk is what the allocator gave, added to all or all but the last of
        those before, and the growing object is at its start. */
    ghost predicate Opened(before: seq<Chunk>, alloc: Allocator, size: nat)
      reads this
    {
      && alignment > 0 && |before| > 0 && alloc(before, size).Some?
      && var c := Chunk(alloc(before, size).addr, alloc(before, size).addr + size);
         && (chunks == before + [c] || chunks == before[..|before| - 1] + [c]) && chunkLimit == c.limit
         && c.addr + HEADER <= objectBase < c.addr + HEADER + alignment && Aligned(objectBase, alignment)
    }

    /** _obstack_newchunk. It asks for the usual size, or for room for the growing object,
        an eighth more, `length` bytes, alignment and some spare. It fails exactly when the
        allocator gives up, and then does nothing. The growing object moves to the start of
        the new chunk; the old one is released if that was all it ever held, and no chunk
        with a live object is. */
    method NewChunk(length: nat, alloc: Allocator) returns (ok: bool, released: seq<Chunk>)
      requires Valid() && Honest(alloc, mem.Length)
      modifies this`chunks, this`objectBase, this`nextFree, this`chunkLimit, this`maybeEmptyObject, mem
      ensures Valid() && Growing() == old(Growing())
      ensures ok <==> alloc(old(chunks), old(Request(length))).Some?
      ensures var size, wanted := old(nextFree) - old(objectBase), old(Request(length));
              var needed := size + length + size / 8 + alignment + 99;
              needed <= wanted && chunkSize <= wanted && (wanted == needed || wanted == chunkSize)
      ensures ok ==> nextFree + length <= chunkLimit && Opened(old(chunks), alloc, old(Request(length)))
      ensures ok ==> |chunks| == |old(chunks)| + 1 - |released|
      ensures !ok ==> released == [] && unchanged(this) && mem[..] == old(mem[..])
      ensures |released| <= 1 && forall i :: 0 <= i < |objects| ==>
                chunks[objects[i].home] == old(chunks[objects[i].home])
      ensures released != [] <==>
                ok && !old(maybeEmptyObject) && old(objectBase == Start(chunks[|chunks| - 1], alignment))
      ensures released != [] ==>
                released[0] == old(chunks[|chunks| - 1])
                && forall i :: 0 <= i < |objects| ==> objects[i].home < |old(chunks)| - 1
    {
      hide Fits, Start, Aligned, Apart, Kept, Honest;
      FitsBounds(chunks, alignment, mem.Length, objects, objectBase, nextFree, maybeEmptyObject);
      var objSize := nextFree - objectBase;
      var newSize := objSize + length + objSize / 8 + (alignment - 1) + 100;
      if newSize < chunkSize {
        newSize := chunkSize;
      }
      assert newSize == Request(length);
      var at := alloc(chunks, newSize);
      if at.None? {
        return false, [];
      }
      Granted(alloc, chunks, newSize, mem.Length);
      released := Relocate(Chunk(at.addr, at.addr + newSize));
      ok := true;
    }

    /** Add bytes for which there is room. */
    method Append(data: seq<Byte>)
      requires Valid() && nextFree + |data| <= chunkLimit
      modifies this`nextFree, mem
      ensures Valid() && Growing() == old(Growing()) + data && nextFree == old(nextFree) + |data|
    {
      hide Fits, Kept, Written;
      FitsBounds(chunks, alignment, mem.Length, objects, objectBase, nextFree, maybeEmptyObject);
      ghost var growing, m := Growing(), mem[..];
      assert growing == m[objectBase..nextFree];
      GrowFits(chunks, alignment, mem.Length, objects, objectBase, nextFree, maybeEmptyObject, nextFree + |data|);
      KeptOutside(m, objects, nextFree, data);
      WrittenThere(m, nextFree, data);
      WrittenElsewhere(m, nextFree, data, objectBase, nextFree);
      CopyBytes(mem, nextFree, data);
      GrownBy(mem[..], objectBase, nextFree, growing, data);
      nextFree := nextFree + |data|;
      assert Growing() == mem[..][objectBase..nextFree];
    }

    /** obstack_grow. */
    method Grow(data: seq<Byte>, alloc: Allocator) returns (ok: bool)
      requires Valid() && Honest(alloc, mem.Length)
      modifies this`chunks, this`objectBase, this`nextFree, this`chunkLimit, this`maybeEmptyObject, mem
      ensures Valid()
      ensures ok <==> !old(Refused(|data|, alloc))
      ensures !ok ==> unchanged(this) && mem[..] == old(mem[..])
      ensures old(nextFree) + |data| <= old(chunkLimit) ==>
                && ok && chunks == old(chunks) && chunkLimit == old(chunkLimit)
                && objectBase == old(objectBase) && nextFree == old(nextFree) + |data|
      ensures old(nextFree) + |data| > old(chunkLimit) ==>
                && (ok <==> alloc(old(chunks), old(Request(|data|))).Some?)
                && (ok ==> Opened(old(chunks), alloc, old(Request(|data|))))
      ensures Growing() == if ok then old(Growing()) + data else old(Growing())
      ensures forall i :: 0 <= i < |objects| ==> chunks[objects[i].home] == old(chunks[objects[i].home])
    {
      hide Fits, Kept, Honest;
      FitsBounds(chunks, alignment, mem.Length, objects, objectBase, nextFree, maybeEmptyObject);
      if nextFree + |data| > chunkLimit {
        var released;
        ok, released := NewChunk(|data|, alloc);
        if !ok {
          return;
        }
      }
      Append(data);
      ok := true;
    }

    /** obstack_blank_fast. */
    method BlankFast(length: nat)
      requires Valid() && nextFree + length <= chunkLimit
      modifies this`nextFree
      ensures Valid() && nextFree == old(nextFree) + length
      ensures old(Growing()) <= Growing() && |Growing()| == |old(Growing())| + length
    {
      hide Fits, Kept;
      FitsBounds(chunks, alignment, mem.Length, objects, objectBase, nextFree, maybeEmptyObject);
      GrowFits(chunks, alignment, mem.Length, objects, objectBase, nextFree, maybeEmptyObject, nextFree + length);
      LongerSlice(mem[..], objectBase, nextFree, nextFree + length);
      assert Growing() == mem[..][objectBase..nextFree];
      nextFree := nextFree + length;
      assert Growing() == mem[..][objectBase..nextFree];
    }

    /** obstack_blank: the added bytes are whatever the memory holds. */
    method Blank(length: nat, alloc: Allocator) returns (ok: bool)
      requires Valid() && Honest(alloc, mem.Length)
      modifies this`chunks, this`objectBase, this`nextFree, this`chunkLimit, this`maybeEmptyObject, mem
      ensures Valid()
      ensures ok <==> !old(Refused(length, alloc))
      ensures !ok ==> unchanged(this) && mem[..] == old(mem[..])
      ensures old(nextFree) + length <= old(chunkLimit) ==>
                && ok && chunks == old(chunks) && chunkLimit == old(chunkLimit)
                && objectBase == old(objectBase) && nextFree == old(nextFree) + length
      ensures old(nextFree) + length > old(chunkLimit) ==>
                && (ok <==> alloc(old(chunks), old(Request(length))).Some?)
                && (ok ==> Opened(old(chunks), alloc, old(Request(length))))
      ensures old(Growing()) <= Growing() && |Growing()| == |old(Growing())| + if ok then length else 0
      ensures forall i :: 0 <= i < |objects| ==> chunks[objects[i].home] == old(chunks[objects[i].home])
    {
      hide Fits, Kept, Honest, Written;
      FitsBounds(chunks, alignment, mem.Length, objects, objectBase, nextFree, maybeEmptyObject);
      ok := true;
      if chunkLimit - nextFree < length {
        var released;
        ok, released := NewChunk(length, alloc);
        if !ok {
          return;
        }
      }
      FitsBounds(chunks, alignment, mem.Length, objects, objectBase, nextFree, maybeEmptyObject);
      BlankFast(length);
    }

    /** obstack_finish: the grown object becomes the newest finished one, and the next
        one starts at the first aligned place behind it, or at the limit of the chunk. */
    method Finish() returns (value: nat)
      requires Valid()
      modifies this`objectBase, this`nextFree, this`maybeEmptyObject, this`objects
      ensures Valid() && value == old(objectBase) && Growing() == []
      ensures objects == old(objects) + [Object(value, old(Growing()), |chunks| - 1)]
      ensures old(Growing()) != [] ==> Aligned(value, alignment)
      ensures objectBase == nextFree && old(nextFree) <= nextFree < old(nextFree) + alignment
      ensures Aligned(nextFree, alignment) || nextFree == chunkLimit
      ensures var next := Align(old(nextFree), alignment); nextFree == if next <= chunkLimit then next else chunkLimit
      ensures maybeEmptyObject == (old(maybeEmptyObject) || old(Growing()) == [])
    {
      hide Fits, Aligned, Kept;
      FitsBounds(chunks, alignment, mem.Length, objects, objectBase, nextFree, maybeEmptyObject);
      ghost var bytes := Growing();
      assert mem[..][objectBase..nextFree] == bytes;
      FitsAligned(chunks, alignment, mem.Length, objects, objectBase, nextFree, maybeEmptyObject);
      KeptSnoc(mem[..], objects, Object(objectBase, bytes, |chunks| - 1));
      ghost var next := Align(nextFree, alignment);
      FinishFits(chunks, alignment, mem.Length, objects, objectBase, nextFree, maybeEmptyObject, bytes,
                 if next > chunkLimit then chunkLimit else next);
      value := objectBase;
      if nextFree == value {
        maybeEmptyObject := true;
      }
      objects := objects + [Object(value, bytes, |chunks| - 1)];
      nextFree := Align(nextFree, alignment);
      if nextFree - chunks[|chunks| - 1].addr > chunkLimit - chunks[|chunks| - 1].addr {
        nextFree := chunkLimit;
      }
      objectBase := nextFree;
    }

    /** __obstack_free for any address: a null pointer (0) releases everything, and it
        gives up exactly for another address that no chunk has. */
    method FreeChunks(obj: nat) returns (aborted: bool, released: seq<Chunk>)
      requires Frame()
      modifies this`chunks, this`objectBase, this`nextFree, this`chunkLimit, this`maybeEmptyObject
      ensures aborted <==> obj != 0 && forall i :: 0 <= i < |old(chunks)| ==>
                !(old(chunks)[i].addr < obj <= old(chunks)[i].limit)
      ensures |chunks| + |released| == |old(chunks)| && chunks == old(chunks)[..|chunks|]
      ensures forall i :: |chunks| <= i < |old(chunks)| ==>
                && released[|old(chunks)| - 1 - i] == old(chunks)[i]
                && !(old(chunks)[i].addr < obj <= old(chunks)[i].limit)
      ensures obj == 0 ==> chunks == []
      ensures !aborted && obj != 0 ==>
                && |chunks| > 0 && chunks[|chunks| - 1].addr < obj <= chunks[|chunks| - 1].limit
                && objectBase == nextFree == obj && chunkLimit == chunks[|chunks| - 1].limit
      ensures released == [] ==> maybeEmptyObject == old(maybeEmptyObject)
      ensures released != [] ==> maybeEmptyObject
    {
      hide *;
      released := [];
      while |chunks| > 0 && (chunks[|chunks| - 1].addr >= obj || chunks[|chunks| - 1].limit < obj)
        invariant |chunks| + |released| == |old(chunks)| && chunks == old(chunks)[..|chunks|]
        invariant forall i :: |chunks| <= i < |old(chunks)| ==>
                    && released[|old(chunks)| - 1 - i] == old(chunks)[i]
                    && !(old(chunks)[i].addr < obj <= old(chunks)[i].limit)
        invariant released == [] ==> maybeEmptyObject == old(maybeEmptyObject)
        invariant released != [] ==> maybeEmptyObject
        decreases |chunks|
      {
        released := released + [chunks[|chunks| - 1]];
        chunks := chunks[..|chunks| - 1];
        maybeEmptyObject := true;
      }
      if |chunks| > 0 {
        objectBase, nextFree := obj, obj;
        chunkLimit := chunks[|chunks| - 1].limit;
        return false, released;
      }
      return obj != 0, released;
    }

    /** obstack_free of the live object `k`: it and all younger ones go, the older ones
        stay where they are, and the address is always found. */
    method Free(obj: nat, ghost k: nat) returns (aborted: bool)
      requires Valid() && k < |objects| && objects[k].addr == obj
      modifies this`chunks, this`objectBase, this`nextFree, this`chunkLimit, this`maybeEmptyObject, this`objects
      ensures !aborted && Valid() && objects == old(objects)[..k] && Growing() == []
      ensures objectBase == obj && |chunks| == old(objects)[k].home + 1 && chunks == old(chunks)[..|chunks|]
      ensures maybeEmptyObject <==> old(maybeEmptyObject) || |chunks| < |old(chunks)|
    {
      hide Fits, Kept, Layout, Placed;
      FitsBounds(chunks, alignment, mem.Length, objects, objectBase, nextFree, maybeEmptyObject);
      FreeFits(chunks, alignment, mem.Length, objects, objectBase, nextFree, maybeEmptyObject, k);
      ghost var home := objects[k].home;
      if obj > chunks[|chunks| - 1].addr && obj < chunkLimit {
        nextFree, objectBase := obj, obj;
        aborted := false;
        assert chunks[..home + 1] == chunks;
      } else {
        var released;
        assert chunks[home].addr < obj <= chunks[home].limit;
        aborted, released := FreeChunks(obj);
        assert chunks[|chunks| - 1] == old(chunks)[|chunks| - 1];
        assert |chunks| == home + 1;
        assert chunks == old(chunks)[..home + 1];
      }
      objects := objects[..k];
      FitsBounds(chunks, alignment, mem.Length, objects, objectBase, nextFree, maybeEmptyObject);
      KeptPrefix(mem[..], old(objects), k);
    }
  }

  lemma {:induction false} KeptPrefix(m: seq<Byte>, objects: seq<Object>, k: nat)
    requires Kept(m, objects) && k <= |objects|
    ensures Kept(m, objects[..k])
  {
  }

  lemma {:induction false} GrownBy(m: seq<Byte>, lo: nat, mid: nat, growing: seq<Byte>, data: seq<Byte>)
    requires lo <= mid && mid + |data| <= |m| && m[lo..mid] == growing && m[mid..mid + |data|] == data
    ensures m[lo..mid + |data|] == growing + data
  {
    assert m[lo..mid + |data|] == m[lo..mid] + m[mid..mid + |data|];
  }

  lemma {:induction false} Granted(alloc: Allocator, chunks: seq<Chunk>, n: nat, memory: nat)
    requires Honest(alloc, memory) && alloc(chunks, n).Some?
    ensures Grants(chunks, n, alloc(chunks, n).addr, memory)
  {
  }

  // ---- whole runs ----

  datatype Operation = Grow(data: seq<Byte>) | Finish | Free(k: nat)

  /** What an obstack is for: a stack of byte strings, and one being built. */
  datatype Stack = Stack(finished: seq<seq<Byte>>, growing: seq<Byte>) {
    /** Freeing is allowed only for an object that is there. */
    predicate Allows(op: Operation) {
      op.Free? ==> op.k < |finished|
    }

    function Step(op: Operation): Stack
      requires Allows(op)
    {
      match op
      case Grow(data) => Stack(finished, growing + data)
      case Finish => Stack(finished + [growing], [])
      case Free(k) => Stack(finished[..k], [])
    }

    predicate AllowsAll(ops: seq<Operation>)
      decreases |ops|
    {
      ops != [] ==> Allows(ops[0]) && Step(ops[0]).AllowsAll(ops[1..])
    }

    function Steps(ops: seq<Operation>): Stack
      requires AllowsAll(ops)
      decreases |ops|
    {
      if ops == [] then this else Step(ops[0]).Steps(ops[1..])
    }
  }

  ghost function Bytes(objects: seq<Object>): (r: seq<seq<Byte>>)
    ensures |r| == |objects| && forall i :: 0 <= i < |r| ==> r[i] == objects[i].bytes
  {
    seq(|objects|, i requires 0 <= i < |objects| => objects[i].bytes)
  }

  /** The addresses a caller was given for the live objects. */
  ghost predicate Addresses(held: seq<nat>, objects: seq<Object>) {
    |held| == |objects| && forall i :: 0 <= i < |held| ==> held[i] == objects[i].addr
  }

  ghost function Contents(h: ObstackData): Stack
    reads h, h.mem
    requires h.objectBase <= h.nextFree <= h.mem.Length
  {
    Stack(Bytes(h.objects), h.Growing())
  }

  /** What one operation does to the addresses held: those of the objects that stay, stay. */
  ghost predicate Follows(before: seq<nat>, op: Operation, after: seq<nat>) {
    && |after| == (match op case Grow(_) => |before| case Finish => |before| + 1 case Free(k) => k)
    && forall i :: 0 <= i < |after| && i < |before| ==> after[i] == before[i]
  }

  ghost predicate AddressesAligned(held: seq<nat>, finished: seq<seq<Byte>>, a: nat) {
    |held| == |finished| && a > 0 && forall i :: 0 <= i < |held| && finished[i] != [] ==> Aligned(held[i], a)
  }

  /** Where the next byte goes when everything fits: growing takes the bytes added, and
      finishing goes on to the next aligned place. */
  function Moved(p: nat, op: Operation, a: nat): (r: nat)
    requires a > 0
    ensures p <= r
  {
    match op
    case Grow(data) => p + |data|
    case Finish => Align(p, a)
    case Free(_) => p
  }

  function MovedBy(p: nat, ops: seq<Operation>, a: nat): (r: nat)
    requires a > 0
    ensures p <= r
  {
    if ops == [] then p else Moved(MovedBy(p, ops[..|ops| - 1], a), ops[|ops| - 1], a)
  }

  lemma {:induction false} MovedBySnoc(p: nat, ops: seq<Operation>, n: nat, a: nat)
    requires a > 0 && n < |ops|
    ensures MovedBy(p, ops[..n + 1], a) == Moved(MovedBy(p, ops[..n], a), ops[n], a) <= MovedBy(p, ops, a)
    decreases |ops|
  {
    assert ops[..n + 1][..n] == ops[..n];
    if n + 1 == |ops| {
      assert ops[..n + 1] == ops;
    } else {
      MovedBySnoc(p, ops[..|ops| - 1], n, a);
      assert ops[..|ops| - 1][..n + 1] == ops[..n + 1] && ops[..|ops| - 1][..n] == ops[..n];
    }
  }

  /** The operations free nothing, and what they build fits below the limit. */
  ghost predicate FitsBelow(p: nat, ops: seq<Operation>, a: nat, limit: nat) {
    a > 0 && MovedBy(p, ops, a) <= limit && forall i :: 0 <= i < |ops| ==> !ops[i].Free?
  }

  /** The first `n` operations filled the chunk, and opened none. */
  ghost predicate Filled(p: nat, ops: seq<Operation>, n: nat, a: nat, limit: nat, before: seq<Chunk>, next: nat,
                         top: nat, chunks: seq<Chunk>) {
    && a > 0 && n <= |ops|
    && next == MovedBy(p, ops[..n], a) && top == limit && chunks == before
  }

  lemma {:induction false} FilledStep(p: nat, ops: seq<Operation>, n: nat, a: nat, limit: nat, before: seq<Chunk>,
                                      next: nat, top: nat, chunks: seq<Chunk>)
    requires n < |ops| && FitsBelow(p, ops, a, limit) && Filled(p, ops, n, a, limit, before, next, top, chunks)
    ensures !ops[n].Free? && Moved(next, ops[n], a) <= limit == top
    ensures Filled(p, ops, n + 1, a, limit, before, Moved(next, ops[n], a), top, chunks)
  {
    MovedBySnoc(p, ops, n, a);
  }

  method RunOne(h: ObstackData, op: Operation, alloc: Allocator, before: seq<nat>) returns (ok: bool, held: seq<nat>)
    requires h.Valid() && Honest(alloc, h.mem.Length) && Addresses(before, h.objects)
    requires h.alignment > 0 && h.objectBase <= h.nextFree <= h.mem.Length && Contents(h).Allows(op)
    modifies h, h.mem
    ensures h.Valid() && Addresses(held, h.objects) && h.objectBase <= h.nextFree <= h.mem.Length
    ensures Contents(h) == if ok then old(Contents(h)).Step(op) else old(Contents(h))
    ensures Follows(before, op, held) && AddressesAligned(held, Bytes(h.objects), h.alignment)
    ensures !ok ==> op.Grow? && h.alignment > 0 && h.Refused(|op.data|, alloc)
    ensures ok && op.Grow? ==> h.alignment > 0 && !old(h.Refused(|op.data|, alloc))
    ensures !op.Free? && Moved(old(h.nextFree), op, h.alignment) <= old(h.chunkLimit) ==>
              && ok && h.nextFree == Moved(old(h.nextFree), op, h.alignment)
              && h.chunks == old(h.chunks) && h.chunkLimit == old(h.chunkLimit)
  {
    hide Fits, Honest, Kept, Align, Aligned, ObstackData.Opened, ObstackData.Request, ObstackData.Growing;
    held := before;
    ok := true;
    match op {
      case Grow(data) =>
        ok := h.Grow(data, alloc);
      case Finish =>
        ghost var objects := h.objects;
        var value := h.Finish();
        held := held + [value];
        assert Bytes(h.objects) == Bytes(objects) + [h.objects[|objects|].bytes];
      case Free(k) =>
        ghost var objects := h.objects;
        var aborted := h.Free(held[k], k);
        held := held[..k];
        assert Bytes(h.objects) == Bytes(objects)[..k];
    }
    FitsBounds(h.chunks, h.alignment, h.mem.Length, h.objects, h.objectBase, h.nextFree, h.maybeEmptyObject);
    FitsAligned(h.chunks, h.alignment, h.mem.Length, h.objects, h.objectBase, h.nextFree, h.maybeEmptyObject);
  }

  /** How many of the first `n` objects have lived through all of `ops`. */
  function Low(n: nat, ops: seq<Operation>): (r: nat)
    ensures r <= n
  {
    if ops == [] then n
    else
      var m, last := Low(n, ops[..|ops| - 1]), ops[|ops| - 1];
      if last.Free? && last.k < m then last.k else m
  }

  lemma {:induction false} LowSnoc(n: nat, ops: seq<Operation>, op: Operation)
    ensures Low(n, ops + [op]) == (var m := Low(n, ops); if op.Free? && op.k < m then op.k else m)
  {
    assert (ops + [op])[..|ops|] == ops;
  }

  /** Objects that no operation of `ops` frees have the same addresses before and after. */
  ghost predicate Survive(before: seq<nat>, ops: seq<Operation>, after: seq<nat>) {
    && Low(|before|, ops) <= |after|
    && forall i :: 0 <= i < Low(|before|, ops) ==> after[i] == before[i]
  }

  lemma {:induction false} SurviveSnoc(before: seq<nat>, ops: seq<Operation>, held: seq<nat>, op: Operation,
                                       after: seq<nat>)
    requires Survive(before, ops, held) && Follows(held, op, after)
    ensures Survive(before, ops + [op], after)
  {
    LowSnoc(|before|, ops, op);
  }

  /** The addresses held at the `n + 1` moments of a run: at each, the address of an object
      is the one it had at any earlier moment, unless it was freed in between. */
  ghost predicate Trace(moments: seq<seq<nat>>, ops: seq<Operation>, n: nat) {
    && |moments| == n + 1 && n <= |ops|
    && (forall j :: 0 <= j < n ==> Follows(moments[j], ops[j], moments[j + 1]))
    && forall i, j :: 0 <= i <= j <= n ==> Survive(moments[i], ops[i..j], moments[j])
  }

  lemma {:induction false} TraceSnoc(moments: seq<seq<nat>>, ops: seq<Operation>, n: nat, held: seq<nat>)
    requires Trace(moments, ops, n) && n < |ops| && Follows(moments[n], ops[n], held)
    ensures Trace(moments + [held], ops, n + 1)
  {
    hide Follows, Survive;
    var all := moments + [held];
    forall i, j | 0 <= i <= j <= n + 1 ensures Survive(all[i], ops[i..j], all[j]) {
      if j <= n {
        assert Survive(moments[i], ops[i..j], moments[j]);
      } else if i <= n {
        assert Survive(moments[i], ops[i..n], moments[n]);
        SurviveSnoc(moments[i], ops[i..n], moments[n], ops[n], held);
        assert ops[i..n + 1] == ops[i..n] + [ops[n]];
      } else {
        SurviveNothing(held);
        assert ops[i..j] == [];
      }
    }
  }

  lemma {:induction false} SurviveNothing(held: seq<nat>)
    ensures Survive(held, [], held)
  {
  }

  lemma {:induction false} TraceStart(held: seq<nat>, ops: seq<Operation>)
    ensures Trace([held], ops, 0)
  {
    SurviveNothing(held);
    assert ops[0..0] == [];
  }

  /** Any run of calls acts on the memory as on the stack of byte strings. It stops
      only where there is no room and the allocator refuses the chunk asked for. An
      object keeps its address from the moment it is handed out, before the run or in
      it, until it is freed; and it is aligned if it has any bytes. As long as the bytes
      fit, it stays in one chunk and fills it without gaps other than for alignment. */
  method Run(h: ObstackData, ops: seq<Operation>, alloc: Allocator, before: seq<nat>)
    returns (done: nat, held: seq<nat>, ghost moments: seq<seq<nat>>)
    requires h.Valid() && Honest(alloc, h.mem.Length) && Addresses(before, h.objects)
    requires h.alignment > 0 && h.objectBase <= h.nextFree <= h.mem.Length && Contents(h).AllowsAll(ops)
    modifies h, h.mem
    ensures h.Valid() && done <= |ops| && Addresses(held, h.objects) && h.objectBase <= h.nextFree <= h.mem.Length
    ensures old(Contents(h)).AllowsAll(ops[..done]) && Contents(h) == old(Contents(h)).Steps(ops[..done])
    ensures Trace(moments, ops, done) && moments[0] == before && moments[done] == held
    ensures Survive(before, ops[..done], held) && AddressesAligned(held, Contents(h).finished, h.alignment)
    ensures done < |ops| ==> ops[done].Grow? && h.alignment > 0 && h.Refused(|ops[done].data|, alloc)
    ensures FitsBelow(old(h.nextFree), ops, h.alignment, old(h.chunkLimit)) ==>
              && done == |ops| && h.chunks == old(h.chunks) && h.chunkLimit == old(h.chunkLimit)
              && h.nextFree == MovedBy(old(h.nextFree), ops, h.alignment)
  {
    hide Filled, FitsBelow, Moved, MovedBy;
    hide Fits, Honest, Kept, Contents, Addresses, AddressesAligned, Follows, Survive, Bytes, Trace,
      Stack.Steps, Stack.Step;
    ghost var start, first, chunks, limit := Contents(h), h.nextFree, h.chunks, h.chunkLimit;
    FilledNothing(first, ops, h.alignment, limit, chunks);
    done, held, moments := 0, before, [before];
    assert ops[0..] == ops && ops[..0] == [];
    StepsNone(start);
    TraceStart(before, ops);
    RunStart(h, before);
    while done < |ops|
      invariant done <= |ops| && h.Valid() && Addresses(held, h.objects) && h.objectBase <= h.nextFree <= h.mem.Length
      invariant start.AllowsAll(ops[..done]) && Contents(h) == start.Steps(ops[..done])
      invariant |moments| == done + 1 && moments[0] == before && moments[done] == held && Trace(moments, ops, done)
      invariant AddressesAligned(held, Contents(h).finished, h.alignment)
      invariant Contents(h).AllowsAll(ops[done..])
      invariant FitsBelow(first, ops, h.alignment, limit) ==>
                  Filled(first, ops, done, h.alignment, limit, chunks, h.nextFree, h.chunkLimit, h.chunks)
    {
      if FitsBelow(first, ops, h.alignment, limit) {
        FilledStep(first, ops, done, h.alignment, limit, chunks, h.nextFree, h.chunkLimit, h.chunks);
      }
      assert ops[done..][0] == ops[done] && ops[done..][1..] == ops[done + 1..];
      var ok, next := RunOne(h, ops[done], alloc, held);
      ContentsBytes(h);
      if !ok {
        NothingFollows(held, ops[done], next);
        TraceWhole(moments, ops, done);
        return;
      }
      StepsSnoc(start, ops[..done], ops[done]);
      TraceSnoc(moments, ops, done, next);
      assert ops[..done + 1] == ops[..done] + [ops[done]];
      done, held, moments := done + 1, next, moments + [next];
    }
    assert ops[..|ops|] == ops;
    TraceWhole(moments, ops, done);
    FilledAll(first, ops, h.alignment, limit, chunks, h.nextFree, h.chunkLimit, h.chunks);
  }

  lemma {:induction false} FilledNothing(p: nat, ops: seq<Operation>, a: nat, limit: nat, chunks: seq<Chunk>)
    requires a > 0
    ensures Filled(p, ops, 0, a, limit, chunks, p, limit, chunks)
  {
    assert ops[..0] == [];
  }

  lemma {:induction false} FilledAll(p: nat, ops: seq<Operation>, a: nat, limit: nat, before: seq<Chunk>, next: nat,
                                     top: nat, chunks: seq<Chunk>)
    ensures Filled(p, ops, |ops|, a, limit, before, next, top, chunks) ==>
              a > 0 && next == MovedBy(p, ops, a) && top == limit && chunks == before
  {
    assert ops[..|ops|] == ops;
  }

  lemma {:induction false} NothingFollows(before: seq<nat>, op: Operation, after: seq<nat>)
    requires Follows(before, op, after) && op.Grow?
    ensures after == before
  {
  }

  lemma {:induction false} TraceWhole(moments: seq<seq<nat>>, ops: seq<Operation>, n: nat)
    requires Trace(moments, ops, n)
    ensures |moments| == n + 1 && n <= |ops| && Survive(moments[0], ops[..n], moments[n])
  {
    assert ops[0..n] == ops[..n];
  }

  lemma {:induction false} ContentsBytes(h: ObstackData)
    requires h.objectBase <= h.nextFree <= h.mem.Length
    ensures Contents(h).finished == Bytes(h.objects)
  {
  }

  lemma {:induction false} RunStart(h: ObstackData, held: seq<nat>)
    requires h.Valid() && h.alignment > 0 && h.objectBase <= h.nextFree <= h.mem.Length && Addresses(held, h.objects)
    ensures AddressesAligned(held, Contents(h).finished, h.alignment)
  {
    hide Fits, Aligned;
    FitsAligned(h.chunks, h.alignment, h.mem.Length, h.objects, h.objectBase, h.nextFree, h.maybeEmptyObject);
  }

  lemma {:induction false} StepsNone(s: Stack)
    ensures s.AllowsAll([]) && s.Steps([]) == s
  {
  }

  lemma {:induction false} StepsSnoc(s: Stack, ops: seq<Operation>, op: Operation)
    requires s.AllowsAll(ops) && s.Steps(ops).Allows(op)
    ensures s.AllowsAll(ops + [op]) && s.Steps(ops + [op]) == s.Steps(ops).Step(op)
    decreases |ops|
  {
    var all := ops + [op];
    if ops == [] {
      assert all[1..] == [];
    } else {
      StepsSnoc(s.Step(ops[0]), ops[1..], op);
      assert all[0] == ops[0] && all[1..] == ops[1..] + [op];
    }
  }
}
