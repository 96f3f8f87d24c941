/** Every alloc and free keeps the heap invariant. */
module HeapKeeps {
  import opened Words
  import opened HeapModel
  import opened HeapTiling
  import opened HeapSteps

  // ----- which words the operations write

  /** Address of the granule that word `w` lies in. */
  function GranuleOf(base: nat, w: nat): nat {
    base + w / 4 * 16
  }

  /** Only words of the granules in `gs` may differ. */
  ghost predicate SameOutside(m: seq<u32>, m': seq<u32>, base: nat, gs: set<nat>) {
    && |m'| == |m|
    && forall w {:trigger m'[w]} :: 0 <= w < |m| && GranuleOf(base, w) !in gs ==> m'[w] == m[w]
  }

  lemma SameOutsideHeader(m: seq<u32>, m': seq<u32>, base: nat, gs: set<nat>, a: nat)
    requires SameOutside(m, m', base, gs) && At(m, base, a) && a !in gs
    ensures SameHeader(m, m', base, a)
  {
    var w := Word(base, a);
    assert GranuleOf(base, w) == GranuleOf(base, w + 1) == GranuleOf(base, w + 2) == GranuleOf(base, w + 3) == a;
    assert m'[w] == m[w] && m'[w + 1] == m[w + 1] && m'[w + 2] == m[w + 2] && m'[w + 3] == m[w + 3];
  }

  lemma WriteWord(m: seq<u32>, base: nat, a: nat, k: nat, v: u32)
    requires At(m, base, a) && k < 4
    ensures SameOutside(m, m[Word(base, a) + k := v], base, {a})
  {
    assert GranuleOf(base, Word(base, a) + k) == a;
  }

  lemma SameOutsideTrans(m0: seq<u32>, m1: seq<u32>, m2: seq<u32>, base: nat, gs: set<nat>, hs: set<nat>)
    requires SameOutside(m0, m1, base, gs) && SameOutside(m1, m2, base, hs)
    ensures SameOutside(m0, m2, base, gs + hs)
  {
    forall w {:trigger m2[w]} | 0 <= w < |m0| && GranuleOf(base, w) !in gs + hs ensures m2[w] == m0[w] {
      assert m1[w] == m0[w];
    }
  }

  lemma SetNextWrites(m: seq<u32>, base: nat, a: nat, v: u64)
    requires At(m, base, a)
    ensures var m' := SetNext(m, base, a, v);
            && SameOutside(m, m', base, {a}) && NextAt(m', base, a) == v
            && MagicAt(m', base, a) == MagicAt(m, base, a) && SizeAt(m', base, a) == SizeAt(m, base, a)
  {
    var m1 := m[Word(base, a) + 2 := v % TWO32];
    WriteWord(m, base, a, 2, v % TWO32);
    WriteWord(m1, base, a, 3, v / TWO32);
    SameOutsideTrans(m, m1, SetNext(m, base, a, v), base, {a}, {a});
    assert {a} + {a} == {a};
  }

  lemma SplitOffWrites(m: seq<u32>, base: nat, b: Block, t: nat)
    requires At(m, base, b.addr) && At(m, base, b.addr + t) && t <= b.size < TWO32
    ensures var m' := SplitOff(m, base, b, t);
            && SameOutside(m, m', base, {b.addr + t})
            && FreeHeader(m', base, b.addr + t, b.size - t, NextAt(m, base, b.addr))
  {
    var rest := b.addr + t;
    var m1 := SetMagic(m, base, rest, MAGIC_FREE);
    var m2 := SetSize(m1, base, rest, b.size - t);
    WriteWord(m, base, rest, 0, MAGIC_FREE);
    WriteWord(m1, base, rest, 1, b.size - t);
    SetNextWrites(m2, base, rest, NextAt(m, base, b.addr));
    SameOutsideTrans(m, m1, m2, base, {rest}, {rest});
    SameOutsideTrans(m, m2, SplitOff(m, base, b, t), base, {rest} + {rest}, {rest});
    assert {rest} + {rest} + {rest} == {rest};
  }

  lemma MarkUsedWrites(m: seq<u32>, base: nat, a: nat, t: u32)
    requires At(m, base, a)
    ensures var m' := MarkUsed(m, base, a, t);
            SameOutside(m, m', base, {a}) && MagicAt(m', base, a) == MAGIC_USED && SizeAt(m', base, a) == t
  {
    WriteWord(m, base, a, 0, MAGIC_USED);
    WriteWord(SetMagic(m, base, a, MAGIC_USED), base, a, 1, t);
    SameOutsideTrans(m, SetMagic(m, base, a, MAGIC_USED), MarkUsed(m, base, a, t), base, {a}, {a});
    assert {a} + {a} == {a};
  }

  lemma GrowWrites(m: seq<u32>, base: nat, a: nat, s: u32)
    requires At(m, base, a)
    ensures var m' := Grow(m, base, a, s);
            && SameOutside(m, m', base, {a}) && SizeAt(m', base, a) == (SizeAt(m, base, a) + s) % TWO32
            && MagicAt(m', base, a) == MagicAt(m, base, a) && NextAt(m', base, a) == NextAt(m, base, a)
  {
    WriteWord(m, base, a, 1, (SizeAt(m, base, a) + s) % TWO32);
  }

  lemma LinkPrevWrites(m: seq<u32>, base: nat, prev: nat, target: u64)
    requires prev != 0 ==> At(m, base, prev)
    ensures var m' := LinkPrev(m, base, prev, target);
            SameOutside(m, m', base, {prev}) && LinkChanged(m, m', base, prev, target)
  {
    if prev != 0 { SetNextWrites(m, base, prev, target); }
  }

  /** Only the header at `into` has changed: `s` bytes longer, linked to `next`. */
  ghost predicate Absorbed(m: seq<u32>, m': seq<u32>, base: nat, into: nat, s: nat, next: nat) {
    && SameOutside(m, m', base, {into})
    && At(m, base, into) && At(m', base, into)
    && SizeAt(m', base, into) == (SizeAt(m, base, into) + s) % TWO32
    && MagicAt(m', base, into) == MagicAt(m, base, into)
    && NextAt(m', base, into) == next
  }

  lemma AbsorbWrites(m: seq<u32>, base: nat, into: nat, cur: nat)
    requires At(m, base, into) && At(m, base, cur) && into != cur
    ensures Absorbed(m, Absorb(m, base, into, cur), base, into, SizeAt(m, base, cur), NextAt(m, base, cur))
  {
    var m1 := Grow(m, base, into, SizeAt(m, base, cur));
    GrowWrites(m, base, into, SizeAt(m, base, cur));
    SameOutsideHeader(m, m1, base, {into}, cur);
    SetNextWrites(m1, base, into, NextAt(m1, base, cur));
    SameOutsideTrans(m, m1, Absorb(m, base, into, cur), base, {into}, {into});
    assert {into} + {into} == {into};
  }

  // ----- allocation

  /** The granules an allocation writes: the block's, the split remainder's, the previous free block's. */
  function AllocGranules(b: Block, prev: nat, t: nat): set<nat> {
    {b.addr, if t < b.size then b.addr + t else b.addr, prev}
  }

  /** What an allocation leaves in the headers it touches. */
  ghost predicate AllocedMem(m: seq<u32>, m': seq<u32>, base: nat, b: Block, prev: nat, t: nat, target: nat) {
    && SameOutside(m, m', base, AllocGranules(b, prev, t))
    && At(m, base, b.addr) && At(m', base, b.addr)
    && MagicAt(m', base, b.addr) == MAGIC_USED && SizeAt(m', base, b.addr) == t
    && (t < b.size ==> FreeHeader(m', base, b.addr + t, b.size - t, NextAt(m, base, b.addr)))
    && LinkChanged(m, m', base, prev, target)
  }

  ghost predicate FreeHeader(m: seq<u32>, base: nat, a: nat, size: int, next: nat) {
    At(m, base, a) && MagicAt(m, base, a) == MAGIC_FREE && SizeAt(m, base, a) == size && NextAt(m, base, a) == next
  }

  /** The three stages of an allocation, each known by what it wrote. */
  lemma AllocStages(m: seq<u32>, m1: seq<u32>, m2: seq<u32>, m3: seq<u32>,
                    base: nat, b: Block, prev: nat, t: nat, target: nat)
    requires At(m, base, b.addr) && 0 < t <= b.size && prev < b.addr && (prev != 0 ==> At(m, base, prev))
    requires t == b.size ==> m1 == m
    requires t < b.size ==>
               SameOutside(m, m1, base, {b.addr + t})
               && FreeHeader(m1, base, b.addr + t, b.size - t, NextAt(m, base, b.addr))
    requires SameOutside(m1, m2, base, {prev}) && LinkChanged(m1, m2, base, prev, target)
    requires SameOutside(m2, m3, base, {b.addr})
    requires At(m3, base, b.addr) && MagicAt(m3, base, b.addr) == MAGIC_USED && SizeAt(m3, base, b.addr) == t
    ensures AllocedMem(m, m3, base, b, prev, t, target)
  {
    var rest := if t < b.size then b.addr + t else b.addr;
    assert SameOutside(m, m1, base, {rest});
    SameOutsideTrans(m, m1, m2, base, {rest}, {prev});
    SameOutsideTrans(m, m2, m3, base, {rest} + {prev}, {b.addr});
    assert {rest} + {prev} + {b.addr} == AllocGranules(b, prev, t);
    if t < b.size {
      SameOutsideHeader(m1, m2, base, {prev}, rest);
      SameOutsideHeader(m2, m3, base, {b.addr}, rest);
    }
    if prev != 0 {
      SameOutsideHeader(m, m1, base, {rest}, prev);
      SameOutsideHeader(m2, m3, base, {b.addr}, prev);
    }
  }

  lemma AllocMemWrites(m: seq<u32>, base: nat, b: Block, prev: nat, t: u32)
    requires At(m, base, b.addr) && 0 < t <= b.size < TWO32 && b.addr + t < TWO64
    requires t < b.size ==> At(m, base, b.addr + t)
    requires prev != 0 ==> At(m, base, prev)
    requires prev < b.addr
    ensures AllocedMem(m, AllocMem(m, base, b, prev, t), base, b, prev, t, AllocTarget(m, base, b, t))
  {
    var m1 := if b.size == t then m else SplitOff(m, base, b, t);
    var target := AllocTarget(m, base, b, t);
    var m2 := LinkPrev(m1, base, prev, target);
    if t < b.size { SplitOffWrites(m, base, b, t); }
    LinkPrevWrites(m1, base, prev, target);
    MarkUsedWrites(m2, base, b.addr, t);
    AllocStages(m, m1, m2, AllocMem(m, base, b, prev, t), base, b, prev, t, target);
  }

  /** The previous free block lies before block `j`. */
  lemma PrevApart(h: Heap, j: nat)
    requires Valid(h) && j < |h.blocks|
    ensures LastFree(h.blocks[..j]) < h.blocks[j].addr
  {
    PrevInHeap(h, j);
    var prev := LastFree(h.blocks[..j]);
    BlockInHeap(h, j);
    if prev != 0 {
      var p :| 0 <= p < j && !h.blocks[p].used && h.blocks[p].addr == prev;
      TilesOrder(h.blocks, h.base, h.base + h.size, p, j);
      BlockInHeap(h, p);
    }
  }

  /** A block other than `j` lies outside block `j`, whose granules an operation on `j` may write. */
  lemma OtherApart(h: Heap, j: nat, i: nat)
    requires Valid(h) && j < |h.blocks| && i < |h.blocks| && i != j
    ensures h.blocks[i].addr < h.blocks[j].addr || h.blocks[i].addr >= h.blocks[j].End()
    ensures h.blocks[i].End() <= h.blocks[j].addr || h.blocks[i].addr >= h.blocks[j].End()
  {
    if i < j { TilesOrder(h.blocks, h.base, h.base + h.size, i, j); BlockInHeap(h, i); }
    else { TilesOrder(h.blocks, h.base, h.base + h.size, j, i); }
  }

  /** An allocation leaves every other header alone, except the link of the previous free block. */
  lemma AllocOther(h: Heap, j: nat, t: nat, i: nat)
    requires Valid(h) && j < |h.blocks| && !h.blocks[j].used
    requires 32 <= t <= h.blocks[j].size && t % 16 == 0
    requires i < |h.blocks| && i != j && h.blocks[i].addr != LastFree(h.blocks[..j])
    ensures SameHeader(h.mem, AllocAt(h, j, t).mem, h.base, h.blocks[i].addr)
  {
    var gs := AllocGranules(h.blocks[j], LastFree(h.blocks[..j]), t);
    AllocOutside(h, j, t);
    assert h.blocks[i].addr !in gs by {
      OtherApart(h, j, i);
    }
    BlockInHeap(h, i);
    SameOutsideHeader(h.mem, AllocAt(h, j, t).mem, h.base, gs, h.blocks[i].addr);
  }

  lemma AllocOutside(h: Heap, j: nat, t: nat)
    requires Valid(h) && j < |h.blocks| && !h.blocks[j].used
    requires 32 <= t <= h.blocks[j].size && t % 16 == 0
    ensures SameOutside(h.mem, AllocAt(h, j, t).mem, h.base, AllocGranules(h.blocks[j], LastFree(h.blocks[..j]), t))
  {
    AllocInHeap(h, j, t); PrevInHeap(h, j); PrevApart(h, j);
    AllocMemWrites(h.mem, h.base, h.blocks[j], LastFree(h.blocks[..j]), t);
  }

  lemma AllocFirst(m: seq<u32>, base: nat, b: Block, t: u32, C: seq<Block>)
    requires At(m, base, b.addr) && 0 < t <= b.size && b.addr + t < TWO64 && NextAt(m, base, b.addr) == FirstFree(C)
    ensures FirstFree(AllocMid(b, t) + C) == AllocTarget(m, base, b, t)
  {
    var N := AllocMid(b, t);
    if t < b.size {
      assert (N + C)[1..] == [N[1]] + C;
    } else {
      assert (N + C)[1..] == C;
    }
  }

  /** The headers of the blocks an allocation makes. */
  lemma AllocNew(m': seq<u32>, base: nat, b: Block, t: u32, C: seq<Block>)
    requires 0 < t <= b.size < TWO32 && At(m', base, b.addr)
    requires MagicAt(m', base, b.addr) == MAGIC_USED && SizeAt(m', base, b.addr) == t
    requires t < b.size ==> FreeHeader(m', base, b.addr + t, b.size - t, FirstFree(C))
    ensures NewOk(m', base, AllocMid(b, t), C)
  {
    var N := AllocMid(b, t);
    if t < b.size {
      assert (N + C)[2..] == C;
      assert HeaderOk(m', base, N + C, 1);
    }
    assert HeaderOk(m', base, N + C, 0);
  }

  lemma AllocMemLinks(m: seq<u32>, base: nat, b: Block, prev: nat, t: u32, C: seq<Block>)
    requires At(m, base, b.addr) && 0 < t <= b.size < TWO32 && b.addr + t < TWO64
    requires t < b.size ==> At(m, base, b.addr + t)
    requires prev != 0 ==> At(m, base, prev)
    requires prev < b.addr && NextAt(m, base, b.addr) == FirstFree(C)
    ensures var N := AllocMid(b, t); var m' := AllocMem(m, base, b, prev, t);
            && FirstFree(N + C) == AllocTarget(m, base, b, t)
            && NewOk(m', base, N, C)
            && LinkChanged(m, m', base, prev, FirstFree(N + C))
  {
    AllocMemWrites(m, base, b, prev, t);
    AllocFirst(m, base, b, t, C);
    AllocNew(AllocMem(m, base, b, prev, t), base, b, t, C);
  }

  lemma AllocKept(h: Heap, j: nat, t: nat)
    requires Valid(h) && j < |h.blocks| && !h.blocks[j].used
    requires 32 <= t <= h.blocks[j].size && t % 16 == 0
    ensures var m' := AllocAt(h, j, t).mem; var A, C := h.blocks[..j], h.blocks[j + 1..];
            KeptBut(h.mem, m', h.base, A, LastFree(A)) && KeptBut(h.mem, m', h.base, C, 0)
  {
    var A, C := h.blocks[..j], h.blocks[j + 1..];
    var m' := AllocAt(h, j, t).mem;
    forall i | 0 <= i < |A| ensures A[i].addr == LastFree(A) || SameHeader(h.mem, m', h.base, A[i].addr) {
      if A[i].addr != LastFree(A) { AllocOther(h, j, t, i); }
    }
    forall i | 0 <= i < |C| ensures SameHeader(h.mem, m', h.base, C[i].addr) {
      AfterPrev(h, j, j + 1 + i);
      AllocOther(h, j, t, j + 1 + i);
    }
  }

  lemma AllocMiddle(h: Heap, j: nat, t: nat)
    requires Valid(h) && j < |h.blocks| && !h.blocks[j].used
    requires 32 <= t <= h.blocks[j].size && t % 16 == 0
    ensures var h' := AllocAt(h, j, t); var bs := h.blocks;
            var prev := LastFree(bs[..j]); var N := AllocMid(bs[j], t);
            && LinkChanged(h.mem, h'.mem, h.base, prev, FirstFree(N + bs[j + 1..]))
            && NewOk(h'.mem, h.base, N, bs[j + 1..])
            && h'.freeList == if prev != 0 then h.freeList else FirstFree(N + bs[j + 1..])
  {
    var bs := h.blocks;
    var prev := LastFree(bs[..j]);
    AllocInHeap(h, j, t); PrevInHeap(h, j); PrevApart(h, j);
    assert HeaderOk(h.mem, h.base, bs, j);
    AllocMemLinks(h.mem, h.base, bs[j], prev, t, bs[j + 1..]);
  }

  lemma AllocRelinks(h: Heap, j: nat, t: nat)
    requires Valid(h) && j < |h.blocks| && !h.blocks[j].used
    requires 32 <= t <= h.blocks[j].size && t % 16 == 0
    ensures var h' := AllocAt(h, j, t); var bs := h.blocks;
            Relinked(h, bs[..j], [bs[j]], AllocMid(bs[j], t), bs[j + 1..], h'.mem, h'.freeList)
  {
    AllocKept(h, j, t);
    AllocMiddle(h, j, t);
    assert h.blocks == h.blocks[..j] + [h.blocks[j]] + h.blocks[j + 1..];
  }

  lemma AfterPrev(h: Heap, j: nat, i: nat)
    requires Valid(h) && j < i < |h.blocks|
    ensures LastFree(h.blocks[..j]) < h.blocks[i].addr
  {
    PrevApart(h, j);
    TilesOrder(h.blocks, h.base, h.base + h.size, j, i);
  }

  /** The free sum when `mid` takes the place of the blocks from `l` to `r`. */
  lemma SpliceSum(bs: seq<Block>, l: nat, r: nat, mid: seq<Block>)
    requires l <= r <= |bs|
    ensures FreeSum(bs[..l] + mid + bs[r..]) == FreeSum(bs) - FreeSum(bs[l..r]) + FreeSum(mid)
  {
    var p, m, q := bs[..l], bs[l..r], bs[r..];
    assert bs == p + m + q;
    SumsSplit(p + m, q);
    SumsSplit(p, m);
    SumsSplit(p + mid, q);
    SumsSplit(p, mid);
  }

  /** The tiling when `mid`, which covers them, takes the place of the blocks from `l` to `r`. */
  lemma SpliceTiles(bs: seq<Block>, l: nat, r: nat, mid: seq<Block>, a: nat, e: nat)
    requires Tiles(bs, a, e) && l < r <= |bs| && Tiles(mid, bs[l].addr, bs[r - 1].End())
    ensures Tiles(bs[..l] + mid + bs[r..], a, e)
  {
    assert bs == bs[..l] + bs[l..];
    TilesSplit(bs[..l], bs[l..], a, e);
    assert bs == bs[..r] + bs[r..];
    TilesSplit(bs[..r], bs[r..], a, e);
    TilesJoin(bs[..l], mid, a, bs[l].addr, bs[r - 1].End());
    TilesJoin(bs[..l] + mid, bs[r..], a, bs[r - 1].End(), e);
  }

  lemma AllocSums(bs: seq<Block>, j: nat, t: nat)
    requires j < |bs| && !bs[j].used && t <= bs[j].size
    ensures FreeSum(AllocBlocks(bs, j, t)) == FreeSum(bs) - t
  {
    var n := AllocMid(bs[j], t);
    assert bs[j..j + 1] == [bs[j]] && AllocBlocks(bs, j, t) == bs[..j] + n + bs[j + 1..];
    SpliceSum(bs, j, j + 1, n);
    if t < bs[j].size { assert n == [n[0]] + [n[1]]; SumsSplit([n[0]], [n[1]]); }
  }

  lemma AllocTiles(h: Heap, j: nat, t: nat)
    requires Valid(h) && j < |h.blocks| && !h.blocks[j].used
    requires 32 <= t <= h.blocks[j].size && t % 16 == 0
    ensures var bs' := AllocBlocks(h.blocks, j, t);
            Tiles(bs', h.base, h.base + h.size) && FreeSum(bs') == FreeSum(h.blocks) - t
  {
    var bs := h.blocks;
    var n := AllocMid(bs[j], t);
    AllocSums(bs, j, t);
    TilesSize(bs, h.base, h.base + h.size, j);
    MidTiles(bs[j], t);
    SpliceTiles(bs, j, j + 1, n, h.base, h.base + h.size);
  }

  /** The blocks that an allocation makes of `b` fill it. */
  lemma MidTiles(b: Block, t: nat)
    requires 32 <= t <= b.size && t % 16 == 0 && b.size % 16 == 0
    ensures Tiles(AllocMid(b, t), b.addr, b.End())
  {
    var n := AllocMid(b, t);
    if t < b.size {
      GranuleLess(b.size, t);
      var last := n[1..];
      assert last == [n[1]] && last[1..] == [];
      assert Tiles(last, n[0].End(), b.End());
    } else {
      assert n[1..] == [];
    }
  }

  lemma GranuleLess(x: nat, y: nat)
    requires y <= x && x % 16 == 0 && y % 16 == 0
    ensures (x - y) % 16 == 0
  {
  }

  lemma AllocCoalesced(bs: seq<Block>, j: nat, t: nat)
    requires Coalesced(bs) && j < |bs| && !bs[j].used && t <= bs[j].size
    ensures Coalesced(AllocBlocks(bs, j, t))
  {
    var bs' := AllocBlocks(bs, j, t);
    var d := |AllocMid(bs[j], t)| - 1;
    forall i | 0 <= i < |bs'| - 1 ensures bs'[i].used || bs'[i + 1].used {
      if i + 1 < j {
        assert bs[i].used || bs[i + 1].used;
      } else if i > j + d {
        assert bs[i - d].used || bs[i - d + 1].used;
      } else if i == j + d {
        assert bs[j].used || bs[j + 1].used;
      }
    }
  }

  /** An allocation keeps the heap valid. */
  lemma AllocKeeps(h: Heap, j: nat, t: nat)
    requires Valid(h) && j < |h.blocks| && !h.blocks[j].used
    requires 32 <= t <= h.blocks[j].size && t % 16 == 0
    ensures Valid(AllocAt(h, j, t))
  {
    AllocHeaders(h, j, t);
    AllocTiles(h, j, t);
    AllocCoalesced(h.blocks, j, t);
    SumAt(h.blocks, j);
  }

  lemma AllocHeaders(h: Heap, j: nat, t: nat)
    requires Valid(h) && j < |h.blocks| && !h.blocks[j].used
    requires 32 <= t <= h.blocks[j].size && t % 16 == 0
    ensures var h' := AllocAt(h, j, t);
            HeadersOk(h'.mem, h.base, h'.blocks) && h'.freeList == FirstFree(h'.blocks)
  {
    var bs := h.blocks;
    var h' := AllocAt(h, j, t);
    AllocRelinks(h, j, t);
    Relink(h, bs[..j], [bs[j]], AllocMid(bs[j], t), bs[j + 1..], h'.mem, h'.freeList);
  }

  // ----- freeing

  predicate Joins(m: seq<u32>, base: nat, b: Block, prev: nat)
    requires prev != 0 ==> At(m, base, prev)
  {
    prev != 0 && prev + SizeAt(m, base, prev) == b.addr
  }

  /** What freeing leaves: the header of the merged block `into`, a free magic in `b`, and the link to it. */
  ghost predicate FreedMem(m: seq<u32>, m': seq<u32>, base: nat, b: Block, prev: nat, into: nat, size: nat, next: nat) {
    && SameOutside(m, m', base, {b.addr, prev})
    && At(m', base, b.addr) && At(m', base, into)
    && MagicAt(m', base, b.addr) == MAGIC_FREE
    && (into == b.addr || (into == prev && At(m, base, prev) && MagicAt(m', base, into) == MagicAt(m, base, prev)))
    && SizeAt(m', base, into) == size
    && NextAt(m', base, into) == next
    && (into != prev ==> LinkChanged(m, m', base, prev, b.addr))
  }

  /** What linking block `b` leaves, before any merge with the block after it. */
  lemma FreeLinkWrites(m: seq<u32>, base: nat, b: Block, prev: nat, cur: u64)
    requires At(m, base, b.addr) && b.size < TWO32 && b.addr < TWO64
    requires prev < b.addr && (prev != 0 ==> At(m, base, prev))
    requires Joins(m, base, b, prev) ==> SizeAt(m, base, prev) + b.size < TWO32
    ensures var joins := Joins(m, base, b, prev);
            && FreeInto(m, base, b, prev) == (if joins then prev else b.addr)
            && FreedMem(m, FreeLinkMem(m, base, b, prev, cur), base, b, prev, if joins then prev else b.addr,
                        if joins then SizeAt(m, base, prev) + b.size else b.size,
                        if joins then NextAt(m, base, prev) else cur)
  {
    var m1 := SetMagic(m, base, b.addr, MAGIC_FREE);
    WriteWord(m, base, b.addr, 0, MAGIC_FREE);
    if prev != 0 { SameOutsideHeader(m, m1, base, {b.addr}, prev); }
    if Joins(m, base, b, prev) {
      GrowWrites(m1, base, prev, b.size);
      SameOutsideTrans(m, m1, Grow(m1, base, prev, b.size), base, {b.addr}, {prev});
      assert {b.addr} + {prev} == {b.addr, prev};
      SameOutsideHeader(m1, Grow(m1, base, prev, b.size), base, {prev}, b.addr);
    } else {
      FreshLinkWrites(m, m1, base, b, prev, cur);
    }
  }

  lemma FreshLinkWrites(m: seq<u32>, m1: seq<u32>, base: nat, b: Block, prev: nat, cur: u64)
    requires At(m, base, b.addr) && b.size < TWO32 && b.addr < TWO64
    requires prev < b.addr && (prev != 0 ==> At(m, base, prev))
    requires SameOutside(m, m1, base, {b.addr}) && MagicAt(m1, base, b.addr) == MAGIC_FREE
    ensures var m' := LinkPrev(SetNext(SetSize(m1, base, b.addr, b.size), base, b.addr, cur), base, prev, b.addr);
            && SameOutside(m, m', base, {b.addr, prev})
            && MagicAt(m', base, b.addr) == MAGIC_FREE && SizeAt(m', base, b.addr) == b.size
            && NextAt(m', base, b.addr) == cur && LinkChanged(m, m', base, prev, b.addr)
  {
    var m2 := SetSize(m1, base, b.addr, b.size);
    var m3 := SetNext(m2, base, b.addr, cur);
    var m4 := LinkPrev(m3, base, prev, b.addr);
    WriteWord(m1, base, b.addr, 1, b.size);
    SetNextWrites(m2, base, b.addr, cur);
    LinkPrevWrites(m3, base, prev, b.addr);
    SameOutsideTrans(m, m1, m2, base, {b.addr}, {b.addr});
    SameOutsideTrans(m, m2, m3, base, {b.addr} + {b.addr}, {b.addr});
    SameOutsideTrans(m, m3, m4, base, {b.addr} + {b.addr} + {b.addr}, {prev});
    assert {b.addr} + {b.addr} + {b.addr} + {prev} == {b.addr, prev};
    SameOutsideHeader(m3, m4, base, {prev}, b.addr);
    if prev != 0 { 
      assert {b.addr} + {b.addr} + {b.addr} == {b.addr};
      SameOutsideHeader(m, m3, base, {b.addr}, prev);
    }
  }

  /** Size of the block that freeing `b` leaves, as the headers give it. */
  function FreedSize(m: seq<u32>, base: nat, b: Block, prev: nat, cur: nat): nat
    requires prev != 0 ==> At(m, base, prev)
    requires cur != 0 ==> At(m, base, cur)
  {
    (if Joins(m, base, b, prev) then SizeAt(m, base, prev) else 0) + b.size
    + (if cur != 0 && b.End() == cur then SizeAt(m, base, cur) else 0)
  }

  /** Link of the block that freeing `b` leaves, as the headers give it. */
  function FreedNext(m: seq<u32>, base: nat, b: Block, prev: nat, cur: nat): nat
    requires prev != 0 ==> At(m, base, prev)
    requires cur != 0 ==> At(m, base, cur)
  {
    if cur != 0 && b.End() == cur then NextAt(m, base, cur)
    else if Joins(m, base, b, prev) then NextAt(m, base, prev)
    else cur
  }

  /** The link of `prev` survives the growth of another block. */
  lemma LinkKept(m: seq<u32>, m1: seq<u32>, m': seq<u32>, base: nat, prev: nat, target: nat)
    requires LinkChanged(m, m1, base, prev, target)
    requires prev != 0 ==> SameHeader(m1, m', base, prev)
    ensures LinkChanged(m, m', base, prev, target)
  {
  }

  lemma FreeAbsorbs(m: seq<u32>, m1: seq<u32>, m': seq<u32>, base: nat, b: Block, prev: nat, into: nat,
                    size: nat, next: nat, s: nat, next': nat)
    requires At(m1, base, b.addr) && (prev != 0 ==> At(m1, base, prev))
    requires prev < b.addr && size + s < TWO32 && into != 0
    requires FreedMem(m, m1, base, b, prev, into, size, next)
    requires Absorbed(m1, m', base, into, s, next')
    ensures FreedMem(m, m', base, b, prev, into, size + s, next')
  {
    SameOutsideTrans(m, m1, m', base, {b.addr, prev}, {into});
    assert {b.addr, prev} + {into} == {b.addr, prev};
    if into != prev {
      if prev != 0 { SameOutsideHeader(m1, m', base, {into}, prev); }
      LinkKept(m, m1, m', base, prev, b.addr);
    } else {
      SameOutsideHeader(m1, m', base, {into}, b.addr);
    }
  }

  lemma FreeMemWrites(m: seq<u32>, base: nat, b: Block, prev: nat, cur: u64)
    requires At(m, base, b.addr) && b.size < TWO32 && b.addr < TWO64
    requires prev < b.addr && (prev != 0 ==> At(m, base, prev))
    requires cur != 0 ==> At(m, base, cur) && b.addr < cur
    requires FreedSize(m, base, b, prev, cur) < TWO32
    ensures FreedMem(m, FreeMem(m, base, b, prev, cur), base, b, prev,
                     if Joins(m, base, b, prev) then prev else b.addr,
                     FreedSize(m, base, b, prev, cur), FreedNext(m, base, b, prev, cur))
  {
    FreeLinkWrites(m, base, b, prev, cur);
    if cur != 0 && b.End() == cur {
      var m1 := FreeLinkMem(m, base, b, prev, cur);
      var into := FreeInto(m, base, b, prev);
      SameOutsideHeader(m, m1, base, {b.addr, prev}, cur);
      AbsorbWrites(m1, base, into, cur);
      FreeAbsorbs(m, m1, FreeMem(m, base, b, prev, cur), base, b, prev, into,
                  FreedSize(m, base, b, prev, cur) - SizeAt(m, base, cur),
                  if Joins(m, base, b, prev) then NextAt(m, base, prev) else cur,
                  SizeAt(m, base, cur), NextAt(m, base, cur));
    }
  }

  // ----- which blocks a free touches

  lemma {:induction false} FirstFreeSkip(bs: seq<Block>, k: nat)
    requires k < |bs| && !bs[k].used && forall i :: 0 <= i < k ==> bs[i].used
    ensures FirstFree(bs) == bs[k].addr
  {
    if k > 0 {
      assert bs[1..][k - 1] == bs[k];
      FirstFreeSkip(bs[1..], k - 1);
    }
  }

  lemma LastFreeSkip(bs: seq<Block>)
    requires bs != [] && !bs[|bs| - 1].used
    ensures LastFree(bs) == bs[|bs| - 1].addr
  {
  }

  /** The address test of `miniheap_free` finds out whether the block before `j` is free. */
  lemma JoinsPrev(h: Heap, j: nat)
    requires Valid(h) && j < |h.blocks| && h.blocks[j].used
    ensures var prev := LastFree(h.blocks[..j]);
            && (prev != 0 ==> At(h.mem, h.base, prev))
            && (Joins(h.mem, h.base, h.blocks[j], prev) <==> j > 0 && !h.blocks[j - 1].used)
            && (j > 0 && !h.blocks[j - 1].used ==> prev == h.blocks[j - 1].addr)
  {
    var bs := h.blocks;
    var A := bs[..j];
    var prev := LastFree(A);
    PrevInHeap(h, j);
    assert bs == A + bs[j..];
    TilesSplit(A, bs[j..], h.base, h.base + h.size);
    if prev != 0 {
      var p :| 0 <= p < j && !bs[p].used && bs[p].addr == prev;
      BlockInHeap(h, p);
      LastFreeTouches(A, h.base, bs[j].addr, p);
    } else {
      LastFreeNone(A, h.base, bs[j].addr);
      assert j > 0 ==> A[j - 1] == bs[j - 1];
    }
  }

  /** The address test of `miniheap_free` finds out whether the block after `j` is free. */
  lemma JoinsNext(h: Heap, j: nat)
    requires Valid(h) && j < |h.blocks| && h.blocks[j].used
    ensures var cur := FirstFree(h.blocks[j + 1..]);
            && (cur != 0 ==> At(h.mem, h.base, cur) && h.blocks[j].addr < cur < TWO64)
            && (cur != 0 && h.blocks[j].End() == cur <==> j + 1 < |h.blocks| && !h.blocks[j + 1].used)
  {
    var bs := h.blocks;
    var C := bs[j + 1..];
    CurInHeap(h, j); BlockInHeap(h, j);
    if FirstFree(C) != 0 {
      var p :| j < p < |bs| && !bs[p].used && bs[p].addr == FirstFree(C);
      BlockInHeap(h, p);
      TilesOrder(bs, h.base, h.base + h.size, j, p);
      if j + 1 < p && !bs[j + 1].used {
        TilesOrder(bs, h.base, h.base + h.size, j + 1, p);
      }
    } else if j + 1 < |bs| && !bs[j + 1].used {
      BlockInHeap(h, j + 1);
    }
  }

  // ----- the invariant after a free

  /** A free leaves every header but those of `prev` and the freed block alone. */
  lemma FreeOther(h: Heap, j: nat, i: nat)
    requires Valid(h) && j < |h.blocks| && h.blocks[j].used
    requires i < |h.blocks| && i != j && h.blocks[i].addr != LastFree(h.blocks[..j])
    ensures SameHeader(h.mem, FreeAt(h, j).mem, h.base, h.blocks[i].addr)
  {
    FreeWrites(h, j);
    OtherApart(h, j, i); BlockInHeap(h, i); BlockInHeap(h, j);
    SameOutsideHeader(h.mem, FreeAt(h, j).mem, h.base, {h.blocks[j].addr, LastFree(h.blocks[..j])}, h.blocks[i].addr);
  }

  /** The header of the merged block, in terms of the tiling. */
  lemma FreeWrites(h: Heap, j: nat)
    requires Valid(h) && j < |h.blocks| && h.blocks[j].used
    ensures var bs := h.blocks; var m' := FreeAt(h, j).mem; var g := Merged(bs, j);
            && SameOutside(h.mem, m', h.base, {bs[j].addr, LastFree(bs[..j])})
            && At(m', h.base, g.addr) && At(m', h.base, bs[j].addr)
            && MagicAt(m', h.base, bs[j].addr) == MAGIC_FREE
            && MagicAt(m', h.base, g.addr) == MAGIC_FREE
            && SizeAt(m', h.base, g.addr) == g.size
            && NextAt(m', h.base, g.addr) == FirstFree(bs[MergeTo(bs, j)..])
            && (MergeFrom(bs, j) == j ==> LinkChanged(h.mem, m', h.base, LastFree(bs[..j]), g.addr))
  {
    var bs := h.blocks;
    var prev := LastFree(bs[..j]);
    JoinsPrev(h, j); JoinsNext(h, j); PrevApart(h, j); BlockInHeap(h, j);
    FreedHeader(h, j);
    FreeMemWrites(h.mem, h.base, bs[j], prev, FirstFree(bs[j + 1..]));
  }

  /** The headers of the neighbours that the block merges with. */
  lemma PrevHeader(h: Heap, j: nat)
    requires Valid(h) && j < |h.blocks| && h.blocks[j].used && MergeFrom(h.blocks, j) < j
    ensures var bs := h.blocks; var prev := LastFree(bs[..j]);
            && At(h.mem, h.base, prev) && Joins(h.mem, h.base, bs[j], prev)
            && SizeAt(h.mem, h.base, prev) == bs[j - 1].size && MagicAt(h.mem, h.base, prev) == MAGIC_FREE
            && NextAt(h.mem, h.base, prev) == FirstFree(bs[j + 1..])
  {
    JoinsPrev(h, j);
    BlockInHeap(h, j - 1);
    assert h.blocks[j..][1..] == h.blocks[j + 1..];
  }

  lemma NextHeader(h: Heap, j: nat)
    requires Valid(h) && j < |h.blocks| && h.blocks[j].used && MergeTo(h.blocks, j) > j + 1
    ensures var bs := h.blocks; var cur := FirstFree(bs[j + 1..]);
            && cur != 0 && cur == bs[j].End() && At(h.mem, h.base, cur) && SizeAt(h.mem, h.base, cur) == bs[j + 1].size
            && NextAt(h.mem, h.base, cur) == FirstFree(bs[j + 2..])
  {
    JoinsNext(h, j);
    BlockInHeap(h, j + 1);
  }

  lemma MergedFits(h: Heap, j: nat)
    requires Valid(h) && j < |h.blocks|
    ensures Merged(h.blocks, j).size < TWO32
  {
    var bs, l, r := h.blocks, MergeFrom(h.blocks, j), MergeTo(h.blocks, j);
    BlockInHeap(h, l);
    BlockInHeap(h, r - 1);
    if l < j { TilesOrder(bs, h.base, h.base + h.size, l, j); }
    if j < r - 1 { TilesOrder(bs, h.base, h.base + h.size, j, r - 1); }
  }

  lemma FreedHeader(h: Heap, j: nat)
    requires Valid(h) && j < |h.blocks| && h.blocks[j].used
    requires var prev := LastFree(h.blocks[..j]); prev != 0 ==> At(h.mem, h.base, prev)
    requires var cur := FirstFree(h.blocks[j + 1..]); cur != 0 ==> At(h.mem, h.base, cur)
    ensures var bs := h.blocks; var prev := LastFree(bs[..j]); var cur := FirstFree(bs[j + 1..]);
            && FreedSize(h.mem, h.base, bs[j], prev, cur) == Merged(bs, j).size < TWO32
            && FreedNext(h.mem, h.base, bs[j], prev, cur) == FirstFree(bs[MergeTo(bs, j)..])
            && (MergeFrom(bs, j) < j ==> prev != 0 && MagicAt(h.mem, h.base, prev) == MAGIC_FREE)
  {
    JoinsPrev(h, j);
    JoinsNext(h, j);
    MergedFits(h, j);
    if MergeFrom(h.blocks, j) < j { PrevHeader(h, j); }
    if MergeTo(h.blocks, j) > j + 1 { NextHeader(h, j); }
  }

  lemma PrevFreeApart(h: Heap, i: nat, k: nat)
    requires Valid(h) && i < k < |h.blocks|
    ensures h.blocks[i].addr < h.blocks[k].addr
  {
    TilesOrder(h.blocks, h.base, h.base + h.size, i, k);
    TilesRange(h.blocks, h.base, h.base + h.size, i);
  }

  lemma FreeKeptFront(h: Heap, j: nat)
    requires Valid(h) && j < |h.blocks| && h.blocks[j].used
    ensures var A := h.blocks[..MergeFrom(h.blocks, j)];
            KeptBut(h.mem, FreeAt(h, j).mem, h.base, A, LastFree(A))
  {
    var bs := h.blocks;
    var m' := FreeAt(h, j).mem;
    var l := MergeFrom(bs, j);
    var A := bs[..l];
    JoinsPrev(h, j);
    forall i | 0 <= i < |A| ensures A[i].addr == LastFree(A) || SameHeader(h.mem, m', h.base, A[i].addr) {
      if A[i].addr != LastFree(A) {
        if l < j { PrevFreeApart(h, i, j - 1); }
        FreeOther(h, j, i);
      }
    }
  }

  lemma FreeKeptBack(h: Heap, j: nat)
    requires Valid(h) && j < |h.blocks| && h.blocks[j].used
    ensures KeptBut(h.mem, FreeAt(h, j).mem, h.base, h.blocks[MergeTo(h.blocks, j)..], 0)
  {
    var r := MergeTo(h.blocks, j);
    var C := h.blocks[r..];
    forall i | 0 <= i < |C| ensures SameHeader(h.mem, FreeAt(h, j).mem, h.base, C[i].addr) {
      AfterPrev(h, j, r + i);
      FreeOther(h, j, r + i);
    }
  }

  /** Before a free block, the previous free one links to it. */
  lemma PrevLinks(h: Heap, k: nat)
    requires Valid(h) && k < |h.blocks| && !h.blocks[k].used
    ensures var prev := LastFree(h.blocks[..k]);
            if prev != 0 then At(h.mem, h.base, prev) && NextAt(h.mem, h.base, prev) == h.blocks[k].addr
            else h.freeList == h.blocks[k].addr
  {
    var bs := h.blocks;
    var A := bs[..k];
    assert bs == A + bs[k..];
    TilesSplit(A, bs[k..], h.base, h.base + h.size);
    PrevInHeap(h, k);
    if LastFree(A) != 0 {
      var p := LastFreeIndex(A, h.base, bs[k].addr);
      assert HeaderOk(h.mem, h.base, bs, p);
      var rest := bs[p + 1..];
      forall i | 0 <= i < k - p - 1 ensures rest[i].used {
        assert A[p + 1 + i] == rest[i];
      }
      FirstFreeSkip(rest, k - p - 1);
    } else {
      LastFreeNone(A, h.base, bs[k].addr);
      forall i | 0 <= i < k ensures bs[i].used {
        assert A[i] == bs[i];
      }
      FirstFreeSkip(bs, k);
    }
  }

  lemma FreeMiddle(h: Heap, j: nat)
    requires Valid(h) && j < |h.blocks| && h.blocks[j].used
    ensures var h' := FreeAt(h, j); var bs := h.blocks; var g := Merged(bs, j);
            var prev := LastFree(bs[..MergeFrom(bs, j)]); var C := bs[MergeTo(bs, j)..];
            && LinkChanged(h.mem, h'.mem, h.base, prev, g.addr)
            && NewOk(h'.mem, h.base, [g], C)
            && h'.freeList == if prev != 0 then h.freeList else g.addr
  {
    var bs := h.blocks;
    var l := MergeFrom(bs, j);
    var C := bs[MergeTo(bs, j)..];
    FreeWrites(h, j);
    assert ([Merged(bs, j)] + C)[1..] == C;
    if l < j {
      PrevLinks(h, l);
      JoinsPrev(h, j);
      FreePrevKept(h, j);
    }
  }

  /** When the block before `j` is free, the link to it is not written. */
  lemma FreePrevKept(h: Heap, j: nat)
    requires Valid(h) && j < |h.blocks| && h.blocks[j].used && MergeFrom(h.blocks, j) < j
    ensures var prev := LastFree(h.blocks[..j - 1]);
            prev != 0 ==> SameHeader(h.mem, FreeAt(h, j).mem, h.base, prev)
  {
    PrevInHeap(h, j - 1);
    JoinsPrev(h, j);
    var prev := LastFree(h.blocks[..j - 1]);
    if prev != 0 {
      var p :| 0 <= p < j - 1 && !h.blocks[p].used && h.blocks[p].addr == prev;
      PrevApart(h, j - 1);
      FreeOther(h, j, p);
    }
  }

  lemma FreeRelinks(h: Heap, j: nat)
    requires Valid(h) && j < |h.blocks| && h.blocks[j].used
    ensures var h' := FreeAt(h, j); var bs := h.blocks;
            var l, r := MergeFrom(bs, j), MergeTo(bs, j);
            Relinked(h, bs[..l], bs[l..r], [Merged(bs, j)], bs[r..], h'.mem, h'.freeList)
  {
    var bs := h.blocks;
    var l, r := MergeFrom(bs, j), MergeTo(bs, j);
    var h' := FreeAt(h, j);
    FreeKeptFront(h, j); FreeKeptBack(h, j);
    FreeMiddle(h, j);
    RelinkedOne(h, bs[..l], bs[l..r], Merged(bs, j), bs[r..], h'.mem, h'.freeList);
  }

  lemma RelinkedOne(h: Heap, A: seq<Block>, O: seq<Block>, g: Block, C: seq<Block>, m': seq<u32>, freeList': nat)
    requires h.blocks == A + O + C && !g.used
    requires KeptBut(h.mem, m', h.base, A, LastFree(A)) && KeptBut(h.mem, m', h.base, C, 0)
    requires LinkChanged(h.mem, m', h.base, LastFree(A), g.addr) && NewOk(m', h.base, [g], C)
    requires freeList' == if LastFree(A) != 0 then h.freeList else g.addr
    ensures Relinked(h, A, O, [g], C, m', freeList')
  {
    assert ([g] + C)[0] == g;
  }

  lemma MergedSpan(bs: seq<Block>, j: nat, a: nat, e: nat)
    requires Tiles(bs, a, e) && j < |bs| && bs[j].used
    ensures var l, r := MergeFrom(bs, j), MergeTo(bs, j); var g := Merged(bs, j);
            g.addr == bs[l].addr && g.End() == bs[r - 1].End()
  {
    var l, r := MergeFrom(bs, j), MergeTo(bs, j);
    if l < j { TilesOrder(bs, a, e, l, j); }
    if r > j + 1 { TilesOrder(bs, a, e, j, j + 1); }
  }

  lemma MergedSize(bs: seq<Block>, j: nat, a: nat, e: nat)
    requires Tiles(bs, a, e) && j < |bs| && bs[j].used
    ensures Merged(bs, j).size > 0 && Merged(bs, j).size % 16 == 0
  {
    var l, r := MergeFrom(bs, j), MergeTo(bs, j);
    TilesSize(bs, a, e, j);
    TilesSize(bs, a, e, l);
    TilesSize(bs, a, e, r - 1);
    var x, y := if l < j then bs[l].size else 0, if r > j + 1 then bs[j + 1].size else 0;
    assert x % 16 == 0 && y % 16 == 0 && Merged(bs, j).size == x + bs[j].size + y;
  }

  lemma MergedSum(bs: seq<Block>, j: nat)
    requires j < |bs| && bs[j].used
    ensures FreeSum(bs[MergeFrom(bs, j)..MergeTo(bs, j)]) == Merged(bs, j).size - bs[j].size
  {
    var l, r := MergeFrom(bs, j), MergeTo(bs, j);
    var left := if l < j then [bs[l]] else [];
    var right := if r > j + 1 then [bs[j + 1]] else [];
    assert bs[l..r] == left + ([bs[j]] + right);
    SumsSplit(left, [bs[j]] + right); SumsSplit([bs[j]], right);
  }

  lemma FreeTiles(h: Heap, j: nat)
    requires Valid(h) && j < |h.blocks| && h.blocks[j].used
    ensures var bs' := FreeBlocks(h.blocks, j);
            && Tiles(bs', h.base, h.base + h.size)
            && FreeSum(bs') == FreeSum(h.blocks) + h.blocks[j].size
  {
    var bs := h.blocks;
    var g := Merged(bs, j);
    FreeSums(bs, j);
    MergedSpan(bs, j, h.base, h.base + h.size);
    MergedSize(bs, j, h.base, h.base + h.size);
    assert [g][1..] == [];
    SpliceTiles(bs, MergeFrom(bs, j), MergeTo(bs, j), [g], h.base, h.base + h.size);
  }

  lemma FreeSums(bs: seq<Block>, j: nat)
    requires j < |bs| && bs[j].used
    ensures FreeSum(FreeBlocks(bs, j)) == FreeSum(bs) + bs[j].size
  {
    MergedSum(bs, j);
    SpliceSum(bs, MergeFrom(bs, j), MergeTo(bs, j), [Merged(bs, j)]);
    assert [Merged(bs, j)][1..] == [];
  }

  lemma FreeCoalesced(bs: seq<Block>, j: nat)
    requires Coalesced(bs) && j < |bs| && bs[j].used
    ensures Coalesced(FreeBlocks(bs, j))
  {
    var bs' := FreeBlocks(bs, j);
    var l, r := MergeFrom(bs, j), MergeTo(bs, j);
    forall i | 0 <= i < |bs'| - 1 ensures bs'[i].used || bs'[i + 1].used {
      if i < l {
        assert bs'[i] == bs[i];
        assert bs[i].used || bs[i + 1].used;
      } else {
        assert bs'[i + 1] == bs[r + (i - l)];
        assert bs[r - 1 + (i - l)].used || bs[r + (i - l)].used;
        if i > l { assert bs'[i] == bs[r + (i - l) - 1]; }
      }
    }
  }

  /** A free keeps the heap valid. */
  lemma FreeKeeps(h: Heap, j: nat)
    requires Valid(h) && j < |h.blocks| && h.blocks[j].used
    ensures Valid(FreeAt(h, j))
  {
    var bs := h.blocks;
    var h' := FreeAt(h, j);
    var l, r := MergeFrom(bs, j), MergeTo(bs, j);
    FreeRelinks(h, j);
    Relink(h, bs[..l], bs[l..r], [Merged(bs, j)], bs[r..], h'.mem, h'.freeList);
    FreeTiles(h, j);
    FreeCoalesced(bs, j);
  }
}
