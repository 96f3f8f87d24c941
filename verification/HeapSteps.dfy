/** The heap operations as functions on heap states, and the invariant they keep. */
module HeapSteps {
  import opened Words
  import opened HeapModel
  import opened HeapTiling

  /** Block `j` of a valid heap has its header inside the memory. */
  lemma BlockInHeap(h: Heap, j: nat)
    requires Valid(h) && j < |h.blocks|
    ensures var b := h.blocks[j];
            && h.base <= b.addr < b.End() <= h.base + h.size
            && HeaderOk(h.mem, h.base, h.blocks, j)
  {
    TilesRange(h.blocks, h.base, h.base + h.size, j);
  }

  /** A granule-aligned address inside the heap is the address of a granule. */
  lemma GranuleInHeap(h: Heap, a: nat)
    requires Bounds(h) && h.base <= a < h.base + h.size && (a - h.base) % 16 == 0
    ensures At(h.mem, h.base, a)
  {
  }

  /** The blocks before `j` that are linked: their last free one, when there is one, is a header. */
  lemma PrevInHeap(h: Heap, j: nat)
    requires Valid(h) && j <= |h.blocks|
    ensures var prev := LastFree(h.blocks[..j]);
            prev != 0 ==> exists p :: 0 <= p < j && !h.blocks[p].used && h.blocks[p].addr == prev
    ensures var prev := LastFree(h.blocks[..j]); prev != 0 ==> At(h.mem, h.base, prev)
  {
    var bs := h.blocks;
    assert bs == bs[..j] + bs[j..];
    TilesSplit(bs[..j], bs[j..], h.base, h.base + h.size);
    if LastFree(bs[..j]) != 0 {
      var p := LastFreeIndex(bs[..j], h.base, EndOf(bs[..j], h.base));
      assert bs[p] == bs[..j][p];
      BlockInHeap(h, p);
    }
  }

  /** The blocks after `j`: their first free one, when there is one, is a header. */
  lemma CurInHeap(h: Heap, j: nat)
    requires Valid(h) && j < |h.blocks|
    ensures var cur := FirstFree(h.blocks[j + 1..]);
            cur != 0 ==>
              && (exists p :: j < p < |h.blocks| && !h.blocks[p].used && h.blocks[p].addr == cur)
              && At(h.mem, h.base, cur)
    ensures FirstFree(h.blocks[j + 1..]) < TWO64
  {
    var bs := h.blocks;
    assert bs == bs[..j + 1] + bs[j + 1..];
    TilesSplit(bs[..j + 1], bs[j + 1..], h.base, h.base + h.size);
    if FirstFree(bs[j + 1..]) != 0 {
      var i := FirstFreeIndex(bs[j + 1..], EndOf(bs[..j + 1], h.base), h.base + h.size);
      assert bs[j + 1 + i] == bs[j + 1..][i];
      BlockInHeap(h, j + 1 + i);
    }
  }

  lemma AllocInHeap(h: Heap, j: nat, t: nat)
    requires Valid(h) && j < |h.blocks| && !h.blocks[j].used
    requires 32 <= t <= h.blocks[j].size && t % 16 == 0
    ensures var b := h.blocks[j];
            && At(h.mem, h.base, b.addr) && b.size < TWO32 && b.addr + t < TWO64
            && (t < b.size ==> At(h.mem, h.base, b.addr + t))
    ensures t <= h.freeBytes
  {
    BlockInHeap(h, j);
    SumAt(h.blocks, j);
    if t < h.blocks[j].size {
      TilesAligned(h.blocks, h.base, h.base + h.size, j);
      GranuleInHeap(h, h.blocks[j].addr + t);
    }
  }

  /** Splitting block `b`: a free header after its first `t` bytes, linked where `b` was. */
  function SplitOff(m: seq<u32>, base: nat, b: Block, t: nat): (r: seq<u32>)
    requires At(m, base, b.addr) && At(m, base, b.addr + t) && t <= b.size < TWO32
    ensures |r| == |m|
  {
    var rest := b.addr + t;
    SetNext(SetSize(SetMagic(m, base, rest, MAGIC_FREE), base, rest, b.size - t), base, rest, NextAt(m, base, b.addr))
  }

  /** `prev->next = target`, or nothing when there is no previous free block. */
  function LinkPrev(m: seq<u32>, base: nat, prev: nat, target: u64): (r: seq<u32>)
    requires prev != 0 ==> At(m, base, prev)
    ensures |r| == |m|
  {
    if prev == 0 then m else SetNext(m, base, prev, target)
  }

  /** The header of an allocated block. */
  function MarkUsed(m: seq<u32>, base: nat, a: nat, t: u32): (r: seq<u32>)
    requires At(m, base, a)
    ensures |r| == |m|
  {
    SetSize(SetMagic(m, base, a, MAGIC_USED), base, a, t)
  }

  /** `prev->size += size`, in 32 bits. */
  function Grow(m: seq<u32>, base: nat, a: nat, s: u32): (r: seq<u32>)
    requires At(m, base, a)
    ensures |r| == |m|
  {
    SetSize(m, base, a, (SizeAt(m, base, a) + s) % TWO32)
  }

  /** The new successor of the free block before `b`, once `t` bytes of `b` are allocated. */
  function AllocTarget(m: seq<u32>, base: nat, b: Block, t: nat): u64
    requires At(m, base, b.addr) && b.addr + t < TWO64
  {
    if b.size == t then NextAt(m, base, b.addr) else b.addr + t
  }

  /** The writes of an allocation of `t` bytes from block `b`, whose previous free block is `prev`. */
  function AllocMem(m: seq<u32>, base: nat, b: Block, prev: nat, t: u32): (r: seq<u32>)
    requires At(m, base, b.addr) && t <= b.size < TWO32 && b.addr + t < TWO64
    requires t < b.size ==> At(m, base, b.addr + t)
    requires prev != 0 ==> At(m, base, prev)
    ensures |r| == |m|
  {
    var m1 := if b.size == t then m else SplitOff(m, base, b, t);
    MarkUsed(LinkPrev(m1, base, prev, AllocTarget(m, base, b, t)), base, b.addr, t)
  }

  /** `miniheap_alloc` once the loop has stopped at block `j`: unlink or split it, then mark it used. */
  function AllocAt(h: Heap, j: nat, t: nat): Heap
    requires Valid(h) && j < |h.blocks| && !h.blocks[j].used
    requires 32 <= t <= h.blocks[j].size && t % 16 == 0
  {
    var b := h.blocks[j];
    var prev := LastFree(h.blocks[..j]);
    AllocInHeap(h, j, t); PrevInHeap(h, j);
    Heap(h.base, h.size, AllocMem(h.mem, h.base, b, prev, t),
         if prev == 0 then AllocTarget(h.mem, h.base, b, t) else h.freeList,
         h.freeBytes - t, AllocBlocks(h.blocks, j, t))
  }

  /** The writes that put block `b` on the free list between `prev` and `cur`, before any merge with `cur`. */
  function FreeLinkMem(m: seq<u32>, base: nat, b: Block, prev: nat, cur: u64): (r: seq<u32>)
    requires At(m, base, b.addr) && b.size < TWO32 && b.addr < TWO64
    requires prev != 0 ==> At(m, base, prev)
    ensures |r| == |m|
  {
    var m1 := SetMagic(m, base, b.addr, MAGIC_FREE);
    if prev != 0 && prev + SizeAt(m1, base, prev) == b.addr then Grow(m1, base, prev, b.size)
    else LinkPrev(SetNext(SetSize(m1, base, b.addr, b.size), base, b.addr, cur), base, prev, b.addr)
  }

  /** The free block that `b` has become part of: the previous one when they touch. */
  function FreeInto(m: seq<u32>, base: nat, b: Block, prev: nat): nat
    requires At(m, base, b.addr)
    requires prev != 0 ==> At(m, base, prev)
  {
    if prev != 0 && prev + SizeAt(SetMagic(m, base, b.addr, MAGIC_FREE), base, prev) == b.addr then prev else b.addr
  }

  /** `into` absorbs the free block `cur`. */
  function Absorb(m: seq<u32>, base: nat, into: nat, cur: nat): (r: seq<u32>)
    requires At(m, base, into) && At(m, base, cur)
    ensures |r| == |m|
  {
    var m1 := Grow(m, base, into, SizeAt(m, base, cur));
    SetNext(m1, base, into, NextAt(m1, base, cur))
  }

  /** All the writes that free block `b`. */
  function FreeMem(m: seq<u32>, base: nat, b: Block, prev: nat, cur: u64): (r: seq<u32>)
    requires At(m, base, b.addr) && b.size < TWO32 && b.addr < TWO64
    requires prev != 0 ==> At(m, base, prev)
    requires cur != 0 ==> At(m, base, cur)
    ensures |r| == |m|
  {
    var m1 := FreeLinkMem(m, base, b, prev, cur);
    if cur != 0 && b.End() == cur then Absorb(m1, base, FreeInto(m, base, b, prev), cur) else m1
  }

  /** `miniheap_free` of block `j`: link it in address order, merging it with its free neighbours. */
  function FreeAt(h: Heap, j: nat): Heap
    requires Valid(h) && j < |h.blocks| && h.blocks[j].used
  {
    var b := h.blocks[j];
    var prev := LastFree(h.blocks[..j]);
    BlockInHeap(h, j); PrevInHeap(h, j); CurInHeap(h, j);
    Heap(h.base, h.size, FreeMem(h.mem, h.base, b, prev, FirstFree(h.blocks[j + 1..])),
         if prev == 0 then b.addr else h.freeList, h.freeBytes + b.size, FreeBlocks(h.blocks, j))
  }

  // ----- relinking

  /** The granule at `a` reads the same, as a header, in both memories. */
  ghost predicate SameHeader(m: seq<u32>, m': seq<u32>, base: nat, a: nat) {
    && At(m, base, a) && At(m', base, a)
    && MagicAt(m', base, a) == MagicAt(m, base, a)
    && SizeAt(m', base, a) == SizeAt(m, base, a)
    && NextAt(m', base, a) == NextAt(m, base, a)
  }

  /** The headers of `xs` read the same, except that of a block at `but`. */
  ghost predicate KeptBut(m: seq<u32>, m': seq<u32>, base: nat, xs: seq<Block>, but: nat) {
    forall i :: 0 <= i < |xs| ==> xs[i].addr == but || SameHeader(m, m', base, xs[i].addr)
  }

  /** Of the header at `prev` only the link has changed, to `target`. */
  ghost predicate LinkChanged(m: seq<u32>, m': seq<u32>, base: nat, prev: nat, target: nat) {
    prev != 0 ==>
      && At(m, base, prev) && At(m', base, prev)
      && MagicAt(m', base, prev) == MagicAt(m, base, prev)
      && SizeAt(m', base, prev) == SizeAt(m, base, prev)
      && NextAt(m', base, prev) == target
  }

  /** The headers of `N` are right when `C` follows. */
  ghost predicate NewOk(m': seq<u32>, base: nat, N: seq<Block>, C: seq<Block>) {
    forall i :: 0 <= i < |N| ==> HeaderOk(m', base, N + C, i)
  }

  /** What must have been written for blocks `O` between `A` and `C` to become the blocks `N`. */
  ghost predicate Relinked(h: Heap, A: seq<Block>, O: seq<Block>, N: seq<Block>, C: seq<Block>,
                           m': seq<u32>, freeList': nat)
  {
    var prev := LastFree(A);
    && h.blocks == A + O + C
    && KeptBut(h.mem, m', h.base, A, prev)
    && LinkChanged(h.mem, m', h.base, prev, FirstFree(N + C))
    && KeptBut(h.mem, m', h.base, C, 0)
    && NewOk(m', h.base, N, C)
    && freeList' == if prev != 0 then h.freeList else FirstFree(N + C)
  }

  lemma RelinkFrontLink(h: Heap, A: seq<Block>, O: seq<Block>, N: seq<Block>, C: seq<Block>,
                        m': seq<u32>, freeList': nat, i: nat)
    requires Valid(h) && Relinked(h, A, O, N, C, m', freeList') && i < |A| && !A[i].used
    requires HeaderOk(h.mem, h.base, h.blocks, i) && h.blocks[i] == A[i]
    ensures At(m', h.base, A[i].addr)
    ensures NextAt(m', h.base, A[i].addr) == FirstFree(A[i + 1..] + (N + C))
  {
    var e := EndOf(A, h.base);
    assert A + O + C == A + (O + C);
    TilesSplit(A, O + C, h.base, h.base + h.size);
    assert h.blocks[i + 1..] == A[i + 1..] + (O + C);
    assert A == A[..i + 1] + A[i + 1..];
    TilesSplit(A[..i + 1], A[i + 1..], h.base, e);
    FirstFreeSplit(A[i + 1..], O + C, A[i].End(), e);
    FirstFreeSplit(A[i + 1..], N + C, A[i].End(), e);
    OnlyLastFreeEnds(A, h.base, e, i);
  }

  lemma RelinkFront(h: Heap, A: seq<Block>, O: seq<Block>, N: seq<Block>, C: seq<Block>,
                    m': seq<u32>, freeList': nat, i: nat)
    requires Valid(h) && Relinked(h, A, O, N, C, m', freeList') && i < |A|
    ensures HeaderOk(m', h.base, A + N + C, i)
  {
    var a := A[i];
    assert h.blocks[i] == a && (A + N + C)[i] == a;
    assert HeaderOk(h.mem, h.base, h.blocks, i);
    if !a.used {
      RelinkFrontLink(h, A, O, N, C, m', freeList', i);
      assert (A + N + C)[i + 1..] == A[i + 1..] + (N + C);
    } else if a.addr == LastFree(A) {
      assert A + O + C == A + (O + C);
      TilesSplit(A, O + C, h.base, h.base + h.size);
      LastFreeIsFree(A, h.base, EndOf(A, h.base), i);
    }
  }

  lemma RelinkMiddle(h: Heap, A: seq<Block>, O: seq<Block>, N: seq<Block>, C: seq<Block>,
                     m': seq<u32>, freeList': nat, i: nat)
    requires Relinked(h, A, O, N, C, m', freeList') && i < |N|
    ensures HeaderOk(m', h.base, A + N + C, |A| + i)
  {
    var bs := A + N + C;
    assert HeaderOk(m', h.base, N + C, i);
    assert bs[|A| + i..] == (N + C)[i..];
    assert bs[|A| + i + 1..] == (N + C)[i + 1..];
  }

  lemma RelinkBack(h: Heap, A: seq<Block>, O: seq<Block>, N: seq<Block>, C: seq<Block>,
                   m': seq<u32>, freeList': nat, i: nat)
    requires Valid(h) && Relinked(h, A, O, N, C, m', freeList') && i < |C|
    ensures HeaderOk(m', h.base, A + N + C, |A + N| + i)
  {
    var bs := A + N + C;
    assert HeaderOk(h.mem, h.base, h.blocks, |A + O| + i);
    assert bs[|A + N| + i..] == C[i..] == h.blocks[|A + O| + i..];
    assert bs[|A + N| + i + 1..] == C[i + 1..] == h.blocks[|A + O| + i + 1..];
    BlockInHeap(h, |A + O| + i);
    assert SameHeader(h.mem, m', h.base, C[i].addr);
  }

  lemma RelinkHead(h: Heap, A: seq<Block>, O: seq<Block>, N: seq<Block>, C: seq<Block>, freeList': nat)
    requires 0 < h.base && Tiles(A, h.base, EndOf(A, h.base))
    requires h.freeList == FirstFree(A + (O + C))
    requires freeList' == if LastFree(A) != 0 then h.freeList else FirstFree(N + C)
    ensures freeList' == FirstFree(A + (N + C))
  {
    var e := EndOf(A, h.base);
    FirstFreeSplit(A, O + C, h.base, e);
    FirstFreeSplit(A, N + C, h.base, e);
    FirstFreeNone(A, h.base, e);
    if LastFree(A) != 0 {
      var p := LastFreeIndex(A, h.base, e);
    } else {
      LastFreeNone(A, h.base, e);
    }
  }

  lemma Relink(h: Heap, A: seq<Block>, O: seq<Block>, N: seq<Block>, C: seq<Block>,
               m': seq<u32>, freeList': nat)
    requires Valid(h) && Relinked(h, A, O, N, C, m', freeList')
    ensures HeadersOk(m', h.base, A + N + C)
    ensures freeList' == FirstFree(A + N + C)
  {
    forall i | 0 <= i < |A + N + C| ensures HeaderOk(m', h.base, A + N + C, i) {
      if i < |A| {
        RelinkFront(h, A, O, N, C, m', freeList', i);
      } else if i < |A + N| {
        RelinkMiddle(h, A, O, N, C, m', freeList', i - |A|);
      } else {
        RelinkBack(h, A, O, N, C, m', freeList', i - |A + N|);
      }
    }
    assert A + O + C == A + (O + C) && A + N + C == A + (N + C);
    TilesSplit(A, O + C, h.base, h.base + h.size);
    RelinkHead(h, A, O, N, C, freeList');
  }
}
