/** The words of the heap alone determine its tiling, its free list and its byte count. */
module HeapDecode {
  import opened Words
  import opened HeapModel
  import opened HeapTiling
  import opened HeapSteps
  import opened HeapRuns

  /** Reads block after block from the headers between `a` and `e`. */
  function Decode(m: seq<u32>, base: nat, a: nat, e: nat): seq<Block>
    decreases e - a
  {
    if a >= e || !At(m, base, a) || SizeAt(m, base, a) == 0 then []
    else
      var b := Block(a, SizeAt(m, base, a), MagicAt(m, base, a) == MAGIC_USED);
      [b] + Decode(m, base, b.End(), e)
  }

  /** Follows the links from `a`, at most `k` of them. */
  function Walk(m: seq<u32>, base: nat, a: nat, k: nat): seq<Block>
    decreases k
  {
    if a == 0 || k == 0 || !At(m, base, a) then []
    else [Block(a, SizeAt(m, base, a), false)] + Walk(m, base, NextAt(m, base, a), k - 1)
  }

  /** The free blocks of a tiling, in its order. */
  function FreeOnes(bs: seq<Block>): seq<Block> {
    if bs == [] then [] else (if bs[0].used then [] else [bs[0]]) + FreeOnes(bs[1..])
  }

  lemma {:induction false} DecodeFrom(h: Heap, i: nat)
    requires Valid(h) && i <= |h.blocks|
    ensures Decode(h.mem, h.base, EndOf(h.blocks[..i], h.base), h.base + h.size) == h.blocks[i..]
    decreases |h.blocks| - i
  {
    var bs := h.blocks;
    var e := h.base + h.size;
    if i == |bs| {
      assert bs == bs[..i] + [];
      TilesSplit(bs[..i], [], h.base, e);
    } else {
      BlockInHeap(h, i);
      TilesRange(bs, h.base, e, i);
      assert bs[..i + 1][i] == bs[i];
      DecodeFrom(h, i + 1);
      assert bs[i..] == [bs[i]] + bs[i + 1..];
    }
  }

  /** The memory decodes to the tiling: no other tiling fits the same words. */
  lemma DecodeIsTiling(h: Heap)
    requires Valid(h)
    ensures Decode(h.mem, h.base, h.base, h.base + h.size) == h.blocks
  {
    DecodeFrom(h, 0);
  }

  lemma {:induction false} WalkFrom(h: Heap, i: nat, k: nat)
    requires Valid(h) && i <= |h.blocks| && k >= |h.blocks| - i
    ensures Walk(h.mem, h.base, FirstFree(h.blocks[i..]), k) == FreeOnes(h.blocks[i..])
    decreases |h.blocks| - i
  {
    var bs := h.blocks;
    if i < |bs| {
      assert bs[i..][1..] == bs[i + 1..];
      if bs[i].used {
        WalkFrom(h, i + 1, k);
      } else {
        BlockInHeap(h, i);
        WalkFrom(h, i + 1, k - 1);
      }
    }
  }

  /** Following the links visits exactly the free blocks, in address order, and then stops. */
  lemma WalkIsFreeList(h: Heap, k: nat)
    requires Valid(h) && k >= |h.blocks|
    ensures Walk(h.mem, h.base, h.freeList, k) == FreeOnes(h.blocks)
  {
    assert h.blocks[0..] == h.blocks;
    WalkFrom(h, 0, k);
  }

  lemma {:induction false} FreeOnesIn(bs: seq<Block>, b: Block)
    ensures b in FreeOnes(bs) <==> b in bs && !b.used
  {
    if bs != [] {
      assert bs == [bs[0]] + bs[1..];
      FreeOnesIn(bs[1..], b);
    }
  }

  lemma FreeAfterFree(bs: seq<Block>, a: nat, e: nat, b: Block)
    requires Tiles(bs, a, e) && Coalesced(bs) && bs != [] && !bs[0].used
    requires b in bs[1..] && !b.used
    ensures bs[0].End() < b.addr
  {
    var i :| 0 <= i < |bs[1..]| && bs[1..][i] == b;
    if i == 0 {
      assert false;
    } else {
      TilesOrder(bs, a, e, 0, i + 1);
    }
  }

  lemma {:induction false} FreeOnesApart(bs: seq<Block>, a: nat, e: nat, x: nat, y: nat)
    requires Tiles(bs, a, e) && Coalesced(bs) && x < y < |FreeOnes(bs)|
    ensures FreeOnes(bs)[x].End() < FreeOnes(bs)[y].addr
  {
    CoalescedTail(bs);
    if bs[0].used {
      FreeOnesApart(bs[1..], bs[0].End(), e, x, y);
    } else if x > 0 {
      FreeOnesApart(bs[1..], bs[0].End(), e, x - 1, y - 1);
    } else {
      FreeOnesIn(bs[1..], FreeOnes(bs[1..])[y - 1]);
      FreeAfterFree(bs, a, e, FreeOnes(bs[1..])[y - 1]);
    }
  }

  lemma CoalescedTail(bs: seq<Block>)
    requires Coalesced(bs) && bs != []
    ensures Coalesced(bs[1..])
  {
    var rest := bs[1..];
    forall i | 0 <= i < |rest| - 1 ensures rest[i].used || rest[i + 1].used {
      assert bs[i + 1].used || bs[i + 2].used;
    }
  }

  lemma {:induction false} FreeOnesSum(bs: seq<Block>)
    ensures FreeSum(FreeOnes(bs)) == FreeSum(bs)
  {
    if bs != [] {
      FreeOnesSum(bs[1..]);
      SumsSplit(if bs[0].used then [] else [bs[0]], FreeOnes(bs[1..]));
    }
  }

  /** What a tiling says of the free list of a heap. */
  ghost predicate ListOf(bs: seq<Block>, list: seq<Block>) {
    && list == FreeOnes(bs)
    && (forall b :: b in list <==> b in bs && !b.used)
    && (forall x, y :: 0 <= x < y < |list| ==> list[x].End() < list[y].addr)
  }

  lemma FreeOnesList(bs: seq<Block>, a: nat, e: nat)
    requires Tiles(bs, a, e) && Coalesced(bs)
    ensures ListOf(bs, FreeOnes(bs))
  {
    forall b ensures b in FreeOnes(bs) <==> b in bs && !b.used {
      FreeOnesIn(bs, b);
    }
    forall x, y | 0 <= x < y < |FreeOnes(bs)| ensures FreeOnes(bs)[x].End() < FreeOnes(bs)[y].addr {
      FreeOnesApart(bs, a, e, x, y);
    }
  }

  /** The memory, the free list head and the byte count agree on one tiling of the heap. */
  ghost predicate Decodes(h: Heap) {
    var bs := Decode(h.mem, h.base, h.base, h.base + h.size);
    var list := Walk(h.mem, h.base, h.freeList, |bs|);
    && Tiles(bs, h.base, h.base + h.size)
    && ListOf(bs, list)
    && h.freeBytes == FreeSum(list)
    && h.freeBytes == h.size - UsedSum(bs)
  }

  lemma ValidDecodes(h: Heap)
    requires Valid(h)
    ensures Decodes(h)
  {
    DecodeIsTiling(h);
    WalkIsFreeList(h, |h.blocks|);
    TilingCounts(h.blocks, h.base, h.base + h.size);
  }

  lemma TilingCounts(bs: seq<Block>, a: nat, e: nat)
    requires Tiles(bs, a, e) && Coalesced(bs)
    ensures ListOf(bs, FreeOnes(bs))
    ensures FreeSum(bs) == FreeSum(FreeOnes(bs)) && FreeSum(bs) == e - a - UsedSum(bs)
  {
    FreeOnesList(bs, a, e);
    FreeOnesSum(bs);
    SumsFill(bs, a, e);
  }

  /**
   After any run the memory decodes to an exact tiling of the heap; the free list
   holds the free blocks, each past a gap after the one before it; and `free_bytes`
   is the sum of their sizes, which is the heap size less the sum of the used ones.
   */
  lemma RunDecodes(h: Heap, ops: seq<Op>)
    requires Valid(h) && LegalRun(h, ops)
    ensures Decodes(Run(h, ops)) && Run(h, ops).base == h.base && Run(h, ops).size == h.size
  {
    RunKeeps(h, ops);
    ValidDecodes(Run(h, ops));
  }
}
