/** First fit, the canonical free list, round trips, and the limits of the 32-bit arithmetic. */
module HeapTheorems {
  import opened Words
  import opened HeapModel
  import opened HeapTiling
  import opened HeapSteps
  import opened HeapKeeps
  import opened HeapRuns
  import opened HeapFrames
  import opened HeapDecode

  // ----- first fit

  /** The bytes a request takes from the heap: its size rounded up to a granule, plus the header. */
  function Needed(n: nat): nat {
    (n + 15) / 16 * 16 + 16
  }

  lemma TotalIsNeeded(n: u64)
    requires n <= TWO32 - 32
    ensures Servable(n)
    ensures Rounded(n) == 0 <==> n == 0
    ensures n != 0 ==> Total(n) == Needed(n)
  {
    var s := n + 15;
    assert s % TWO64 % TWO32 == s;
    assert s - s % 16 == s / 16 * 16;
  }

  ghost predicate Fits(h: Heap, b: Block, n: nat) {
    b in h.blocks && !b.used && b.size >= Needed(n)
  }

  /** NULL is returned exactly when nothing was asked for or no free block is big enough. */
  lemma MallocFailsExactly(h: Heap, n: u64)
    requires Valid(h) && n <= TWO32 - 32
    ensures Servable(n)
    ensures Allocate(h, n).1 == 0 <==> n == 0 || forall b :: b in h.blocks && !b.used ==> b.size < Needed(n)
    ensures Allocate(h, n).1 == 0 ==> Allocate(h, n).0 == h
  {
    TotalIsNeeded(n);
    var t := Total(n);
    var j := FirstFit(h.blocks, t);
    FirstFitIs(h.blocks, t);
    if n != 0 {
      forall i | 0 <= i < |h.blocks| ensures !h.blocks[i].used ==> h.blocks[i].size <= h.freeBytes {
        SumAt(h.blocks, i);
      }
      if j < |h.blocks| { assert h.blocks[j] in h.blocks; }
    }
  }

  /** Otherwise the lowest-addressed block that fits is used, from its front. */
  lemma MallocFirstFit(h: Heap, n: u64)
    requires Valid(h) && n <= TWO32 - 32 && Servable(n) && Allocate(h, n).1 != 0
    ensures var (h', p) := Allocate(h, n);
            exists b ::
              && Fits(h, b, n) && p == b.addr + 16
              && (forall c :: Fits(h, c, n) ==> b.addr <= c.addr)
              && Block(b.addr, Needed(n), true) in h'.blocks
  {
    TotalIsNeeded(n);
    var t := Total(n);
    var j := FirstFit(h.blocks, t);
    FirstFitIs(h.blocks, t);
    var b := h.blocks[j];
    forall c | Fits(h, c, n) ensures b.addr <= c.addr {
      var i :| 0 <= i < |h.blocks| && h.blocks[i] == c;
      if j < i { TilesOrder(h.blocks, h.base, h.base + h.size, j, i); }
    }
    AllocStays(h.blocks, j, t, Block(b.addr, t, true));
    assert Fits(h, b, n);
  }

  /** The live blocks are those there were and `b`. */
  ghost predicate Gains(h: Heap, h': Heap, b: Block) {
    forall c: Block :: c.used ==> (c in h'.blocks <==> c in h.blocks || c == b)
  }

  lemma ServedFrom(h: Heap, n: u64) returns (j: nat)
    requires Valid(h) && Servable(n) && Allocate(h, n).1 != 0
    ensures j == FirstFit(h.blocks, Total(n)) < |h.blocks| && !h.blocks[j].used
    ensures Allocate(h, n).1 == h.blocks[j].addr + GRANULE && Total(n) == Rounded(n) + GRANULE
    ensures Valid(Allocate(h, n).0)
  {
    ExecKeeps(h, Malloc(n));
    ServableTotal(n);
    j := FirstFit(h.blocks, Total(n));
    FirstFitIs(h.blocks, Total(n));
  }

  lemma NotLiveYet(h: Heap, j: nat)
    requires Valid(h) && j < |h.blocks| && !h.blocks[j].used
    ensures var p := h.blocks[j].addr + GRANULE; p > GRANULE && !Live(h, p) && (p - h.base) % 16 == 0
  {
    TilesAligned(h.blocks, h.base, h.base + h.size, j);
    IndexOfBlock(h.blocks, h.base, h.base + h.size, j);
    BlockInHeap(h, j);
  }

  lemma MallocUsed(h: Heap, n: u64, j: nat)
    requires Valid(h) && Servable(n) && Allocate(h, n).1 != 0 && j == FirstFit(h.blocks, Total(n))
    ensures j < |h.blocks|
    ensures var h', b := Allocate(h, n).0, Block(h.blocks[j].addr, Total(n), true); b in h'.blocks && Gains(h, h', b)
  {
    ServableTotal(n);
    FirstFitIs(h.blocks, Total(n));
    forall c: Block | c.used
      ensures c in AllocBlocks(h.blocks, j, Total(n)) <==> c in h.blocks || c == Block(h.blocks[j].addr, Total(n), true)
    {
      AllocStays(h.blocks, j, Total(n), c);
    }
    assert Block(h.blocks[j].addr, Total(n), true) in Allocate(h, n).0.blocks;
  }

  /**
   What a caller gets: a new live payload, aligned, of the request's rounded size,
   and apart from every other live block.
   */
  lemma MallocServes(h: Heap, n: u64)
    requires Valid(h) && Servable(n) && Allocate(h, n).1 != 0
    ensures var (h', p) := Allocate(h, n);
            && Valid(h') && !Live(h, p) && Live(h', p)
            && (p - h.base) % 16 == 0
            && BlockOf(h', p).size - GRANULE == Rounded(n)
            && (forall c :: c in h'.blocks && c.used && c != BlockOf(h', p) ==>
                  c in h.blocks && (c.End() <= p - GRANULE || BlockOf(h', p).End() <= c.addr))
  {
    var (h', p) := Allocate(h, n);
    var j := ServedFrom(h, n);
    NotLiveYet(h, j);
    MallocUsed(h, n, j);
    GainedApart(h, h', Block(p - GRANULE, Total(n), true));
  }

  lemma GainedApart(h: Heap, h': Heap, b: Block)
    requires Valid(h') && b in h'.blocks && b.used && Gains(h, h', b)
    ensures Live(h', b.addr + GRANULE) && BlockOf(h', b.addr + GRANULE) == b
    ensures forall c :: c in h'.blocks && c.used && c != b ==> c in h.blocks && (c.End() <= b.addr || b.End() <= c.addr)
  {
    BlockOfIs(h', b);
    forall c | c in h'.blocks && c.used && c != b
      ensures c in h.blocks && (c.End() <= b.addr || b.End() <= c.addr)
    {
      LiveBlocksApart(h', b, c);
    }
  }

  // ----- the canonical tiling

  ghost predicate SameUsed(xs: seq<Block>, ys: seq<Block>) {
    forall b: Block :: b.used ==> (b in xs <==> b in ys)
  }

  /** A used block of a tiling after its first block is not at the first address. */
  lemma UsedLater(bs: seq<Block>, a: nat, e: nat, b: Block)
    requires Tiles(bs, a, e) && bs != [] && b in bs && b != bs[0]
    ensures b.addr >= bs[0].End() && b in bs[1..]
  {
    var i :| 0 <= i < |bs| && bs[i] == b;
    TilesOrder(bs, a, e, 0, i);
    assert bs[1..][i - 1] == b;
  }

  /** Two coalesced tilings that start with free blocks start with the same one. */
  lemma FirstFreeAgrees(xs: seq<Block>, ys: seq<Block>, a: nat, e: nat)
    requires Tiles(xs, a, e) && Tiles(ys, a, e) && Coalesced(xs) && SameUsed(xs, ys)
    requires xs != [] && ys != [] && !xs[0].used && !ys[0].used
    ensures xs[0].size >= ys[0].size
  {
    if xs[0].size < ys[0].size {
      TilesRange(ys, a, e, 0);
      if |xs| > 1 {
        assert xs[0].used || xs[1].used;
        TilesOrder(xs, a, e, 0, 1);
        assert xs[1] in ys;
        UsedLater(ys, a, e, xs[1]);
      }
    }
  }

  /** A coalesced tiling is determined by its used blocks. */
  lemma {:induction false} TilingIsCanonical(xs: seq<Block>, ys: seq<Block>, a: nat, e: nat)
    requires Tiles(xs, a, e) && Tiles(ys, a, e) && Coalesced(xs) && Coalesced(ys) && SameUsed(xs, ys)
    ensures xs == ys
  {
    TilesBound(xs, a, e);
    TilesBound(ys, a, e);
    if xs != [] {
      HeadsAgree(xs, ys, a, e);
      CoalescedTail(xs);
      CoalescedTail(ys);
      forall b: Block | b.used ensures b in xs[1..] <==> b in ys[1..] {
        TailUsed(xs, a, e, b);
        TailUsed(ys, a, e, b);
      }
      TilingIsCanonical(xs[1..], ys[1..], xs[0].End(), e);
    }
  }

  lemma TailUsed(bs: seq<Block>, a: nat, e: nat, b: Block)
    requires Tiles(bs, a, e) && bs != []
    ensures b in bs[1..] <==> b in bs && b != bs[0]
  {
    if b in bs[1..] {
      var i :| 0 <= i < |bs[1..]| && bs[1..][i] == b;
      TilesOrder(bs, a, e, 0, i + 1);
    }
    if b in bs && b != bs[0] { UsedLater(bs, a, e, b); }
  }

  lemma HeadsAgree(xs: seq<Block>, ys: seq<Block>, a: nat, e: nat)
    requires Tiles(xs, a, e) && Tiles(ys, a, e) && Coalesced(xs) && Coalesced(ys) && SameUsed(xs, ys)
    requires xs != [] && ys != []
    ensures xs[0] == ys[0]
  {
    if xs[0].used {
      assert xs[0] in ys;
      if xs[0] != ys[0] { UsedLater(ys, a, e, xs[0]); }
    } else if ys[0].used {
      assert ys[0] in xs;
      if xs[0] != ys[0] { UsedLater(xs, a, e, ys[0]); }
    } else {
      FirstFreeAgrees(xs, ys, a, e);
      FirstFreeAgrees(ys, xs, a, e);
    }
  }

  /** What the allocator will do next: the free list as it reads it, and its byte count. */
  ghost predicate SameFreeList(h: Heap, g: Heap) {
    && h.blocks == g.blocks && h.freeList == g.freeList && h.freeBytes == g.freeBytes
    && Walk(h.mem, h.base, h.freeList, |h.blocks|) == Walk(g.mem, g.base, g.freeList, |g.blocks|)
  }

  /** The free list is a function of the live blocks alone, whatever the history. */
  lemma FreeListIsCanonical(h: Heap, g: Heap)
    requires Valid(h) && Valid(g) && h.base == g.base && h.size == g.size
    requires SameUsed(h.blocks, g.blocks)
    ensures SameFreeList(h, g)
  {
    TilingIsCanonical(h.blocks, g.blocks, h.base, h.base + h.size);
    WalkIsFreeList(h, |h.blocks|);
    WalkIsFreeList(g, |g.blocks|);
  }

  // ----- freeing in any order

  /** Pointers that may be freed one after the other. */
  ghost predicate Freeable(h: Heap, ps: seq<nat>) {
    && (forall p :: p in ps ==> Live(h, p))
    && (forall i, j :: 0 <= i < j < |ps| ==> ps[i] != ps[j])
  }

  function Frees(ps: seq<nat>): seq<Op> {
    if ps == [] then [] else [Free(ps[0])] + Frees(ps[1..])
  }

  lemma FreeableStep(h: Heap, ps: seq<nat>)
    requires Valid(h) && Freeable(h, ps) && ps != []
    ensures Legal(h, Free(ps[0])) && Freeable(Exec(h, Free(ps[0])), ps[1..])
    ensures forall b: Block :: b.used ==>
              (b in Exec(h, Free(ps[0])).blocks <==> b in h.blocks && b.addr + GRANULE != ps[0])
  {
    assert ps[0] in ps;
    var h' := Exec(h, Free(ps[0]));
    ExecKeeps(h, Free(ps[0]));
    LiveIn(h, ps[0]);
    var j := IndexOf(h.blocks, ps[0] - GRANULE);
    forall b: Block | b.used ensures b in h'.blocks <==> b in h.blocks && b.addr + GRANULE != ps[0] {
      FreeStays(h.blocks, h.base, h.base + h.size, j, b);
      if b in h.blocks { BlockOfIs(h, b); }
    }
    forall p | p in ps[1..] ensures Live(h', p) {
      assert p in ps && p != ps[0];
      LiveIn(h, p);
      LiveIn(h', p);
      assert BlockOf(h, p) in h'.blocks;
    }
  }

  /** Freeing `ps` leaves exactly the live blocks that `ps` does not name. */
  lemma {:induction false} FreeEach(h: Heap, ps: seq<nat>)
    requires Valid(h) && Freeable(h, ps)
    ensures LegalRun(h, Frees(ps))
    ensures var h' := Run(h, Frees(ps));
            && Valid(h') && h'.base == h.base && h'.size == h.size
            && forall b: Block :: b.used ==> (b in h'.blocks <==> b in h.blocks && b.addr + GRANULE !in ps)
    decreases |ps|
  {
    if ps != [] {
      FreeableStep(h, ps);
      ExecKeeps(h, Free(ps[0]));
      assert Frees(ps)[1..] == Frees(ps[1..]);
      assert forall p :: p in ps <==> p == ps[0] || p in ps[1..];
      FreeEach(Exec(h, Free(ps[0])), ps[1..]);
    }
  }

  /** Freeing the same live blocks in any two orders gives the same free list. */
  lemma FreeOrderDoesNotMatter(h: Heap, ps: seq<nat>, qs: seq<nat>)
    requires Valid(h) && Freeable(h, ps) && Freeable(h, qs)
    requires forall p :: p in ps <==> p in qs
    ensures LegalRun(h, Frees(ps)) && LegalRun(h, Frees(qs))
    ensures SameFreeList(Run(h, Frees(ps)), Run(h, Frees(qs)))
  {
    FreeEach(h, ps);
    FreeEach(h, qs);
    FreeListIsCanonical(Run(h, Frees(ps)), Run(h, Frees(qs)));
  }

  /** Freeing every live block gives back the single free block of the whole heap. */
  lemma FreeingAllRestores(h: Heap, ps: seq<nat>)
    requires Valid(h) && Freeable(h, ps)
    requires forall b :: b in h.blocks && b.used ==> b.addr + GRANULE in ps
    ensures LegalRun(h, Frees(ps))
    ensures var h' := Run(h, Frees(ps));
            && h'.blocks == [Block(h.base, h.size, false)]
            && h'.freeList == h.base && h'.freeBytes == h.size
            && Walk(h'.mem, h.base, h.base, 1) == h'.blocks
  {
    FreeEach(h, ps);
    NothingUsed(Run(h, Frees(ps)));
  }

  lemma NothingUsed(h: Heap)
    requires Valid(h) && forall b :: b in h.blocks ==> !b.used
    ensures h.blocks == [Block(h.base, h.size, false)] && h.freeList == h.base && h.freeBytes == h.size
    ensures Walk(h.mem, h.base, h.base, 1) == h.blocks
  {
    var whole := [Block(h.base, h.size, false)];
    assert Tiles(whole[1..], h.base + h.size, h.base + h.size);
    TilingIsCanonical(h.blocks, whole, h.base, h.base + h.size);
    WalkIsFreeList(h, 1);
    WholeHeap(h.base, h.size);
  }

  lemma WholeHeap(a: nat, size: nat)
    ensures var whole := [Block(a, size, false)];
            FreeOnes(whole) == whole && FreeSum(whole) == size && FirstFree(whole) == a
  {
    var whole := [Block(a, size, false)];
    assert whole[1..] == [];
  }

  /** A successful alloc undone by the free of its result restores the free list exactly. */
  lemma MallocFreeRoundTrip(h: Heap, n: u64)
    requires Valid(h) && Servable(n) && Allocate(h, n).1 != 0
    ensures var (h', p) := Allocate(h, n);
            Valid(h') && Live(h', p) && SameFreeList(Release(h', p), h)
  {
    MallocMakes(h, n);
    FreeUndoes(h, Allocate(h, n).0, Allocate(h, n).1);
  }

  /** `h'` has one live block more than `h`, that of `p`. */
  ghost predicate GainsPointer(h: Heap, h': Heap, p: nat) {
    && !Live(h, p) && Live(h', p) && h'.base == h.base && h'.size == h.size
    && exists b: Block :: Gains(h, h', b) && b.used && b.addr + GRANULE == p
  }

  lemma MallocMakes(h: Heap, n: u64)
    requires Valid(h) && Servable(n) && Allocate(h, n).1 != 0
    ensures Valid(Allocate(h, n).0) && GainsPointer(h, Allocate(h, n).0, Allocate(h, n).1)
  {
    var j := ServedFrom(h, n);
    MallocUsed(h, n, j);
    MallocServes(h, n);
    assert Gains(h, Allocate(h, n).0, Block(h.blocks[j].addr, Total(n), true));
  }

  /** Freeing the one block that is live in `h'` and not in `h` gives back the free list of `h`. */
  lemma FreeUndoes(h: Heap, h': Heap, p: nat)
    requires Valid(h) && Valid(h') && GainsPointer(h, h', p)
    ensures SameFreeList(Release(h', p), h)
  {
    var b: Block :| Gains(h, h', b) && b.used && b.addr + GRANULE == p;
    FreedUsed(h', p);
    ExecKeeps(h', Free(p));
    GainLost(h, h'.blocks, Release(h', p).blocks, b, p);
    FreeListIsCanonical(Release(h', p), h);
  }

  lemma GainLost(h: Heap, more: seq<Block>, less: seq<Block>, b: Block, p: nat)
    requires Valid(h) && !Live(h, p) && b.addr + GRANULE == p
    requires forall c: Block :: c.used ==> (c in more <==> c in h.blocks || c == b)
    requires forall c: Block :: c.used ==> (c in less <==> c in more && c.addr + GRANULE != p)
    ensures SameUsed(less, h.blocks)
  {
    forall c: Block | c.used && c in h.blocks ensures c.addr + GRANULE != p {
      BlockOfIs(h, c);
    }
  }

  lemma FreedUsed(h: Heap, p: nat)
    requires Valid(h) && Live(h, p)
    ensures forall b: Block :: b.used ==> (b in Release(h, p).blocks <==> b in h.blocks && b.addr + GRANULE != p)
  {
    FreeableStep(h, [p]);
  }

  /** The header in front of a live payload, word by word. */
  lemma LiveHeader(h: Heap, p: nat)
    requires Valid(h) && Live(h, p)
    ensures var w := (p - 16 - h.base) / 4;
            0 <= w && w + 1 < |h.mem| && h.mem[w] == 0xBEEFDEAD && h.mem[w + 1] == BlockOf(h, p).size
  {
    LiveBlock(h, p);
    LiveIn(h, p);
    var j :| 0 <= j < |h.blocks| && h.blocks[j] == BlockOf(h, p);
    assert HeaderOk(h.mem, h.base, h.blocks, j);
    GranuleWord(p - 16 - h.base);
  }

  lemma GranuleWord(x: nat)
    requires x % 16 == 0
    ensures x / 4 == x / 16 * 4
  {
  }

  // ----- limits of the 32-bit arithmetic

  /** The 32-bit arithmetic is honest about a size: it asks for nothing, or for a block that holds the request. */
  predicate Honest(n: u64) {
    Rounded(n) == 0 || (Total(n) != 0 && Rounded(n) >= n)
  }

  /** It is exactly for requests up to 2^32 - 32, and for those whose rounding wraps to nothing. */
  lemma HonestExactly(n: u64)
    ensures Honest(n) <==> n <= TWO32 - 32 || (n + 15) % TWO32 < 16
  {
  }

  lemma RoundedHolds(n: u64)
    requires Servable(n) && Rounded(n) != 0
    ensures Rounded(n) >= n <==> n <= TWO32 - 32
  {
  }

  /** So the payload that a call returns holds the request exactly up to 2^32 - 32. */
  lemma PayloadHoldsExactly(h: Heap, n: u64)
    requires Valid(h) && Servable(n) && Allocate(h, n).1 != 0
    ensures var (h', p) := Allocate(h, n);
            && Live(h', p) && BlockOf(h', p).addr == p - 16
            && (BlockOf(h', p).size - 16 >= n <==> n <= TWO32 - 32)
            && (n <= TWO32 - 32 ==> BlockOf(h', p).size - 16 < n + 16 && BlockOf(h', p).size % 16 == 0)
  {
    MallocServes(h, n);
    LiveIn(Allocate(h, n).0, Allocate(h, n).1);
    RoundedHolds(n);
    if n <= TWO32 - 32 {
      NeededIs(n);
      TotalIsNeeded(n);
    }
  }

  /** What a request needs: the least multiple of 16 that holds it, and 16 bytes of header. */
  lemma NeededIs(n: nat)
    ensures Needed(n) % 16 == 0 && n + 16 <= Needed(n) < n + 32
  {
  }

  /** A request one granule past the limit: the total is 0, so every free block seems to fit. */
  lemma TotalWrapsToZero()
    ensures !Servable(TWO32 - 31) && !Honest(TWO32 - 31)
    ensures Honest(TWO32 - 32) && Total(TWO32 - 32) == TWO32 - 16
  {
  }
}
