/** Live blocks keep their place and their words; freed headers stay marked free. */
module HeapFrames {
  import opened Words
  import opened HeapModel
  import opened HeapTiling
  import opened HeapSteps
  import opened HeapKeeps
  import opened HeapRuns

  /** Word `w` of the memory belongs to block `b`, header included. */
  predicate WordOf(base: nat, b: Block, w: nat) {
    b.addr <= GranuleOf(base, w) < b.End()
  }

  /** A write by `op` to word `w`. */
  predicate Writes(base: nat, op: Op, w: nat) {
    op.Store? && w == (op.p - base) / 4 + op.k
  }

  // ----- blocks that an operation does not name stay blocks

  lemma AllocStays(bs: seq<Block>, j: nat, t: nat, b: Block)
    requires j < |bs| && !bs[j].used && t <= bs[j].size
    ensures b.used ==>
              (b in AllocBlocks(bs, j, t) <==> b in bs || b == Block(bs[j].addr, t, true))
  {
    var N := AllocMid(bs[j], t);
    assert bs == bs[..j] + [bs[j]] + bs[j + 1..];
    assert b in AllocBlocks(bs, j, t) <==> b in bs[..j] || b in N || b in bs[j + 1..];
  }

  lemma FreeStays(bs: seq<Block>, a: nat, e: nat, j: nat, b: Block)
    requires Tiles(bs, a, e) && j < |bs| && bs[j].used && b.used
    ensures b in FreeBlocks(bs, j) <==> b in bs && b != bs[j]
  {
    var l, r := MergeFrom(bs, j), MergeTo(bs, j);
    var A, C := bs[..l], bs[r..];
    assert b in FreeBlocks(bs, j) <==> b in A || b in C;
    if b in A {
      var i :| 0 <= i < l && A[i] == b;
      TilesOrder(bs, a, e, i, j);
      TilesRange(bs, a, e, i);
    }
    if b in C {
      var i :| 0 <= i < |C| && C[i] == b;
      assert bs[r + i] == b;
      TilesOrder(bs, a, e, j, r + i);
      TilesRange(bs, a, e, j);
    }
    if b in bs && b != bs[j] {
      var i :| 0 <= i < |bs| && bs[i] == b;
      if i < l { assert A[i] == b; } else if i >= r { assert C[i - r] == b; }
    }
  }

  lemma LiveIn(h: Heap, p: nat)
    requires Valid(h)
    ensures Live(h, p) ==> BlockOf(h, p) in h.blocks && BlockOf(h, p).used && BlockOf(h, p).addr == p - GRANULE
    ensures p >= GRANULE && (exists b :: b in h.blocks && b.used && b.addr == p - GRANULE) ==> Live(h, p)
  {
    if p >= GRANULE {
      IndexOfIs(h.blocks, p - GRANULE);
      if b :| b in h.blocks && b.used && b.addr == p - GRANULE {
        var i :| 0 <= i < |h.blocks| && h.blocks[i] == b;
        IndexOfBlock(h.blocks, h.base, h.base + h.size, i);
      }
    }
  }

  /** A used block is the block of its payload address. */
  lemma BlockOfIs(h: Heap, b: Block)
    requires Valid(h) && b in h.blocks && b.used
    ensures Live(h, b.addr + GRANULE) && BlockOf(h, b.addr + GRANULE) == b
  {
    var i :| 0 <= i < |h.blocks| && h.blocks[i] == b;
    IndexOfBlock(h.blocks, h.base, h.base + h.size, i);
  }

  lemma UsedStaysMalloc(h: Heap, n: u64, b: Block)
    requires Valid(h) && Servable(n) && b in h.blocks && b.used
    ensures b in Allocate(h, n).0.blocks
  {
    var j := FirstFit(h.blocks, Total(n));
    FirstFitIs(h.blocks, Total(n));
    if j < |h.blocks| { AllocStays(h.blocks, j, Total(n), b); }
  }

  lemma UsedStaysFree(h: Heap, p: nat, b: Block)
    requires Valid(h) && Legal(h, Free(p)) && b in h.blocks && b.used && p != b.addr + GRANULE
    ensures b in Exec(h, Free(p)).blocks
  {
    if p != 0 {
      LiveIn(h, p);
      FreeStays(h.blocks, h.base, h.base + h.size, IndexOf(h.blocks, p - GRANULE), b);
    }
  }

  /** Used blocks survive every operation but their own free. */
  lemma UsedStays(h: Heap, op: Op, b: Block)
    requires Valid(h) && Legal(h, op) && b in h.blocks && b.used && op != Free(b.addr + GRANULE)
    ensures b in Exec(h, op).blocks
  {
    match op
    case Malloc(n) => UsedStaysMalloc(h, n, b);
    case Free(p) => UsedStaysFree(h, p, b);
    case Store(_, _, _) =>
  }

  // ----- frames

  /** Two live blocks never share a byte, so neither do their payloads. */
  lemma LiveBlocksApart(h: Heap, b: Block, c: Block)
    requires Valid(h) && b in h.blocks && c in h.blocks && b != c
    ensures b.End() <= c.addr || c.End() <= b.addr
  {
    var i :| 0 <= i < |h.blocks| && h.blocks[i] == b;
    var k :| 0 <= k < |h.blocks| && h.blocks[k] == c;
    OtherApart(h, i, k);
    OtherApart(h, k, i);
  }

  /** The granule of a word of one block is not a granule of another. */
  lemma WordApart(h: Heap, i: nat, j: nat, w: nat)
    requires Valid(h) && i < |h.blocks| && j < |h.blocks| && i != j && WordOf(h.base, h.blocks[i], w)
    ensures !WordOf(h.base, h.blocks[j], w) && GranuleOf(h.base, w) != h.blocks[j].addr
  {
    OtherApart(h, j, i);
    TilesRange(h.blocks, h.base, h.base + h.size, j);
  }

  lemma PrevWordApart(h: Heap, i: nat, j: nat, w: nat)
    requires Valid(h) && i < |h.blocks| && j < |h.blocks| && h.blocks[i].used && WordOf(h.base, h.blocks[i], w)
    ensures GranuleOf(h.base, w) != LastFree(h.blocks[..j])
  {
    PrevInHeap(h, j);
    var prev := LastFree(h.blocks[..j]);
    if prev != 0 {
      var p :| 0 <= p < j && !h.blocks[p].used && h.blocks[p].addr == prev;
      WordApart(h, i, p, w);
    }
  }

  lemma AllocFrame(h: Heap, j: nat, t: nat, i: nat, w: nat)
    requires Valid(h) && j < |h.blocks| && !h.blocks[j].used
    requires 32 <= t <= h.blocks[j].size && t % 16 == 0
    requires i < |h.blocks| && h.blocks[i].used && w < |h.mem| && WordOf(h.base, h.blocks[i], w)
    ensures AllocAt(h, j, t).mem[w] == h.mem[w]
  {
    AllocInHeap(h, j, t); PrevInHeap(h, j); PrevApart(h, j);
    AllocMemWrites(h.mem, h.base, h.blocks[j], LastFree(h.blocks[..j]), t);
    WordApart(h, i, j, w);
    PrevWordApart(h, i, j, w);
  }

  lemma FreeFrame(h: Heap, j: nat, i: nat, w: nat)
    requires Valid(h) && j < |h.blocks| && h.blocks[j].used
    requires i < |h.blocks| && i != j && h.blocks[i].used && w < |h.mem| && WordOf(h.base, h.blocks[i], w)
    ensures FreeAt(h, j).mem[w] == h.mem[w]
  {
    FreeWrites(h, j);
    WordApart(h, i, j, w);
    PrevWordApart(h, i, j, w);
  }

  /**
   No operation changes a word of a live block, header or payload, unless it frees
   that block or is the program's own store to that word.
   */
  lemma ExecFrame(h: Heap, op: Op, b: Block, w: nat)
    requires Valid(h) && Legal(h, op) && b in h.blocks && b.used && op != Free(b.addr + GRANULE)
    requires w < |h.mem| && WordOf(h.base, b, w) && !Writes(h.base, op, w)
    ensures |Exec(h, op).mem| == |h.mem| && Exec(h, op).mem[w] == h.mem[w]
  {
    var i :| 0 <= i < |h.blocks| && h.blocks[i] == b;
    match op
    case Malloc(n) => MallocFrame(h, n, i, w);
    case Free(p) => ReleaseFrame(h, p, i, w);
    case Store(p, k, v) => StoreWrites(h, p, k, v);
  }

  lemma MallocFrame(h: Heap, n: u64, i: nat, w: nat)
    requires Valid(h) && Servable(n) && i < |h.blocks| && h.blocks[i].used
    requires w < |h.mem| && WordOf(h.base, h.blocks[i], w)
    ensures var h' := Allocate(h, n).0; |h'.mem| == |h.mem| && h'.mem[w] == h.mem[w]
  {
    var j := FirstFit(h.blocks, Total(n));
    FirstFitIs(h.blocks, Total(n));
    if Rounded(n) != 0 && Total(n) <= h.freeBytes && j < |h.blocks| {
      ServableTotal(n);
      AllocFrame(h, j, Total(n), i, w);
    }
  }

  lemma ReleaseFrame(h: Heap, p: nat, i: nat, w: nat)
    requires Valid(h) && (p == 0 || Live(h, p)) && i < |h.blocks| && h.blocks[i].used && p != h.blocks[i].addr + GRANULE
    requires w < |h.mem| && WordOf(h.base, h.blocks[i], w)
    ensures var h' := Release(h, p); |h'.mem| == |h.mem| && h'.mem[w] == h.mem[w]
  {
    if p != 0 {
      LiveIn(h, p);
      FreeFrame(h, IndexOf(h.blocks, p - GRANULE), i, w);
    }
  }

  /** The run frees no block at `p` and stores nothing in word `w`. */
  ghost predicate Untouched(base: nat, ops: seq<Op>, p: nat, w: nat) {
    forall op :: op in ops ==> op != Free(p) && !Writes(base, op, w)
  }

  /** The frame over whole runs. */
  lemma {:induction false} RunFrame(h: Heap, ops: seq<Op>, b: Block, w: nat)
    requires Valid(h) && LegalRun(h, ops) && b in h.blocks && b.used
    requires w < |h.mem| && WordOf(h.base, b, w) && Untouched(h.base, ops, b.addr + GRANULE, w)
    ensures var h' := Run(h, ops); b in h'.blocks && |h'.mem| == |h.mem| && h'.mem[w] == h.mem[w]
    decreases |ops|
  {
    if ops != [] {
      ExecKeeps(h, ops[0]);
      assert ops[0] in ops && forall op :: op in ops[1..] ==> op in ops;
      UsedStays(h, ops[0], b);
      ExecFrame(h, ops[0], b, w);
      RunFrame(Exec(h, ops[0]), ops[1..], b, w);
    }
  }

  // ----- double free

  /** The header granule at `a` lies inside an allocated block. */
  ghost predicate Covered(h: Heap, a: nat) {
    exists b :: b in h.blocks && b.used && b.addr <= a < b.End()
  }

  /** `miniheap_free(p)` finds no used magic and panics. */
  predicate FreePanics(h: Heap, p: nat)
    requires p >= GRANULE && At(h.mem, h.base, p - GRANULE)
  {
    MagicAt(h.mem, h.base, p - GRANULE) != MAGIC_USED
  }

  ghost predicate MarkedFree(h: Heap, a: nat) {
    At(h.mem, h.base, a) && MagicAt(h.mem, h.base, a) == MAGIC_FREE && !Covered(h, a)
  }

  lemma GranuleIsWord(m: seq<u32>, base: nat, a: nat)
    requires At(m, base, a)
    ensures GranuleOf(base, Word(base, a)) == a && Word(base, a) < |m|
  {
  }

  lemma AllocMarks(h: Heap, j: nat, t: nat, a: nat)
    requires Valid(h) && j < |h.blocks| && !h.blocks[j].used
    requires 32 <= t <= h.blocks[j].size && t % 16 == 0
    requires MarkedFree(h, a) && !Covered(AllocAt(h, j, t), a)
    ensures MarkedFree(AllocAt(h, j, t), a)
  {
    var h' := AllocAt(h, j, t);
    var b := h.blocks[j];
    AllocInHeap(h, j, t); PrevInHeap(h, j); PrevApart(h, j);
    AllocMemWrites(h.mem, h.base, b, LastFree(h.blocks[..j]), t);
    GranuleIsWord(h.mem, h.base, a);
    AllocStays(h.blocks, j, t, Block(b.addr, t, true));
    assert a != b.addr;
    if a !in AllocGranules(b, LastFree(h.blocks[..j]), t) {
      MagicOutside(h.mem, h'.mem, h.base, AllocGranules(b, LastFree(h.blocks[..j]), t), a);
    }
  }

  lemma FreeUncovers(h: Heap, j: nat, a: nat)
    requires Valid(h) && j < |h.blocks| && h.blocks[j].used && !Covered(h, a)
    ensures !Covered(FreeAt(h, j), a)
  {
    forall b | b in FreeBlocks(h.blocks, j) && b.used ensures !(b.addr <= a < b.End()) {
      FreeStays(h.blocks, h.base, h.base + h.size, j, b);
    }
  }

  /** Words outside the two granules a free writes, as a header word of `a`. */
  lemma MagicOutside(m: seq<u32>, m': seq<u32>, base: nat, gs: set<nat>, a: nat)
    requires SameOutside(m, m', base, gs) && At(m, base, a) && a !in gs
    ensures At(m', base, a) && MagicAt(m', base, a) == MagicAt(m, base, a)
  {
    GranuleIsWord(m, base, a);
    assert m'[Word(base, a)] == m[Word(base, a)];
  }

  /** The magic of the previous free block after a free. */
  lemma PrevMarked(h: Heap, j: nat)
    requires Valid(h) && j < |h.blocks| && h.blocks[j].used && LastFree(h.blocks[..j]) != 0
    ensures var prev := LastFree(h.blocks[..j]);
            At(FreeAt(h, j).mem, h.base, prev) && MagicAt(FreeAt(h, j).mem, h.base, prev) == MAGIC_FREE
  {
    FreeWrites(h, j); PrevInHeap(h, j); JoinsPrev(h, j);
    var p :| 0 <= p < j && !h.blocks[p].used && h.blocks[p].addr == LastFree(h.blocks[..j]);
    BlockInHeap(h, p);
  }

  lemma FreeMarks(h: Heap, j: nat, a: nat)
    requires Valid(h) && j < |h.blocks| && h.blocks[j].used
    requires MarkedFree(h, a)
    ensures MarkedFree(FreeAt(h, j), a)
  {
    FreeUncovers(h, j, a);
    FreeWrites(h, j);
    var prev := LastFree(h.blocks[..j]);
    if a == prev {
      if prev != 0 { PrevMarked(h, j); }
    } else if a != h.blocks[j].addr {
      MagicOutside(h.mem, FreeAt(h, j).mem, h.base, {h.blocks[j].addr, prev}, a);
    }
  }

  lemma StoreMarks(h: Heap, p: nat, k: nat, v: u32, a: nat)
    requires Valid(h) && Live(h, p) && 4 * k < BlockOf(h, p).size - GRANULE
    requires MarkedFree(h, a)
    ensures MarkedFree(StoreAt(h, p, k, v), a)
  {
    StoreWrites(h, p, k, v);
    LiveIn(h, p);
    GranuleIsWord(h.mem, h.base, a);
    assert BlockOf(h, p) in h.blocks;
  }

  /** A free magic outside the allocated blocks stays, until an allocation covers it. */
  lemma ExecMarks(h: Heap, op: Op, a: nat)
    requires Valid(h) && Legal(h, op) && MarkedFree(h, a) && !Covered(Exec(h, op), a)
    ensures MarkedFree(Exec(h, op), a)
  {
    match op
    case Malloc(n) =>
      var j := FirstFit(h.blocks, Total(n));
      FirstFitIs(h.blocks, Total(n));
      if Rounded(n) != 0 && Total(n) <= h.freeBytes && j < |h.blocks| {
        ServableTotal(n);
        AllocMarks(h, j, Total(n), a);
      }
    case Free(p) =>
      if p != 0 { FreeMarks(h, IndexOf(h.blocks, p - GRANULE), a); }
    case Store(p, k, v) =>
      StoreMarks(h, p, k, v, a);
  }

  /** No state that the run passes through has an allocated block over `a`. */
  ghost predicate NeverCovered(h: Heap, ops: seq<Op>, a: nat)
    requires Valid(h) && LegalRun(h, ops)
    decreases |ops|
  {
    !Covered(h, a) && (ops == [] || (ExecKeeps(h, ops[0]); NeverCovered(Exec(h, ops[0]), ops[1..], a)))
  }

  lemma {:induction false} RunMarks(h: Heap, ops: seq<Op>, a: nat)
    requires Valid(h) && LegalRun(h, ops) && NeverCovered(h, ops, a) && MarkedFree(h, a)
    ensures MarkedFree(Run(h, ops), a)
    decreases |ops|
  {
    if ops != [] {
      ExecKeeps(h, ops[0]);
      assert NeverCovered(Exec(h, ops[0]), ops[1..], a);
      ExecMarks(h, ops[0], a);
      RunMarks(Exec(h, ops[0]), ops[1..], a);
    }
  }

  /** Freeing a live block leaves a free magic in its header granule, merged or not. */
  lemma FreeLeavesMark(h: Heap, p: nat)
    requires Valid(h) && Live(h, p)
    ensures MarkedFree(Release(h, p), p - GRANULE)
  {
    var j := IndexOf(h.blocks, p - GRANULE);
    LiveIn(h, p);
    FreeWrites(h, j);
    BlockInHeap(h, j);
    FreedUncovered(h, j);
  }

  /** No allocated block lies over the header of a block that has been freed. */
  lemma FreedUncovered(h: Heap, j: nat)
    requires Valid(h) && j < |h.blocks| && h.blocks[j].used
    ensures !Covered(FreeAt(h, j), h.blocks[j].addr)
  {
    var a := h.blocks[j].addr;
    BlockInHeap(h, j);
    forall b | b in FreeBlocks(h.blocks, j) && b.used ensures !(b.addr <= a < b.End()) {
      FreeStays(h.blocks, h.base, h.base + h.size, j, b);
      LiveBlocksApart(h, h.blocks[j], b);
    }
  }

  /** A second `free(p)` panics until an allocated block next covers the header granule of `p`. */
  lemma DoubleFreePanics(h: Heap, p: nat, ops: seq<Op>)
    requires Valid(h) && Live(h, p)
    requires Valid(Release(h, p)) && LegalRun(Release(h, p), ops)
    requires NeverCovered(Release(h, p), ops, p - GRANULE)
    ensures var h' := Run(Release(h, p), ops);
            At(h'.mem, h'.base, p - GRANULE) && FreePanics(h', p)
  {
    FreeLeavesMark(h, p);
    RunMarks(Release(h, p), ops, p - GRANULE);
  }

  /** A live pointer is freed without a panic. */
  lemma LiveFreeDoesNotPanic(h: Heap, p: nat)
    requires Valid(h) && Live(h, p)
    ensures At(h.mem, h.base, p - GRANULE) && !FreePanics(h, p)
  {
    LiveIn(h, p);
    BlockInHeap(h, IndexOf(h.blocks, p - GRANULE));
  }
}
