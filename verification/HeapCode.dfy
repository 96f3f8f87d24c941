/** `struct miniheap` and its operations, in place over the managed memory. */
module HeapCode {
  import opened Words
  import opened HeapModel
  import opened HeapTiling
  import opened HeapSteps
  import opened HeapKeeps
  import opened HeapRuns
  import opened HeapFrames
  import opened HeapDecode

  /** The state `miniheap_init` sets up: one free header, whose size field has 32 bits. */
  function InitState(m: seq<u32>, base: nat, size: u64): Heap
    requires base + size < TWO64 && |m| == size / 4 && size >= 16
  {
    var m' := SetNext(SetSize(SetMagic(m, base, base, MAGIC_FREE), base, base, size % TWO32), base, base, 0);
    Heap(base, size, m', base, size, [Block(base, size, false)])
  }

  /** What it writes. */
  lemma InitWords(m: seq<u32>, base: nat, size: u64)
    requires base + size < TWO64 && |m| == size / 4 && size >= 16
    ensures InitState(m, base, size).mem == [0xDEADBEEF, size % 0x1_0000_0000, 0, 0] + m[4..]
  {
    assert Word(base, base) == 0;
  }

  /**
   Some tiling agrees with the new heap exactly when its size fits the 32-bit header field; and
   then the heap is valid.
   */
  lemma InitValidExactly(m: seq<u32>, base: nat, size: u64)
    requires 0 < base && base + size < TWO64 && |m| == size / 4 && size >= 16 && size % 16 == 0
    ensures (exists bs :: Agrees(InitState(m, base, size).(blocks := bs))) <==> size < TWO32
    ensures size < TWO32 ==> Valid(InitState(m, base, size))
  {
    var h := InitState(m, base, size);
    assert h.(blocks := h.blocks) == h;
    if size < TWO32 {
      InitValid(m, base, size);
    } else {
      forall bs ensures !Agrees(h.(blocks := bs)) {
        TooBigForItsHeader(h.(blocks := bs));
      }
    }
  }

  /** A heap that is all free is one block, whose size a header of 32 bits has to hold. */
  lemma TooBigForItsHeader(h: Heap)
    requires h.size >= TWO32 && h.freeBytes == h.size
    ensures !Agrees(h)
  {
    var bs := h.blocks;
    if Tiles(bs, h.base, h.base + h.size) && Coalesced(bs) && h.freeBytes == FreeSum(bs) {
      AllFreeIsOne(bs, h.base, h.base + h.size);
      assert HeadersOk(h.mem, h.base, bs) ==> HeaderOk(h.mem, h.base, bs, 0);
    }
  }

  lemma InitValid(m: seq<u32>, base: nat, size: u64)
    requires 0 < base && base + size < TWO64 && |m| == size / 4 && size >= 16 && size % 16 == 0 && size < TWO32
    ensures Valid(InitState(m, base, size))
  {
    var h := InitState(m, base, size);
    InitHeader(m, base, size);
    assert h.blocks[1..] == [];
    assert FirstFree(h.blocks) == base && FreeSum(h.blocks) == size;
    assert HeaderOk(h.mem, base, h.blocks, 0);
    assert Tiles(h.blocks[1..], base + size, base + size);
  }

  lemma InitHeader(m: seq<u32>, base: nat, size: u64)
    requires base + size < TWO64 && |m| == size / 4 && size >= 16 && size < TWO32
    ensures FreeHeader(InitState(m, base, size).mem, base, base, size, 0)
  {
  }

  /** A free list head that is marked used fits no tiling. */
  lemma UsedHeadIsInvalid(h: Heap)
    requires At(h.mem, h.base, h.freeList) && h.freeList != 0 && h.base > 0
    requires MagicAt(h.mem, h.base, h.freeList) == MAGIC_USED
    ensures !Agrees(h)
  {
    if Tiles(h.blocks, h.base, h.base + h.size) && h.freeList == FirstFree(h.blocks) {
      var i := FirstFreeIndex(h.blocks, h.base, h.base + h.size);
      assert HeadersOk(h.mem, h.base, h.blocks) ==> HeaderOk(h.mem, h.base, h.blocks, i);
    }
  }

  class MiniHeap {
    var base: nat
    var size: nat
    var freeBytes: nat
    var align: nat
    var freeList: nat
    var mem: array<u32>
    ghost var blocks: seq<Block>

    ghost function State(): Heap
      reads this, mem
    {
      Heap(base, size, mem[..], freeList, freeBytes, blocks)
    }

    ghost predicate Ok()
      reads this, mem
    {
      Valid(State()) && align == GRANULE
    }

    // ----- header fields in place

    method PutMagic(a: nat, v: u32)
      requires At(mem[..], base, a)
      modifies mem
      ensures mem[..] == SetMagic(old(mem[..]), base, a, v)
    {
      mem[Word(base, a)] := v;
    }

    method PutSize(a: nat, v: u32)
      requires At(mem[..], base, a)
      modifies mem
      ensures mem[..] == SetSize(old(mem[..]), base, a, v)
    {
      mem[Word(base, a) + 1] := v;
    }

    method PutNext(a: nat, v: u64)
      requires At(mem[..], base, a)
      modifies mem
      ensures mem[..] == SetNext(old(mem[..]), base, a, v)
    {
      mem[Word(base, a) + 2], mem[Word(base, a) + 3] := v % TWO32, v / TWO32;
    }

    method GetMagic(a: nat) returns (v: u32)
      requires At(mem[..], base, a)
      ensures v == MagicAt(mem[..], base, a)
    {
      v := mem[Word(base, a)];
    }

    method GetSize(a: nat) returns (v: u32)
      requires At(mem[..], base, a)
      ensures v == SizeAt(mem[..], base, a)
    {
      v := mem[Word(base, a) + 1];
    }

    method GetNext(a: nat) returns (v: u64)
      requires At(mem[..], base, a)
      ensures v == NextAt(mem[..], base, a)
    {
      v := mem[Word(base, a) + 2] + mem[Word(base, a) + 3] * TWO32;
    }

    // ----- miniheap_init

    method Init(memory: array<u32>, base: nat, size: u64) returns (panicked: bool)
      requires 0 < base && base + size < TWO64 && memory.Length == size / 4
      modifies this, memory
      ensures panicked <==> size == 0 || size % 16 != 0
      ensures panicked ==> unchanged(this) && unchanged(memory)
      ensures !panicked ==> mem == memory && State() == InitState(old(memory[..]), base, size)
      ensures !panicked ==>
                && this.base == base && this.size == size && freeList == base && freeBytes == size
                && mem[..] == [0xDEADBEEF, size % 0x1_0000_0000, 0, 0] + old(memory[4..])
      ensures !panicked ==> (Ok() <==> size < TWO32)
      ensures !panicked && size >= TWO32 ==> forall bs :: !Agrees(State().(blocks := bs))
    {
      if size == 0 || size % 16 != 0 {
        return true;
      }
      mem := memory;
      this.base := base;
      this.size := size;
      freeBytes := size;
      align := GRANULE;
      PutMagic(base, MAGIC_FREE);
      PutSize(base, size % TWO32);
      PutNext(base, 0);
      freeList := base;
      blocks := [Block(base, size, false)];
      InitWords(old(memory[..]), base, size);
      InitValidExactly(old(memory[..]), base, size);
      return false;
    }

    // ----- miniheap_alloc

    /** A free header after the first `total` bytes of the block at `cur`, linked where it was. */
    method Split(cur: nat, total: u32)
      requires At(mem[..], base, cur) && At(mem[..], base, cur + total)
      requires total <= SizeAt(mem[..], base, cur)
      modifies mem
      ensures var m := old(mem[..]);
              mem[..] == SplitOff(m, base, Block(cur, SizeAt(m, base, cur), false), total)
    {
      var size := GetSize(cur);
      var next := GetNext(cur);
      PutMagic(cur + total, MAGIC_FREE);
      PutSize(cur + total, size - total);
      PutNext(cur + total, next);
    }

    /** `prev->next = target`, or the list head when there is no previous block. */
    method Link(prev: nat, target: u64)
      requires prev != 0 ==> At(mem[..], base, prev)
      modifies mem, `freeList
      ensures mem[..] == LinkPrev(old(mem[..]), base, prev, target)
      ensures freeList == if prev == 0 then target else old(freeList)
    {
      if prev != 0 { PutNext(prev, target); } else { freeList := target; }
    }

    /** The body of the loop once the block at `cur` fits: unlink it, or split it and link the rest. */
    method Take(prev: nat, cur: nat, total: u32)
      requires At(mem[..], base, cur) && (prev != 0 ==> At(mem[..], base, prev))
      requires total <= SizeAt(mem[..], base, cur) && cur + total < TWO64
      requires total < SizeAt(mem[..], base, cur) ==> At(mem[..], base, cur + total)
      modifies mem, `freeList
      ensures var m := old(mem[..]); var b := Block(cur, SizeAt(m, base, cur), false);
              var m1 := if b.size == total then m else SplitOff(m, base, b, total);
              && mem[..] == LinkPrev(m1, base, prev, AllocTarget(m, base, b, total))
              && freeList == if prev == 0 then AllocTarget(m, base, b, total) else old(freeList)
    {
      var size := GetSize(cur);
      if size == total {
        var next := GetNext(cur);
        Link(prev, next);
      } else {
        Split(cur, total);
        Link(prev, cur + total);
      }
    }

    /** Everything but memory and list head is as it was. */
    twostate predicate FieldsKept()
      reads this
    {
      base == old(base) && size == old(size) && align == old(align) && mem == old(mem)
    }

    /** All the words `miniheap_alloc` writes. */
    method Write(prev: nat, cur: nat, total: u32, ghost b: Block)
      requires At(mem[..], base, cur) && (prev != 0 ==> At(mem[..], base, prev))
      requires b == Block(cur, SizeAt(mem[..], base, cur), false) && total <= b.size && cur + total < TWO64
      requires total < b.size ==> At(mem[..], base, cur + total)
      modifies mem, `freeList
      ensures mem[..] == AllocMem(old(mem[..]), base, b, prev, total)
      ensures freeList == if prev == 0 then AllocTarget(old(mem[..]), base, b, total) else old(freeList)
    {
      Take(prev, cur, total);
      PutMagic(cur, MAGIC_USED);
      PutSize(cur, total);
    }

    /** What `miniheap_alloc` does once the loop has stopped at block `j`. */
    method Carve(prev: nat, cur: nat, total: u32, ghost j: nat)
      requires Ok() && j < |blocks| && !blocks[j].used && total <= blocks[j].size && total <= freeBytes
      requires cur == blocks[j].addr && prev == LastFree(blocks[..j])
      requires if total == 0 then prev == 0 else 32 <= total && total % 16 == 0
      modifies this, mem
      ensures FieldsKept()
      ensures total != 0 ==> Ok() && State() == AllocAt(old(State()), j, total)
      ensures total == 0 ==> freeList == cur && forall bs :: !Agrees(State().(blocks := bs))
    {
      ghost var h := State();
      PrevFits(h, j);
      TakeFits(h, j, total);
      Write(prev, cur, total, blocks[j]);
      freeBytes := freeBytes - total;
      if total != 0 {
        blocks := AllocBlocks(blocks, j, total);
        assert State() == AllocAt(h, j, total);
        AllocKeeps(h, j, total);
      } else {
        ZeroTotal(h, blocks[j], State());
      }
    }

    /** The loop of `miniheap_alloc`: the first free block of at least `total` bytes, 0 when there is none. */
    method Search(total: u32) returns (prev: nat, cur: nat, ghost j: nat)
      requires Ok()
      ensures cur == 0 ==> FirstFit(blocks, total) == |blocks|
      ensures cur != 0 ==>
                && j < |blocks| && !blocks[j].used && blocks[j].addr == cur && blocks[j].size >= total
                && prev == LastFree(blocks[..j])
                && (forall i :: 0 <= i < j ==> blocks[i].used || blocks[i].size < total)
      ensures cur == 0 ==> (total == 0 ==> freeList == 0)
      ensures cur != 0 && total == 0 ==> prev == 0 && cur == freeList
    {
      prev, cur := 0, freeList;
      j := 0;
      ghost var k := 0;
      ghost var h := State();
      while cur != 0
        invariant k <= |h.blocks| && cur == FirstFree(h.blocks[k..]) && prev == LastFree(h.blocks[..k])
        invariant forall i :: 0 <= i < k ==> h.blocks[i].used || h.blocks[i].size < total
        invariant total == 0 ==> k == 0 && cur == freeList
        decreases |h.blocks| - k
      {
        j := Current(h, k);
        var size := GetSize(cur);
        if size >= total {
          return;
        }
        prev := cur;
        cur := GetNext(cur);
        k := j + 1;
      }
      NoneFits(h, k, total);
    }

    /**
     `miniheap_alloc`. For the sizes whose total wraps to 0 it marks the first free
     block used and leaves it on the free list, a state that no tiling describes.
     */
    method Alloc(n: u64) returns (p: nat)
      requires Ok()
      modifies this, mem
      ensures FieldsKept()
      ensures Servable(n) ==> Ok() && (State(), p) == Allocate(old(State()), n)
      ensures !Servable(n) && old(freeList) == 0 ==> p == 0 && State() == old(State())
      ensures !Servable(n) && old(freeList) != 0 ==>
                p == old(freeList) + GRANULE && freeList == old(freeList)
                && forall bs :: !Agrees(State().(blocks := bs))
    {
      var total: u32 := Rounded(n);
      if total == 0 {
        return 0;
      }
      total := (total + GRANULE) % TWO32;
      if total > freeBytes {
        return 0;
      }
      ghost var h := State();
      var prev, cur, j := Search(total);
      if cur == 0 {
        return 0;
      }
      if total != 0 { AllocDone(h, n, j); }
      Carve(prev, cur, total, j);
      return cur + GRANULE;
    }

    // ----- miniheap_free

    /** `prev->size += size` and the like. */
    method GrowBy(a: nat, s: u32)
      requires At(mem[..], base, a)
      modifies mem
      ensures mem[..] == Grow(old(mem[..]), base, a, s)
    {
      var size := GetSize(a);
      PutSize(a, (size + s) % TWO32);
    }

    /** Links the block at `a` between `prev` and `cur`, or into `prev` when they touch. */
    method Insert(a: nat, size: u32, prev: nat, cur: u64) returns (into: nat)
      requires At(mem[..], base, a) && (prev != 0 ==> At(mem[..], base, prev)) && a < TWO64
      modifies mem, `freeList
      ensures var m := old(mem[..]); var b := Block(a, size, true);
              && mem[..] == FreeLinkMem(m, base, b, prev, cur) && into == FreeInto(m, base, b, prev)
      ensures freeList == if prev == 0 then a else old(freeList)
    {
      PutMagic(a, MAGIC_FREE);
      var psize := 0;
      if prev != 0 { psize := GetSize(prev); }
      if prev != 0 && prev + psize == a {
        GrowBy(prev, size);
        into := prev;
      } else {
        PutSize(a, size);
        PutNext(a, cur);
        Link(prev, a);
        into := a;
      }
    }

    /** `into` takes over the free block `cur` that follows it. */
    method Join(into: nat, cur: nat)
      requires At(mem[..], base, into) && At(mem[..], base, cur)
      modifies mem
      ensures mem[..] == Absorb(old(mem[..]), base, into, cur)
    {
      var csize := GetSize(cur);
      GrowBy(into, csize);
      var cnext := GetNext(cur);
      PutNext(into, cnext);
    }

    /** The loop of `miniheap_free`: the free blocks on either side of block `b`. */
    method Locate(block: nat, rear: nat, ghost b: nat) returns (prev: nat, cur: nat)
      requires Ok() && b < |blocks| && blocks[b].used && block == blocks[b].addr && rear == blocks[b].End()
      ensures prev == LastFree(blocks[..b]) && cur == FirstFree(blocks[b + 1..])
    {
      prev, cur := 0, freeList;
      ghost var k := 0;
      ghost var h := State();
      while cur != 0 && cur < block
        invariant k <= b && cur == FirstFree(h.blocks[k..]) && prev == LastFree(h.blocks[..k])
        decreases b - k
      {
        if cur >= rear {
          assert false;
          break;
        }
        ghost var j := Current(h, k);
        CurrentBefore(h, b, j);
        prev := cur;
        cur := GetNext(cur);
        k := j + 1;
      }
      FreeStop(h, b, k);
    }

    /**
     `miniheap_free`. The caller passes NULL, a live pointer, or a pointer whose
     header is not marked used, which panics.
     */
    method Free(p: nat) returns (panicked: bool)
      requires Ok()
      requires p != 0 ==> p >= GRANULE && At(mem[..], base, p - GRANULE)
      requires p != 0 && !FreePanics(State(), p) ==> Live(State(), p)
      modifies this, mem
      ensures FieldsKept() && Ok()
      ensures panicked <==> p != 0 && old(FreePanics(State(), p))
      ensures panicked ==> State() == old(State())
      ensures !panicked ==> State() == Release(old(State()), p)
    {
      if p == 0 {
        return false;
      }
      var block := p - GRANULE;
      var magic := GetMagic(block);
      if magic != MAGIC_USED {
        return true;
      }
      ghost var h := State();
      ghost var b := IndexOf(blocks, block);
      FreeStart(h, b, p);
      var size := GetSize(block);
      var prev, cur := Locate(block, block + size, b);
      Splice(block, size, prev, cur, b);
      return false;
    }

    /** All the words `miniheap_free` writes. */
    method WriteFree(block: nat, size: u32, prev: nat, cur: u64)
      requires At(mem[..], base, block) && block < TWO64
      requires (prev != 0 ==> At(mem[..], base, prev)) && (cur != 0 ==> At(mem[..], base, cur))
      modifies mem, `freeList
      ensures mem[..] == FreeMem(old(mem[..]), base, Block(block, size, true), prev, cur)
      ensures freeList == if prev == 0 then block else old(freeList)
    {
      var into := Insert(block, size, prev, cur);
      if cur != 0 && block + size == cur {
        Join(into, cur);
      }
    }

    method Splice(block: nat, size: u32, prev: nat, cur: nat, ghost b: nat)
      requires Ok() && b < |blocks| && blocks[b] == Block(block, size, true)
      requires prev == LastFree(blocks[..b]) && cur == FirstFree(blocks[b + 1..])
      modifies this, mem
      ensures FieldsKept() && Ok() && State() == FreeAt(old(State()), b)
    {
      ghost var h := State();
      FreeFits(h, b);
      WriteFree(block, size, prev, cur);
      freeBytes := freeBytes + size;
      blocks := FreeBlocks(blocks, b);
      assert State() == FreeAt(h, b);
    }

    /** `dump_miniheap`: the free blocks in the order of the list. */
    method Dump() returns (list: seq<Block>)
      requires Ok()
      ensures list == FreeOnes(blocks)
    {
      list := [];
      var cur := freeList;
      ghost var h := State();
      ghost var k := 0;
      while cur != 0
        invariant k <= |blocks| && cur == FirstFree(blocks[k..])
        invariant list + FreeOnes(blocks[k..]) == FreeOnes(blocks)
        decreases |blocks| - k
      {
        ghost var j := Current(h, k);
        FreeOnesSkip(blocks, k, j);
        var size := GetSize(cur);
        list := list + [Block(cur, size, false)];
        cur := GetNext(cur);
        k := j + 1;
      }
      FreeOnesNone(h, k);
    }
  }

  /** The headers that a free writes are in the heap. */
  lemma FreeFits(h: Heap, b: nat)
    requires Valid(h) && b < |h.blocks| && h.blocks[b].used
    ensures var block, prev, cur := h.blocks[b].addr, LastFree(h.blocks[..b]), FirstFree(h.blocks[b + 1..]);
            && At(h.mem, h.base, block) && block < TWO64 && cur < TWO64
            && (prev != 0 ==> At(h.mem, h.base, prev)) && (cur != 0 ==> At(h.mem, h.base, cur))
    ensures Valid(FreeAt(h, b))
  {
    BlockInHeap(h, b);
    PrevInHeap(h, b);
    CurInHeap(h, b);
    FreeKeeps(h, b);
  }

  /** An allocation of 0 bytes leaves a head that is marked used. */
  lemma ZeroTotal(h: Heap, b: Block, h': Heap)
    requires At(h.mem, h.base, b.addr) && 0 < b.size < TWO32 && 0 < b.addr < TWO64 && h'.base == h.base > 0
    requires h'.mem == AllocMem(h.mem, h.base, b, 0, 0) && h'.freeList == b.addr
    ensures forall bs :: !Agrees(h'.(blocks := bs))
  {
    forall bs ensures !Agrees(h'.(blocks := bs)) {
      UsedHeadIsInvalid(h'.(blocks := bs));
    }
  }

  /** What `Take` needs to know of the block the loop stands at. */
  lemma PrevFits(h: Heap, j: nat)
    requires Valid(h) && j <= |h.blocks|
    ensures var prev := LastFree(h.blocks[..j]); prev != 0 ==> At(h.mem, h.base, prev)
  {
    PrevInHeap(h, j);
  }

  lemma TakeFits(h: Heap, j: nat, total: u32)
    requires Valid(h) && j < |h.blocks| && total % 16 == 0
    ensures var b := h.blocks[j];
            && At(h.mem, h.base, b.addr) && 0 < b.size < TWO32 && 0 < b.addr && b.addr + b.size < TWO64
            && SizeAt(h.mem, h.base, b.addr) == b.size
            && (total < b.size ==> At(h.mem, h.base, b.addr + total))
  {
    BlockInHeap(h, j);
    TilesAligned(h.blocks, h.base, h.base + h.size, j);
    if total < h.blocks[j].size {
      GranuleAfter(h.blocks[j].addr - h.base, total);
      GranuleInHeap(h, h.blocks[j].addr + total);
    }
  }

  lemma GranuleAfter(x: nat, y: nat)
    requires x % 16 == 0 && y % 16 == 0
    ensures (x + y) % 16 == 0
  {
  }

  /** The loop has run off the list. */
  lemma NoneFits(h: Heap, k: nat, t: nat)
    requires Valid(h) && k <= |h.blocks| && FirstFree(h.blocks[k..]) == 0
    requires forall i :: 0 <= i < k ==> h.blocks[i].used || h.blocks[i].size < t
    ensures FirstFit(h.blocks, t) == |h.blocks|
  {
    var bs := h.blocks;
    FirstFitIs(bs, t);
    ListEnded(h, k);
  }

  lemma FirstFitAt(bs: seq<Block>, t: nat, j: nat)
    requires j < |bs| && !bs[j].used && bs[j].size >= t
    requires forall i :: 0 <= i < j ==> bs[i].used || bs[i].size < t
    ensures FirstFit(bs, t) == j
  {
    FirstFitIs(bs, t);
  }

  /** The loop has stopped at the first block that fits. */
  lemma AllocDone(h: Heap, n: u64, j: nat)
    requires Valid(h) && Servable(n) && Rounded(n) != 0 && Total(n) <= h.freeBytes
    requires j < |h.blocks| && !h.blocks[j].used && h.blocks[j].size >= Total(n)
    requires forall i :: 0 <= i < j ==> h.blocks[i].used || h.blocks[i].size < Total(n)
    ensures 32 <= Total(n) && Total(n) % 16 == 0
    ensures Allocate(h, n) == (AllocAt(h, j, Total(n)), h.blocks[j].addr + GRANULE)
    ensures Valid(AllocAt(h, j, Total(n)))
  {
    ServableTotal(n);
    FirstFitAt(h.blocks, Total(n), j);
    AllocKeeps(h, j, Total(n));
  }

  /** The block the loop stands at: the first free one from index `k` on. */
  lemma Current(h: Heap, k: nat) returns (j: nat)
    requires Valid(h) && k <= |h.blocks| && FirstFree(h.blocks[k..]) != 0
    ensures k <= j < |h.blocks| && !h.blocks[j].used && h.blocks[j].addr == FirstFree(h.blocks[k..])
    ensures forall i :: k <= i < j ==> h.blocks[i].used
    ensures HeaderOk(h.mem, h.base, h.blocks, j)
    ensures LastFree(h.blocks[..j]) == LastFree(h.blocks[..k])
    ensures LastFree(h.blocks[..j + 1]) == h.blocks[j].addr
  {
    var bs := h.blocks;
    assert bs == bs[..k] + bs[k..];
    TilesSplit(bs[..k], bs[k..], h.base, h.base + h.size);
    var i := FirstFreeIndex(bs[k..], EndOf(bs[..k], h.base), h.base + h.size);
    j := k + i;
    forall x | k <= x < j ensures bs[x].used {
      assert bs[x] == bs[k..][x - k];
    }
    BlockInHeap(h, j);
    LastFreeUsed(bs, k, j);
    LastFreeSkip(bs[..j + 1]);
  }

  lemma {:induction false} LastFreeUsed(bs: seq<Block>, k: nat, j: nat)
    requires k <= j <= |bs| && forall i :: k <= i < j ==> bs[i].used
    ensures LastFree(bs[..j]) == LastFree(bs[..k])
    decreases j
  {
    if k < j {
      assert bs[..j][..j - 1] == bs[..j - 1];
      LastFreeUsed(bs, k, j - 1);
    }
  }

  // ----- the loop of miniheap_free

  lemma FreeStart(h: Heap, b: nat, p: nat)
    requires Valid(h) && Live(h, p) && b == IndexOf(h.blocks, p - GRANULE)
    ensures b < |h.blocks| && h.blocks[b].used && h.blocks[b].addr == p - GRANULE
    ensures HeaderOk(h.mem, h.base, h.blocks, b) && h.blocks[b].size > 0 && p < TWO64
  {
    LiveIn(h, p);
    BlockInHeap(h, b);
  }

  /** A free block before address of block `b` comes before it. */
  lemma CurrentBefore(h: Heap, b: nat, j: nat)
    requires Valid(h) && b < |h.blocks| && h.blocks[b].used && j < |h.blocks| && !h.blocks[j].used
    requires h.blocks[j].addr < h.blocks[b].addr
    ensures j < b
  {
    if b < j {
      TilesOrder(h.blocks, h.base, h.base + h.size, b, j);
      assert false;
    }
  }

  /** From index `k` on there are only used blocks when the list has ended. */
  lemma ListEnded(h: Heap, k: nat)
    requires Valid(h) && k <= |h.blocks| && FirstFree(h.blocks[k..]) == 0
    ensures forall i :: k <= i < |h.blocks| ==> h.blocks[i].used
  {
    var bs := h.blocks;
    var C := bs[k..];
    assert bs == bs[..k] + C;
    TilesSplit(bs[..k], C, h.base, h.base + h.size);
    FirstFreeNone(C, EndOf(bs[..k], h.base), h.base + h.size);
    forall i | k <= i < |bs| ensures bs[i].used { assert C[i - k].used; }
  }

  /** No free block lies between where the loop stopped and block `b`. */
  lemma UsedBetween(h: Heap, b: nat, k: nat)
    requires Valid(h) && k <= b < |h.blocks| && h.blocks[b].used
    requires FirstFree(h.blocks[k..]) == 0 || FirstFree(h.blocks[k..]) >= h.blocks[b].addr
    ensures forall i :: k <= i <= b ==> h.blocks[i].used
  {
    if FirstFree(h.blocks[k..]) == 0 {
      ListEnded(h, k);
    } else {
      var j := Current(h, k);
      if j <= b { PrevFreeApart(h, j, b); }
    }
  }

  /** Where the loop has stopped: `prev` and `cur` are the free neighbours of block `b` in the list. */
  lemma FreeStop(h: Heap, b: nat, k: nat)
    requires Valid(h) && k <= b < |h.blocks| && h.blocks[b].used
    requires FirstFree(h.blocks[k..]) == 0 || FirstFree(h.blocks[k..]) >= h.blocks[b].addr
    ensures LastFree(h.blocks[..b]) == LastFree(h.blocks[..k])
    ensures FirstFree(h.blocks[b + 1..]) == FirstFree(h.blocks[k..])
  {
    UsedBetween(h, b, k);
    LastFreeUsed(h.blocks, k, b);
    FirstFreePast(h, b, k);
  }

  lemma FirstFreePast(h: Heap, b: nat, k: nat)
    requires Valid(h) && k <= b < |h.blocks| && forall i :: k <= i <= b ==> h.blocks[i].used
    ensures FirstFree(h.blocks[b + 1..]) == FirstFree(h.blocks[k..])
  {
    var bs := h.blocks;
    var a, e := EndOf(bs[..k], h.base), h.base + h.size;
    assert bs == bs[..k] + bs[k..];
    TilesSplit(bs[..k], bs[k..], h.base, e);
    var mid := bs[k..b + 1];
    assert bs[k..] == mid + bs[b + 1..];
    TilesSplit(mid, bs[b + 1..], a, e);
    FirstFreeSplit(mid, bs[b + 1..], a, EndOf(mid, a));
    FirstFreeNone(mid, a, EndOf(mid, a));
  }

  // ----- the loop of dump_miniheap

  lemma {:induction false} FreeOnesSkip(bs: seq<Block>, k: nat, j: nat)
    requires k <= j < |bs| && !bs[j].used && forall i :: k <= i < j ==> bs[i].used
    ensures FreeOnes(bs[k..]) == [bs[j]] + FreeOnes(bs[j + 1..])
    decreases j - k
  {
    assert bs[k..][1..] == bs[k + 1..];
    if k < j { FreeOnesSkip(bs, k + 1, j); }
  }

  lemma FreeOnesNone(h: Heap, k: nat)
    requires Valid(h) && k <= |h.blocks| && FirstFree(h.blocks[k..]) == 0
    ensures FreeOnes(h.blocks[k..]) == []
  {
    var bs := h.blocks[k..];
    assert h.blocks == h.blocks[..k] + bs;
    TilesSplit(h.blocks[..k], bs, h.base, h.base + h.size);
    FirstFreeNone(bs, EndOf(h.blocks[..k], h.base), h.base + h.size);
    if FreeOnes(bs) != [] {
      FreeOnesIn(bs, FreeOnes(bs)[0]);
    }
  }
}
