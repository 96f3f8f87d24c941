/** Runs of `malloc`, `free` and stores through live pointers, and what every run keeps. */
module HeapRuns {
  import opened Words
  import opened HeapModel
  import opened HeapTiling
  import opened HeapSteps
  import opened HeapKeeps

  datatype Op = Malloc(n: u64) | Free(p: nat) | Store(p: nat, k: nat, v: u32)

  /** `total_size` has not wrapped to 0: HeapTheorems.HonestExactly says where that is right. */
  predicate Servable(n: u64) {
    Rounded(n) == 0 || Total(n) != 0
  }

  /** `p` is the payload of an allocated block. */
  predicate Live(h: Heap, p: nat) {
    p >= GRANULE && IndexOf(h.blocks, p - GRANULE) < |h.blocks| && h.blocks[IndexOf(h.blocks, p - GRANULE)].used
  }

  /** The block of a live pointer. */
  function BlockOf(h: Heap, p: nat): Block
    requires Live(h, p)
  {
    h.blocks[IndexOf(h.blocks, p - GRANULE)]
  }

  /** The block of a live pointer lies in the heap, on the grid of granules. */
  lemma LiveBlock(h: Heap, p: nat)
    requires Valid(h) && Live(h, p)
    ensures var b := BlockOf(h, p);
            && b.addr == p - GRANULE && h.base <= b.addr < b.End() <= h.base + h.size
            && (p - h.base) % 16 == 0 && (b.End() - h.base) % 16 == 0
  {
    var j := IndexOf(h.blocks, p - GRANULE);
    BlockInHeap(h, j);
    IndexOfIs(h.blocks, p - GRANULE);
    TilesAligned(h.blocks, h.base, h.base + h.size, j);
    TilesSize(h.blocks, h.base, h.base + h.size, j);
  }

  /** Word `k` of the payload from `p` to `end`, as a word of the memory. */
  lemma PayloadWord(base: nat, p: nat, end: nat, k: nat)
    requires base + GRANULE <= p && (p - base) % 16 == 0 && (end - base) % 16 == 0 && p + 4 * k < end
    ensures var w := (p - base) / 4 + k; 0 <= w && 4 * w < end - base && p <= GranuleOf(base, w) < end
  {
  }

  /** A word of a heap of `n` words. */
  lemma WordFits(w: nat, end: nat, size: nat, n: nat)
    requires 4 * w < end <= size && n == size / 4 && size % 16 == 0
    ensures w < n
  {
  }

  lemma StoreIndex(h: Heap, p: nat, k: nat)
    requires Valid(h) && Live(h, p) && 4 * k < BlockOf(h, p).size - GRANULE
    ensures var w := (p - h.base) / 4 + k; var b := BlockOf(h, p);
            0 <= w < |h.mem| && b.addr == p - GRANULE && p <= GranuleOf(h.base, w) < b.End()
  {
    LiveBlock(h, p);
    var end := BlockOf(h, p).End();
    PayloadWord(h.base, p, end, k);
    var w := (p - h.base) / 4 + k;
    assert 4 * w < end - h.base;
    WordFits(w, end - h.base, h.size, |h.mem|);
  }

  /** `miniheap_alloc`: the new heap and the returned pointer, 0 for NULL. */
  function Allocate(h: Heap, n: u64): (Heap, nat)
    requires Valid(h) && Servable(n)
  {
    var t := Total(n);
    var j := FirstFit(h.blocks, t);
    if Rounded(n) == 0 || t > h.freeBytes || j == |h.blocks| then (h, 0)
    else
      FirstFitIs(h.blocks, t);
      (AllocAt(h, j, t), h.blocks[j].addr + GRANULE)
  }

  /** `miniheap_free` of NULL or of a live pointer. */
  function Release(h: Heap, p: nat): Heap
    requires Valid(h) && (p == 0 || Live(h, p))
  {
    if p == 0 then h else FreeAt(h, IndexOf(h.blocks, p - GRANULE))
  }

  /** The program stores `v` in the `k`-th word of the payload at `p`. */
  function StoreAt(h: Heap, p: nat, k: nat, v: u32): Heap
    requires Valid(h) && Live(h, p) && 4 * k < BlockOf(h, p).size - GRANULE
  {
    StoreIndex(h, p, k);
    h.(mem := h.mem[(p - h.base) / 4 + k := v])
  }

  ghost predicate Legal(h: Heap, op: Op)
    requires Valid(h)
  {
    match op
    case Malloc(n) => Servable(n)
    case Free(p) => p == 0 || Live(h, p)
    case Store(p, k, _) => Live(h, p) && 4 * k < BlockOf(h, p).size - GRANULE
  }

  function Exec(h: Heap, op: Op): Heap
    requires Valid(h) && Legal(h, op)
  {
    match op
    case Malloc(n) => Allocate(h, n).0
    case Free(p) => Release(h, p)
    case Store(p, k, v) => StoreAt(h, p, k, v)
  }

  lemma ServableTotal(n: u64)
    requires Servable(n) && Rounded(n) != 0
    ensures 32 <= Total(n) && Total(n) % 16 == 0 && Total(n) == Rounded(n) + 16
  {
  }

  /** A store into a payload changes one word, and no header. */
  lemma StoreWrites(h: Heap, p: nat, k: nat, v: u32)
    requires Valid(h) && Live(h, p) && 4 * k < BlockOf(h, p).size - GRANULE
    ensures var w := (p - h.base) / 4 + k; var b := BlockOf(h, p);
            && 0 <= w < |h.mem| && StoreAt(h, p, k, v).mem == h.mem[w := v]
            && b.addr == p - GRANULE && p <= GranuleOf(h.base, w) < b.End()
  {
    StoreIndex(h, p, k);
  }

  lemma StoreKeeps(h: Heap, p: nat, k: nat, v: u32)
    requires Valid(h) && Live(h, p) && 4 * k < BlockOf(h, p).size - GRANULE
    ensures Valid(StoreAt(h, p, k, v))
  {
    var h' := StoreAt(h, p, k, v);
    var j := IndexOf(h.blocks, p - GRANULE);
    var w := (p - h.base) / 4 + k;
    StoreWrites(h, p, k, v);
    forall i | 0 <= i < |h.blocks| ensures HeaderOk(h'.mem, h.base, h.blocks, i) {
      BlockInHeap(h, i);
      if i != j { OtherApart(h, j, i); }
      StoreMisses(h.mem, h.base, w, v, h.blocks[i].addr);
    }
  }

  lemma StoreMisses(m: seq<u32>, base: nat, w: nat, v: u32, a: nat)
    requires w < |m| && At(m, base, a) && GranuleOf(base, w) != a
    ensures SameHeader(m, m[w := v], base, a)
  {
    assert SameOutside(m, m[w := v], base, {GranuleOf(base, w)});
    SameOutsideHeader(m, m[w := v], base, {GranuleOf(base, w)}, a);
  }

  /** Every operation keeps the heap valid and in place. */
  lemma ExecKeeps(h: Heap, op: Op)
    requires Valid(h) && Legal(h, op)
    ensures Valid(Exec(h, op)) && Exec(h, op).base == h.base && Exec(h, op).size == h.size
  {
    match op
    case Malloc(n) =>
      if Rounded(n) != 0 {
        var t := Total(n);
        ServableTotal(n);
        FirstFitIs(h.blocks, t);
        if t <= h.freeBytes && FirstFit(h.blocks, t) < |h.blocks| {
          AllocKeeps(h, FirstFit(h.blocks, t), t);
        }
      }
    case Free(p) =>
      if p != 0 { FreeKeeps(h, IndexOf(h.blocks, p - GRANULE)); }
    case Store(p, k, v) =>
      StoreKeeps(h, p, k, v);
  }

  /** Every operation of the run is one its caller may ask for. */
  ghost predicate LegalRun(h: Heap, ops: seq<Op>)
    requires Valid(h)
    decreases |ops|
  {
    ops == [] || (Legal(h, ops[0]) && (ExecKeeps(h, ops[0]); LegalRun(Exec(h, ops[0]), ops[1..])))
  }

  ghost function Run(h: Heap, ops: seq<Op>): Heap
    requires Valid(h) && LegalRun(h, ops)
    decreases |ops|
  {
    if ops == [] then h else (ExecKeeps(h, ops[0]); Run(Exec(h, ops[0]), ops[1..]))
  }

  lemma {:induction false} RunKeeps(h: Heap, ops: seq<Op>)
    requires Valid(h) && LegalRun(h, ops)
    ensures Valid(Run(h, ops)) && Run(h, ops).base == h.base && Run(h, ops).size == h.size
    decreases |ops|
  {
    if ops != [] {
      ExecKeeps(h, ops[0]);
      RunKeeps(Exec(h, ops[0]), ops[1..]);
    }
  }
}
