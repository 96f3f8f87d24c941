/**
 The in-band heap of src/libc/miniheap.c as a state: the words of the managed
 memory, the two mutable fields of `struct miniheap`, and the tiling of the
 memory into blocks. The tiling is a specification device: HeapDecode shows
 that the words alone determine it.
 */
module HeapModel {
  import opened Words

  const MAGIC_FREE: u32 := 0xDEADBEEF
  const MAGIC_USED: u32 := 0xBEEFDEAD
  /** MINIHEAP_ALIGNMENT, which is also MINIHEAP_USEDHEADER_SIZE. */
  const GRANULE: nat := 16

  datatype Block = Block(addr: nat, size: nat, used: bool) {
    function End(): nat { addr + size }
  }

  datatype Heap = Heap(
    base: nat, size: nat,
    mem: seq<u32>, freeList: nat, freeBytes: nat,
    blocks: seq<Block>)

  // ----- headers overlaid on the memory: magic at +0, size at +4, next (64 bits) at +8

  /** Index of the first of the four words of the granule at address `a`. */
  function Word(base: nat, a: nat): int {
    (a - base) / 16 * 4
  }

  /** `a` is the address of a granule of the memory. */
  predicate At(m: seq<u32>, base: nat, a: nat) {
    base <= a && (a - base) % 16 == 0 && Word(base, a) + 4 <= |m|
  }

  function MagicAt(m: seq<u32>, base: nat, a: nat): u32
    requires At(m, base, a)
  {
    m[Word(base, a)]
  }

  function SizeAt(m: seq<u32>, base: nat, a: nat): u32
    requires At(m, base, a)
  {
    m[Word(base, a) + 1]
  }

  function NextAt(m: seq<u32>, base: nat, a: nat): u64
    requires At(m, base, a)
  {
    m[Word(base, a) + 2] + m[Word(base, a) + 3] * TWO32
  }

  function SetMagic(m: seq<u32>, base: nat, a: nat, v: u32): (r: seq<u32>)
    requires At(m, base, a)
    ensures |r| == |m|
  {
    m[Word(base, a) := v]
  }

  function SetSize(m: seq<u32>, base: nat, a: nat, v: u32): (r: seq<u32>)
    requires At(m, base, a)
    ensures |r| == |m|
  {
    m[Word(base, a) + 1 := v]
  }

  function SetNext(m: seq<u32>, base: nat, a: nat, v: u64): (r: seq<u32>)
    requires At(m, base, a)
    ensures |r| == |m|
  {
    m[Word(base, a) + 2 := v % TWO32][Word(base, a) + 3 := v / TWO32]
  }

  // ----- the tiling

  /** Consecutive blocks that fill [a, e), each a positive multiple of 16 long. */
  ghost predicate Tiles(bs: seq<Block>, a: nat, e: nat) {
    if bs == [] then a == e
    else
      && bs[0].addr == a && bs[0].size > 0 && bs[0].size % 16 == 0
      && (bs[0].used ==> bs[0].size >= 32)
      && Tiles(bs[1..], bs[0].End(), e)
  }

  /** No two free blocks touch. */
  ghost predicate Coalesced(bs: seq<Block>) {
    forall i :: 0 <= i < |bs| - 1 ==> bs[i].used || bs[i + 1].used
  }

  /** Address of the first free block, 0 (NULL) when there is none. */
  function FirstFree(bs: seq<Block>): nat {
    if bs == [] then 0 else if !bs[0].used then bs[0].addr else FirstFree(bs[1..])
  }

  /** Address of the last free block, 0 (NULL) when there is none. */
  function LastFree(bs: seq<Block>): nat {
    if bs == [] then 0
    else if !bs[|bs| - 1].used then bs[|bs| - 1].addr
    else LastFree(bs[..|bs| - 1])
  }

  function FreeSum(bs: seq<Block>): nat {
    if bs == [] then 0 else (if bs[0].used then 0 else bs[0].size) + FreeSum(bs[1..])
  }

  function UsedSum(bs: seq<Block>): nat {
    if bs == [] then 0 else (if bs[0].used then bs[0].size else 0) + UsedSum(bs[1..])
  }

  /** The header of block `i` says what the tiling says; a free block links to the next free one. */
  ghost predicate HeaderOk(m: seq<u32>, base: nat, bs: seq<Block>, i: nat)
    requires i < |bs|
  {
    && At(m, base, bs[i].addr)
    && MagicAt(m, base, bs[i].addr) == (if bs[i].used then MAGIC_USED else MAGIC_FREE)
    && SizeAt(m, base, bs[i].addr) == bs[i].size
    && (!bs[i].used ==> NextAt(m, base, bs[i].addr) == FirstFree(bs[i + 1..]))
  }

  ghost predicate HeadersOk(m: seq<u32>, base: nat, bs: seq<Block>) {
    forall i :: 0 <= i < |bs| ==> HeaderOk(m, base, bs, i)
  }

  /** The range the source's types allow: `base` is a pointer, `size` fits the 32-bit header field. */
  predicate Bounds(h: Heap) {
    && 0 < h.base && h.base + h.size < TWO64
    && 0 < h.size < TWO32 && h.size % 16 == 0
    && |h.mem| == h.size / 4
  }

  /** The memory, the list head and the byte count agree with the tiling, whatever the size of the heap. */
  ghost predicate Agrees(h: Heap) {
    && Tiles(h.blocks, h.base, h.base + h.size)
    && Coalesced(h.blocks)
    && HeadersOk(h.mem, h.base, h.blocks)
    && h.freeList == FirstFree(h.blocks)
    && h.freeBytes == FreeSum(h.blocks)
  }

  ghost predicate Valid(h: Heap) {
    Bounds(h) && Agrees(h)
  }

  // ----- size arithmetic, in the widths the source uses

  /** `(size + align - 1) & ~(align - 1)`: the sum wraps at 64 bits, the 32-bit mask keeps bits 4 to 31. */
  function Rounded(n: u64): u32 {
    var s := (n + GRANULE - 1) % TWO64 % TWO32;
    s - s % 16
  }

  /** `total_size` after the header has been added, in 32 bits. */
  function Total(n: u64): u32 {
    (Rounded(n) + GRANULE) % TWO32
  }

  // ----- what the operations do to a tiling

  /** Index of the first free block of at least `t` bytes, |bs| when there is none. */
  function FirstFit(bs: seq<Block>, t: nat): (j: nat)
    ensures j <= |bs|
  {
    if bs == [] then 0 else if !bs[0].used && bs[0].size >= t then 0 else 1 + FirstFit(bs[1..], t)
  }

  function AllocMid(b: Block, t: nat): seq<Block>
    requires t <= b.size
  {
    if b.size == t then [Block(b.addr, t, true)]
    else [Block(b.addr, t, true), Block(b.addr + t, b.size - t, false)]
  }

  function AllocBlocks(bs: seq<Block>, j: nat, t: nat): seq<Block>
    requires j < |bs| && t <= bs[j].size
  {
    bs[..j] + AllocMid(bs[j], t) + bs[j + 1..]
  }

  /** Index of the block at address `a`, |bs| when no block starts there. */
  function IndexOf(bs: seq<Block>, a: nat): (j: nat)
    ensures j <= |bs|
  {
    if bs == [] then 0 else if bs[0].addr == a then 0 else 1 + IndexOf(bs[1..], a)
  }

  /** First index of the run of blocks that freeing block `j` merges. */
  function MergeFrom(bs: seq<Block>, j: nat): (l: nat)
    requires j < |bs|
    ensures l <= j
  {
    if j > 0 && !bs[j - 1].used then j - 1 else j
  }

  /** One past the last index of that run. */
  function MergeTo(bs: seq<Block>, j: nat): (r: nat)
    requires j < |bs|
    ensures j < r <= |bs|
  {
    if j + 1 < |bs| && !bs[j + 1].used then j + 2 else j + 1
  }

  function Merged(bs: seq<Block>, j: nat): Block
    requires j < |bs|
  {
    var l, r := MergeFrom(bs, j), MergeTo(bs, j);
    Block(bs[l].addr,
          (if l < j then bs[l].size else 0) + bs[j].size + (if r > j + 1 then bs[j + 1].size else 0),
          false)
  }

  function FreeBlocks(bs: seq<Block>, j: nat): seq<Block>
    requires j < |bs|
  {
    bs[..MergeFrom(bs, j)] + [Merged(bs, j)] + bs[MergeTo(bs, j)..]
  }
}
