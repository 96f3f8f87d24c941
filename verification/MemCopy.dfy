/**
 memcpy and memset of string.c, which move eight bytes at a time and then the rest. Memory
 is one array of bytes, so that the two regions of a copy may overlap.
 */
module MemCopy {
  import opened Words

  type Bytes = seq<u8>

  /**
   What a copy is for: the bytes of the source, as they were, at the destination. It is also what
   loading `n` bytes at once and then storing them does.
   */
  function Moved(m: Bytes, dest: nat, src: nat, n: nat): (r: Bytes)
    requires dest + n <= |m| && src + n <= |m|
    ensures |r| == |m|
  {
    seq(|m|, i requires 0 <= i < |m| => if dest <= i < dest + n then m[src + (i - dest)] else m[i])
  }

  /** A loop that has moved `c` bytes, `size` at a time. */
  function Steps(m: Bytes, dest: nat, src: nat, size: nat, c: nat): (r: Bytes)
    requires size > 0 && dest + c <= |m| && src + c <= |m|
    ensures |r| == |m|
  {
    if c < size then m
    else Moved(Steps(m, dest, src, size, c - size), dest + (c - size), src + (c - size), size)
  }

  /** The word loop, and the byte loop over what is left. */
  function Memcpy(m: Bytes, dest: nat, src: nat, n: nat): (r: Bytes)
    requires dest + n <= |m| && src + n <= |m|
    ensures |r| == |m|
  {
    var words := n / 8 * 8;
    Steps(Steps(m, dest, src, 8, words), dest + words, src + words, 1, n % 8)
  }

  /** memcpy: the two loops, which copy the source where that is safe. */
  method MemcpyCode(mem: array<u8>, dest: nat, src: nat, n: nat)
    requires dest + n <= mem.Length && src + n <= mem.Length
    modifies mem
    ensures mem[..] == Memcpy(old(mem[..]), dest, src, n)
    ensures CopyIsSafe(dest, src, n) ==> mem[..] == Moved(old(mem[..]), dest, src, n)
  {
    ghost var m := mem[..];
    BothLoops(mem, dest, src, n);
    MemcpyIfSafe(m, dest, src, n);
  }

  lemma MemcpyIfSafe(m: Bytes, dest: nat, src: nat, n: nat)
    requires dest + n <= |m| && src + n <= |m|
    ensures CopyIsSafe(dest, src, n) ==> Memcpy(m, dest, src, n) == Moved(m, dest, src, n)
  {
    if CopyIsSafe(dest, src, n) {
      MemcpyMoves(m, dest, src, n);
    }
  }

  method BothLoops(mem: array<u8>, dest: nat, src: nat, n: nat)
    requires dest + n <= mem.Length && src + n <= mem.Length
    modifies mem
    ensures mem[..] == Memcpy(old(mem[..]), dest, src, n)
  {
    var steps := n / 8;
    WordLoop(mem, dest, src, steps);
    ByteLoop(mem, dest + steps * 8, src + steps * 8, n % 8);
  }

  lemma StepsMore(m: Bytes, dest: nat, src: nat, size: nat, c: nat)
    requires size > 0 && dest + c + size <= |m| && src + c + size <= |m|
    ensures Steps(m, dest, src, size, c + size) == Moved(Steps(m, dest, src, size, c), dest + c, src + c, size)
  {
  }

  /** The body of either loop, `c` bytes on. */
  method Advance(mem: array<u8>, ghost m: Bytes, dest: nat, src: nat, size: nat, c: nat)
    requires size > 0 && |m| == mem.Length && dest + c + size <= mem.Length && src + c + size <= mem.Length
    requires mem[..] == Steps(m, dest, src, size, c)
    modifies mem
    ensures mem[..] == Steps(m, dest, src, size, c + size)
  {
    ghost var w := mem[..];
    Copy(mem, dest + c, src + c, size);
    assert mem[..] == Moved(w, dest + c, src + c, size);
    assert mem[..] == Steps(m, dest, src, size, c + size) by {
      StepsMore(m, dest, src, size, c);
    }
  }

  /** The word loop of memcpy. */
  method WordLoop(mem: array<u8>, dest: nat, src: nat, steps: nat)
    requires dest + steps * 8 <= mem.Length && src + steps * 8 <= mem.Length
    modifies mem
    ensures mem[..] == Steps(old(mem[..]), dest, src, 8, steps * 8)
  {
    ghost var m := mem[..];
    var i, offset := 0, 0;
    while i < steps
      invariant i <= steps && offset == i * 8 && mem[..] == Steps(m, dest, src, 8, offset)
    {
      Advance(mem, m, dest, src, 8, offset);
      i, offset := i + 1, offset + 8;
    }
  }

  /** The byte loop of memcpy. */
  method ByteLoop(mem: array<u8>, dest: nat, src: nat, remaining: nat)
    requires dest + remaining <= mem.Length && src + remaining <= mem.Length
    modifies mem
    ensures mem[..] == Steps(old(mem[..]), dest, src, 1, remaining)
  {
    ghost var m := mem[..];
    var i := 0;
    while i < remaining
      invariant i <= remaining && mem[..] == Steps(m, dest, src, 1, i)
    {
      Advance(mem, m, dest, src, 1, i);
      i := i + 1;
    }
  }

  /** One load and one store of `size` bytes. */
  method Copy(mem: array<u8>, dest: nat, src: nat, size: nat)
    requires dest + size <= mem.Length && src + size <= mem.Length
    modifies mem
    ensures mem[..] == Moved(old(mem[..]), dest, src, size)
  {
    var loaded := mem[src..src + size];
    forall i | 0 <= i < size {
      mem[dest + i] := loaded[i];
    }
  }

  // ----- when the copy is right

  /** A copy that has moved `j` bytes, and then moves `size` more whose source is still what it was. */
  lemma OneMore(m: Bytes, dest: nat, src: nat, j: nat, size: nat)
    requires dest + j + size <= |m| && src + j + size <= |m|
    requires dest <= src || dest >= src + j + size || j == 0
    ensures Moved(Moved(m, dest, src, j), dest + j, src + j, size) == Moved(m, dest, src, j + size)
  {
  }

  /** A loop moves its bytes, unless a step after the first loads what an earlier one has stored. */
  lemma {:induction false} StepsMove(m: Bytes, dest: nat, src: nat, size: nat, c: nat)
    requires dest + c <= |m| && src + c <= |m| && (size == 1 || (size == 8 && c % 8 == 0))
    requires dest <= src || dest >= src + c || c == size
    ensures Steps(m, dest, src, size, c) == Moved(m, dest, src, c)
    decreases c
  {
    if c == 0 {
      assert Moved(m, dest, src, 0) == m;
    } else {
      StepsMove(m, dest, src, size, c - size);
      OneMore(m, dest, src, c - size, size);
    }
  }

  predicate CopyIsSafe(dest: nat, src: nat, n: nat) {
    dest <= src || dest >= src + n || n == 8
  }

  /** Where it is safe, memcpy moves the source bytes, and nothing else changes. */
  lemma MemcpyMoves(m: Bytes, dest: nat, src: nat, n: nat)
    requires dest + n <= |m| && src + n <= |m| && CopyIsSafe(dest, src, n)
    ensures Memcpy(m, dest, src, n) == Moved(m, dest, src, n)
  {
    var words := n / 8 * 8;
    StepsMove(m, dest, src, 8, words);
    if n % 8 != 0 {
      StepsMove(Moved(m, dest, src, words), dest + words, src + words, 1, n % 8);
      OneMore(m, dest, src, words, n % 8);
    }
  }

  // ----- when it is not

  function Marked(len: nat, p: nat): Bytes {
    seq(len, i requires 0 <= i < len => if i == p then 1 else 0)
  }

  function Zeros(len: nat): Bytes {
    seq(len, i requires 0 <= i < len => 0)
  }

  lemma {:induction false} ZerosStay(len: nat, dest: nat, src: nat, size: nat, c: nat)
    requires size > 0 && dest + c <= len && src + c <= len
    ensures Steps(Zeros(len), dest, src, size, c) == Zeros(len)
    decreases c
  {
    if c >= size {
      ZerosStay(len, dest, src, size, c - size);
    }
  }

  /** A mark at `p` that has not been loaded yet is lost once zeros have been stored over it. */
  lemma {:induction false} MarkedSteps(len: nat, p: nat, dest: nat, src: nat, size: nat, c: nat)
    requires dest + c <= len && src + c <= len && (size == 1 || (size == 8 && c % 8 == 0)) && src + c <= p < len
    ensures Steps(Marked(len, p), dest, src, size, c) ==
            if dest <= p < dest + c then Zeros(len) else Marked(len, p)
    decreases c
  {
    if c >= size {
      MarkedSteps(len, p, dest, src, size, c - size);
    }
  }

  /** A byte that is loaded after a store over it: the first such byte that the last step loads. */
  function Spoilt(dest: nat, src: nat, n: nat): nat
    requires src < dest < src + n
  {
    if n % 8 != 0 then n - 1 else if dest - src > n - 8 then dest - src else n - 8
  }

  lemma SpoilsTail(len: nat, p: nat, dest: nat, src: nat, words: nat, k: nat)
    requires words % 8 == 0 && 0 < k && src < dest < src + words + k && dest + words + k <= len
    requires p == src + words + k - 1
    ensures Steps(Steps(Marked(len, p), dest, src, 8, words), dest + words, src + words, 1, k) == Zeros(len)
  {
    MarkedSteps(len, p, dest, src, 8, words);
    if dest <= p < dest + words {
      ZerosStay(len, dest + words, src + words, 1, k);
    } else {
      LastByteSpoilt(len, p, dest + words, src + words, k);
    }
  }

  /** The last byte is loaded when an earlier step has stored a zero over it. */
  lemma LastByteSpoilt(len: nat, p: nat, dest: nat, src: nat, k: nat)
    requires 0 < k && src < dest && dest + k <= len && p == src + k - 1 && dest <= p
    ensures Steps(Marked(len, p), dest, src, 1, k) == Zeros(len)
  {
    var m := Marked(len, p);
    MarkedSteps(len, p, dest, src, 1, k - 1);
    StepsMore(m, dest, src, 1, k - 1);
  }

  lemma SpoilsWord(len: nat, p: nat, dest: nat, src: nat, n: nat)
    requires n % 8 == 0 && 16 <= n && src < dest < src + n && dest + n <= len
    requires p == src + Spoilt(dest, src, n)
    ensures Steps(Marked(len, p), dest, src, 8, n) == Zeros(len)
  {
    MarkedSteps(len, p, dest, src, 8, n - 8);
  }

  /** Elsewhere there is a memory that memcpy does not copy: one with a mark at that byte. */
  lemma MemcpySpoils(len: nat, dest: nat, src: nat, n: nat)
    requires dest + n <= len && src + n <= len && !CopyIsSafe(dest, src, n)
    ensures var p := src + Spoilt(dest, src, n);
            p < len && Memcpy(Marked(len, p), dest, src, n) != Moved(Marked(len, p), dest, src, n)
  {
    var t := Spoilt(dest, src, n);
    var p := src + t;
    if n % 8 != 0 {
      SpoilsTail(len, p, dest, src, n / 8 * 8, n % 8);
    } else {
      SpoilsWord(len, p, dest, src, n);
    }
    assert Zeros(len)[dest + t] == 0;
    assert Moved(Marked(len, p), dest, src, n)[dest + t] == 1;
  }

  ghost predicate AlwaysMoves(len: nat, dest: nat, src: nat, n: nat)
    requires dest + n <= len && src + n <= len
  {
    forall m: Bytes :: |m| == len ==> Memcpy(m, dest, src, n) == Moved(m, dest, src, n)
  }

  /**
   memcpy copies every memory right exactly when the destination does not lie above the source
   and inside it; or when it is one word, loaded before it is stored.
   */
  lemma MemcpyExactly(len: nat, dest: nat, src: nat, n: nat)
    requires dest + n <= len && src + n <= len
    ensures AlwaysMoves(len, dest, src, n) <==> CopyIsSafe(dest, src, n)
  {
    if CopyIsSafe(dest, src, n) {
      forall m: Bytes | |m| == len ensures Memcpy(m, dest, src, n) == Moved(m, dest, src, n) {
        MemcpyMoves(m, dest, src, n);
      }
    } else {
      MemcpySpoils(len, dest, src, n);
    }
  }

  // ----- memset

  function Filled(m: Bytes, at: nat, b: u8, n: nat): (r: Bytes)
    requires at + n <= |m|
  {
    seq(|m|, i requires 0 <= i < |m| => if at <= i < at + n then b else m[i])
  }

  /** Byte `i` of a word in memory, the lowest first. */
  function ByteOf(w: nat, i: nat): u8 {
    if i == 0 then w % 0x100 else ByteOf(w / 0x100, i - 1)
  }

  /** `k` copies of a byte, one above the other: the disjoint bits that `|` puts together. */
  function Replicated(b: u8, k: nat): nat {
    if k == 0 then 0 else b + 0x100 * Replicated(b, k - 1)
  }

  lemma {:induction false} ReplicatedBytes(b: u8, k: nat, i: nat)
    requires i < k
    ensures ByteOf(Replicated(b, k), i) == b
  {
    assert Replicated(b, k) / 0x100 == Replicated(b, k - 1);
    if i > 0 {
      ReplicatedBytes(b, k - 1, i - 1);
    }
  }

  /** The word of memset. */
  method ReplicatedWord(b: u8) returns (w: u64)
    ensures w == Replicated(b, 8)
  {
    w := b * 0x100_0000_0000_0000 + b * 0x1_0000_0000_0000 + b * 0x100_0000_0000 + b * 0x1_0000_0000
         + b * 0x100_0000 + b * 0x1_0000 + b * 0x100 + b;
    assert Replicated(b, 1) == b;
    assert Replicated(b, 2) == b + 0x100 * b;
    assert Replicated(b, 3) == b + 0x100 * Replicated(b, 2);
    assert Replicated(b, 5) == b + 0x100 * (b + 0x100 * Replicated(b, 3));
    assert Replicated(b, 7) == b + 0x100 * (b + 0x100 * Replicated(b, 5));
  }

  /** memset: a word loop and a byte loop fill the bytes with the low byte of `c`. */
  method MemsetCode(mem: array<u8>, at: nat, c: int, n: nat)
    requires at + n <= mem.Length
    modifies mem
    ensures mem[..] == Filled(old(mem[..]), at, c % 0x100, n)
  {
    var b: u8 := c % 0x100;
    var steps, remaining := n / 8, n % 8;
    var w := ReplicatedWord(b);
    var i := 0;
    while i < steps
      invariant i <= steps && mem[..] == Filled(old(mem[..]), at, b, i * 8)
    {
      StoreWord(mem, at + i * 8, w, b);
      i := i + 1;
    }
    i := 0;
    while i < remaining
      invariant i <= remaining && mem[..] == Filled(old(mem[..]), at, b, steps * 8 + i)
    {
      mem[at + steps * 8 + i] := b;
      i := i + 1;
    }
  }

  /** A store of eight bytes. */
  method StoreWord(mem: array<u8>, at: nat, w: u64, ghost b: u8)
    requires at + 8 <= mem.Length && w == Replicated(b, 8)
    modifies mem
    ensures mem[..] == Filled(old(mem[..]), at, b, 8)
  {
    forall k | 0 <= k < 8 ensures ByteOf(w, k) == b {
      ReplicatedBytes(b, 8, k);
    }
    forall k | 0 <= k < 8 {
      mem[at + k] := ByteOf(w, k);
    }
  }
}
