/** The bitwise operators of C on 32-bit words, and fields of bits inside such words. */
module Bits {
  import opened Words
  import opened Numerals

  /** Bit `i` of a number. */
  function Bit(n: nat, i: nat): bool {
    if i == 0 then n % 2 == 1 else Bit(n / 2, i - 1)
  }

  /** The number with these bits, lowest first. */
  function FromBits(s: seq<bool>): nat {
    if s == [] then 0 else (if s[0] then 1 else 0) + 2 * FromBits(s[1..])
  }

  lemma {:induction false} BitFromBits(s: seq<bool>, i: nat)
    ensures Bit(FromBits(s), i) == (i < |s| && s[i])
  {
    if s == [] {
      ZeroBit(i);
    } else {
      assert FromBits(s) / 2 == FromBits(s[1..]);
      if i > 0 {
        BitFromBits(s[1..], i - 1);
      }
    }
  }

  lemma ZeroBit(i: nat)
    ensures !Bit(0, i)
  {
  }

  lemma {:induction false} FromBitsFit(s: seq<bool>)
    ensures FromBits(s) < Pow2(|s|)
  {
    if s != [] {
      FromBitsFit(s[1..]);
    }
  }

  /** Bits beyond the size of a number are clear. */
  lemma {:induction false} HighBit(v: nat, n: nat, i: nat)
    requires v < Pow2(n) && n <= i
    ensures !Bit(v, i)
  {
    if n == 0 {
      ZeroBit(i);
    } else {
      HighBit(v / 2, n - 1, i - 1);
    }
  }

  /** The bits of a number that is one less than a power of two. */
  lemma {:induction false} OnesBit(n: nat, i: nat)
    ensures Bit(Pow2(n) - 1, i) == (i < n)
  {
    if n == 0 {
      ZeroBit(i);
    } else {
      assert (Pow2(n) - 1) / 2 == Pow2(n - 1) - 1;
      if i > 0 {
        OnesBit(n - 1, i - 1);
      }
    }
  }

  ghost predicate SameBits(a: nat, b: nat, n: nat) {
    forall i :: 0 <= i < n ==> Bit(a, i) == Bit(b, i)
  }

  /** Numbers are determined by their bits. */
  lemma {:induction false} BitsDetermine(a: nat, b: nat, n: nat)
    requires a < Pow2(n) && b < Pow2(n) && SameBits(a, b, n)
    ensures a == b
  {
    if n > 0 {
      assert Bit(a, 0) == Bit(b, 0);
      forall i | 0 <= i < n - 1 ensures Bit(a / 2, i) == Bit(b / 2, i) {
        assert Bit(a, i + 1) == Bit(b, i + 1);
      }
      BitsDetermine(a / 2, b / 2, n - 1);
    }
  }

  function Word(s: seq<bool>): (r: u32)
    requires |s| == 32
  {
    FromBitsFit(s);
    Pow32();
    FromBits(s)
  }

  // ----- & | ~ <<

  function And(a: u32, b: u32): u32 { Word(seq(32, i requires 0 <= i < 32 => Bit(a, i) && Bit(b, i))) }

  function Or(a: u32, b: u32): u32 { Word(seq(32, i requires 0 <= i < 32 => Bit(a, i) || Bit(b, i))) }

  function Not(a: u32): u32 { Word(seq(32, i requires 0 <= i < 32 => !Bit(a, i))) }

  function Shl(a: u32, n: nat): u32 { Word(seq(32, i requires 0 <= i < 32 => i >= n && Bit(a, i - n))) }

  lemma AndBit(a: u32, b: u32, i: nat)
    requires i < 32
    ensures Bit(And(a, b), i) == (Bit(a, i) && Bit(b, i))
  {
    BitFromBits(seq(32, i requires 0 <= i < 32 => Bit(a, i) && Bit(b, i)), i);
  }

  lemma OrBit(a: u32, b: u32, i: nat)
    requires i < 32
    ensures Bit(Or(a, b), i) == (Bit(a, i) || Bit(b, i))
  {
    BitFromBits(seq(32, i requires 0 <= i < 32 => Bit(a, i) || Bit(b, i)), i);
  }

  lemma NotBit(a: u32, i: nat)
    requires i < 32
    ensures Bit(Not(a), i) == !Bit(a, i)
  {
    BitFromBits(seq(32, i requires 0 <= i < 32 => !Bit(a, i)), i);
  }

  lemma ShlBit(a: u32, n: nat, i: nat)
    requires i < 32
    ensures Bit(Shl(a, n), i) == (i >= n && Bit(a, i - n))
  {
    BitFromBits(seq(32, i requires 0 <= i < 32 => i >= n && Bit(a, i - n)), i);
  }

  // ----- single bits

  /** One bit of a word set or cleared. */
  function BitPut(w: u32, s: nat, b: bool): u32 {
    if b then Or(w, Shl(1, s)) else And(w, Not(Shl(1, s)))
  }

  lemma BitPutIs(w: u32, s: nat, b: bool, i: nat)
    requires s < 32 && i < 32
    ensures Bit(BitPut(w, s, b), i) == if i == s then b else Bit(w, i)
  {
    OrBit(w, Shl(1, s), i);
    AndBit(w, Not(Shl(1, s)), i);
    NotBit(Shl(1, s), i);
    ShlBit(1, s, i);
    assert Pow2(1) == 2;
    if i >= s {
      OnesBit(1, i - s);
    }
  }

  // ----- fields

  /** The field of `n` bits at bit `s`. */
  function Field(w: u32, s: nat, n: nat): nat {
    FromBits(seq(n, i requires 0 <= i < n => Bit(w, s + i)))
  }

  /** `(w & ~(mask << s)) | (v << s)` */
  function Insert(w: u32, mask: u32, v: u32, s: nat): u32 {
    Or(And(w, Not(Shl(mask, s))), Shl(v, s))
  }

  lemma InsertBit(w: u32, mask: u32, v: u32, s: nat, n: nat, i: nat)
    requires s + n <= 32 && mask == Pow2(n) - 1 && v < Pow2(n) && i < 32
    ensures Bit(Insert(w, mask, v, s), i) == if s <= i < s + n then Bit(v, i - s) else Bit(w, i)
  {
    OrBit(And(w, Not(Shl(mask, s))), Shl(v, s), i);
    AndBit(w, Not(Shl(mask, s)), i);
    NotBit(Shl(mask, s), i);
    ShlBit(mask, s, i);
    ShlBit(v, s, i);
    if s <= i {
      OnesBit(n, i - s);
      if s + n <= i {
        HighBit(v, n, i - s);
      }
    }
  }

  lemma FieldBit(w: u32, s: nat, n: nat, i: nat)
    requires i < n
    ensures Bit(Field(w, s, n), i) == Bit(w, s + i)
  {
    BitFromBits(seq(n, i requires 0 <= i < n => Bit(w, s + i)), i);
  }

  lemma FieldFits(w: u32, s: nat, n: nat)
    ensures Field(w, s, n) < Pow2(n)
  {
    FromBitsFit(seq(n, i requires 0 <= i < n => Bit(w, s + i)));
  }

  /** A field reads as what was inserted. */
  lemma FieldInserted(w: u32, mask: u32, v: u32, s: nat, n: nat)
    requires s + n <= 32 && mask == Pow2(n) - 1 && v < Pow2(n)
    ensures Field(Insert(w, mask, v, s), s, n) == v
  {
    var r := Insert(w, mask, v, s);
    FieldFits(r, s, n);
    forall i | 0 <= i < n ensures Bit(Field(r, s, n), i) == Bit(v, i) {
      FieldBit(r, s, n, i);
      InsertBit(w, mask, v, s, n, s + i);
    }
    BitsDetermine(Field(r, s, n), v, n);
  }

  /** Other fields read as before. */
  lemma FieldBeside(w: u32, mask: u32, v: u32, s: nat, n: nat, t: nat)
    requires s + n <= 32 && mask == Pow2(n) - 1 && v < Pow2(n) && t + n <= 32 && (t + n <= s || s + n <= t)
    ensures Field(Insert(w, mask, v, s), t, n) == Field(w, t, n)
  {
    var r := Insert(w, mask, v, s);
    forall i | 0 <= i < n ensures Bit(Field(r, t, n), i) == Bit(Field(w, t, n), i) {
      FieldBit(r, t, n, i);
      FieldBit(w, t, n, i);
      InsertBit(w, mask, v, s, n, t + i);
    }
    FieldFits(r, t, n);
    FieldFits(w, t, n);
    BitsDetermine(Field(r, t, n), Field(w, t, n), n);
  }
}
