/**
 Positional numerals in bases 2 to 16, as print64 and fetch_digit of printf.c write and
 read them.
 */
module Numerals {
  import opened Words

  const DIGITS: string := "0123456789abcdef"

  predicate IsBase(base: nat) { 2 <= base <= 16 }

  /** The numeral of `u`, most significant digit first. */
  function Digits(u: nat, base: nat): (s: string)
    requires IsBase(base)
    ensures s != []
    decreases u
  {
    DivLess(u, base);
    (if u < base then [] else Digits(u / base, base)) + [DIGITS[u % base]]
  }

  lemma DivLess(u: nat, base: nat)
    requires IsBase(base)
    ensures 0 <= u / base && (u >= base ==> 0 < u / base < u) && (u < base ==> u / base == 0)
  {
    if u >= base {
      assert u == base * (u / base) + u % base;
    }
  }

  lemma DivMod(u: nat, base: nat)
    requires IsBase(base)
    ensures (u / base) * base + u % base == u
  {
  }

  /** The value of a digit, and -1 for any other character. */
  function DigitValue(c: char): int {
    if '0' <= c <= '9' then c as int - '0' as int
    else if 'a' <= c <= 'f' then c as int - 'a' as int + 10
    else -1
  }

  predicate IsDigitOf(c: char, base: nat) { 0 <= DigitValue(c) < base }

  predicate IsNumeral(s: string, base: nat) {
    forall i :: 0 <= i < |s| ==> IsDigitOf(s[i], base)
  }

  /** What a string of digits stands for. */
  function Value(s: string, base: nat): nat
    requires IsNumeral(s, base)
  {
    if s == [] then 0 else Value(s[..|s| - 1], base) * base + DigitValue(s[|s| - 1])
  }

  lemma DigitIs(d: nat, base: nat)
    requires IsBase(base) && d < base
    ensures DigitValue(DIGITS[d]) == d && (DIGITS[d] == '0' <==> d == 0)
  {
  }

  lemma ValueOfLonger(s: string, c: char, base: nat)
    requires IsBase(base) && IsNumeral(s, base) && IsDigitOf(c, base)
    ensures IsNumeral(s + [c], base) && Value(s + [c], base) == Value(s, base) * base + DigitValue(c)
  {
    assert (s + [c])[..|s|] == s;
  }

  lemma OneMoreDigit(u: nat, q: nat, d: nat, s: string, base: nat)
    requires IsBase(base) && d < base && u == q * base + d
    requires IsNumeral(s, base) && Value(s, base) == q
    ensures IsNumeral(s + [DIGITS[d]], base) && Value(s + [DIGITS[d]], base) == u
  {
    DigitIs(d, base);
    ValueOfLonger(s, DIGITS[d], base);
  }

  /** `Digits`, one step unfolded. */
  lemma DigitsAre(u: nat, base: nat)
    requires IsBase(base)
    ensures Digits(u, base) == (if u < base then [] else Digits(u / base, base)) + [DIGITS[u % base]]
  {
  }

  /** The numeral of `u` stands for `u`. */
  lemma {:induction false} DigitsRoundTrip(u: nat, base: nat)
    requires IsBase(base)
    ensures IsNumeral(Digits(u, base), base) && Value(Digits(u, base), base) == u
    decreases u
  {
    DivLess(u, base);
    DivMod(u, base);
    DigitsAre(u, base);
    if u < base {
      OneMoreDigit(u, 0, u % base, [], base);
    } else {
      DigitsRoundTrip(u / base, base);
      OneMoreDigit(u, u / base, u % base, Digits(u / base, base), base);
    }
  }

  /** Only zero starts with a zero, and it is that one digit. */
  lemma {:induction false} NoLeadingZero(u: nat, base: nat)
    requires IsBase(base)
    ensures Digits(u, base)[0] == '0' <==> u == 0
    ensures u == 0 ==> |Digits(u, base)| == 1
    decreases u
  {
    DivLess(u, base);
    DigitIs(u % base, base);
    if u >= base {
      NoLeadingZero(u / base, base);
      assert Digits(u, base)[0] == Digits(u / base, base)[0];
    }
  }

  /** `u` divided by `base`, `i` times. */
  function Quotient(u: nat, base: nat, i: nat): nat
    requires IsBase(base)
  {
    DivLess(u, base);
    if i == 0 then u else Quotient(u / base, base, i - 1)
  }

  /** The digit at place `i` from the right is that of the `i`-th quotient, and there are no more digits than needed. */
  lemma {:induction false} DigitAt(u: nat, base: nat, i: nat)
    requires IsBase(base)
    ensures i < |Digits(u, base)| <==> i == 0 || Quotient(u, base, i) > 0
    ensures i < |Digits(u, base)| ==>
              Digits(u, base)[|Digits(u, base)| - 1 - i] == "0123456789abcdef"[Quotient(u, base, i) % base]
    decreases i
  {
    DivLess(u, base);
    if i > 0 {
      DigitAt(u / base, base, i - 1);
      if u < base { ZeroQuotient(base, i - 1); }
    }
  }

  lemma {:induction false} ZeroQuotient(base: nat, i: nat)
    requires IsBase(base)
    ensures Quotient(0, base, i) == 0
  {
    DivLess(0, base);
    if i > 0 { ZeroQuotient(base, i - 1); }
  }

  function Pow2(n: nat): (p: nat)
    ensures 0 < p
  {
    if n == 0 then 1 else 2 * Pow2(n - 1)
  }

  lemma {:induction false} PowSum(m: nat, n: nat)
    ensures Pow2(m + n) == Pow2(m) * Pow2(n)
  {
    if n > 0 {
      PowSum(m, n - 1);
    }
  }

  /** A number of `n` bits has at most `n` digits, in any base. */
  lemma {:induction false} DigitsFit(u: nat, base: nat, n: nat)
    requires IsBase(base) && 0 < n && u < Pow2(n)
    ensures |Digits(u, base)| <= n
    decreases u
  {
    DivLess(u, base);
    if u >= base {
      assert n > 1;
      HalfAtMost(u, base);
      DigitsFit(u / base, base, n - 1);
    }
  }

  lemma HalfAtMost(u: nat, base: nat)
    requires IsBase(base)
    ensures 2 * (u / base) <= u
  {
    assert u == base * (u / base) + u % base;
    assert base * (u / base) >= 2 * (u / base);
  }

  lemma Pow32()
    ensures Pow2(32) == TWO32
  {
    assert Pow2(2) == 4;
    PowSum(2, 2);
    PowSum(4, 4);
    PowSum(8, 8);
    PowSum(16, 16);
  }

  lemma Pow64()
    ensures Pow2(64) == TWO64
  {
    Pow32();
    PowSum(32, 32);
  }

  lemma WordDigitsFit(u: u64, base: nat)
    requires IsBase(base)
    ensures |Digits(u, base)| <= 64
  {
    Pow64();
    DigitsFit(u, base, 64);
  }

  /** Zeros in front do not change what a numeral stands for. */
  lemma {:induction false} LeadingZeros(zeros: string, s: string, base: nat)
    requires IsBase(base) && (forall i :: 0 <= i < |zeros| ==> zeros[i] == '0') && IsNumeral(s, base)
    ensures IsNumeral(zeros + s, base) && Value(zeros + s, base) == Value(s, base)
    decreases |zeros| + |s|
  {
    var all := zeros + s;
    if s != [] {
      LeadingZeros(zeros, s[..|s| - 1], base);
      assert all[..|all| - 1] == zeros + s[..|s| - 1];
    } else if zeros != [] {
      LeadingZeros(zeros[..|zeros| - 1], s, base);
      assert all[..|all| - 1] == zeros[..|zeros| - 1] + s;
    }
  }

  lemma TimesAtLeast(v: nat, base: nat)
    requires IsBase(base)
    ensures v <= v * base
  {
  }

  /** A longer numeral stands for at least as much. */
  lemma {:induction false} ValueGrows(s: string, k: nat, base: nat)
    requires IsBase(base) && IsNumeral(s, base) && k <= |s|
    ensures Value(s[..k], base) <= Value(s, base)
  {
    if k < |s| {
      ValueGrows(s[..|s| - 1], k, base);
      assert s[..|s| - 1][..k] == s[..k];
      TimesAtLeast(Value(s[..|s| - 1], base), base);
    } else {
      assert s[..k] == s;
    }
  }
}
