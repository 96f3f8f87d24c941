/**
 The console of console.c, seen as the characters written to it, and print64 of printf.c,
 which writes a number backwards into a fixed buffer and prints it with padding.
 */
module Print {
  import opened Words
  import opened Numerals
  import opened NumberText

  /** `sizeof(num) * 8 + 8` */
  const BUF_SIZE: int := 72

  /** `s` holds a C string from `from` on: `text`, then a NUL. */
  ghost predicate HoldsAt(s: seq<char>, from: nat, text: string) {
    && from + |text| < |s| && s[from + |text|] == '\0'
    && forall i :: 0 <= i < |text| ==> s[from + i] == text[i] && text[i] != '\0'
  }

  lemma EndsAt(s: seq<char>, from: nat, text: string, i: nat)
    requires HoldsAt(s, from, text) && i <= |text|
    ensures s[from + i] == '\0' <==> i == |text|
    ensures i < |text| ==> s[from + i] == text[i]
  {
  }

  /** strlen */
  method Strlen(s: seq<char>, from: nat, ghost text: string) returns (len: nat)
    requires HoldsAt(s, from, text)
    ensures len == |text|
  {
    len := 0;
    EndsAt(s, from, text, 0);
    while s[from + len] != '\0'
      invariant len <= |text| && (s[from + len] == '\0' <==> len == |text|)
      decreases |text| - len
    {
      len := len + 1;
      EndsAt(s, from, text, len);
    }
  }

  /** `*--cur = c` */
  method Prepend(buf: array<char>, cur: nat, c: char, ghost tail: string) returns (next: nat)
    requires buf.Length == BUF_SIZE && 0 < cur <= BUF_SIZE - 1 && buf[cur..BUF_SIZE - 1] == tail
    modifies buf
    ensures next == cur - 1 && buf[next..BUF_SIZE - 1] == [c] + tail && buf[BUF_SIZE - 1] == old(buf[BUF_SIZE - 1])
  {
    next := cur - 1;
    buf[next] := c;
  }

  /** The digit loop of print64: the digits of `unum`, written backwards before the last byte. */
  method WriteDigits(buf: array<char>, unum: u64, base: nat) returns (cur: nat)
    requires IsBase(base) && buf.Length == BUF_SIZE
    modifies buf
    ensures 7 <= cur && cur + |Digits(unum, base)| == BUF_SIZE - 1 && buf[cur..BUF_SIZE - 1] == Digits(unum, base)
    ensures buf[BUF_SIZE - 1] == old(buf[BUF_SIZE - 1])
  {
    WordDigitsFit(unum, base);
    ghost var all, tail: string := Digits(unum, base), [];
    cur := BUF_SIZE - 1;
    var u: nat := unum;
    var more := true;
    while more
      invariant cur + |tail| == BUF_SIZE - 1 && buf[cur..BUF_SIZE - 1] == tail
      invariant buf[BUF_SIZE - 1] == old(buf[BUF_SIZE - 1])
      invariant all == Rest(u, base, more) + tail
      decreases more, u
    {
      RestMoves(u, base, tail);
      var q, d := u / base, u % base;
      cur := Prepend(buf, cur, DIGITS[d], tail);
      tail := [DIGITS[d]] + tail;
      u := q;
      more := u != 0;
    }
  }

  /** The digits still to be written. */
  ghost function Rest(u: nat, base: nat, more: bool): string
    requires IsBase(base)
  {
    if more then Digits(u, base) else []
  }

  lemma RestIs(u: nat, base: nat)
    requires IsBase(base)
    ensures 0 <= u / base && (u / base != 0 ==> u / base < u)
    ensures Rest(u, base, true) == Rest(u / base, base, u / base != 0) + [DIGITS[u % base]]
  {
    DivLess(u, base);
  }

  /** One digit moves from those that are left to those that are written. */
  lemma RestMoves(u: nat, base: nat, tail: string)
    requires IsBase(base)
    ensures 0 <= u / base && (u / base != 0 ==> u / base < u)
    ensures Rest(u, base, true) + tail == Rest(u / base, base, u / base != 0) + ([DIGITS[u % base]] + tail)
  {
    RestIs(u, base);
    var front, c := Rest(u / base, base, u / base != 0), [DIGITS[u % base]];
    assert front + c + tail == front + (c + tail);
  }

  /** The safe negation of print64, which holds for INT64_MIN too. */
  method Negate(num: i64, sign: bool) returns (unum: u64, neg: bool)
    ensures unum == Magnitude(num, sign) && neg == IsNegative(num, sign)
  {
    if sign && num < 0 {
      var next: i64 := num + 1;
      var flipped: i64 := -next;
      unum := flipped + 1;
      neg := true;
    } else {
      unum := num % TWO64;
      neg := false;
    }
  }

  /** What print64 leaves in its buffer: the text of the number, before the last byte. */
  method WriteNumber(buf: array<char>, num: i64, base: nat, sign: bool, prefix: bool) returns (cur: nat)
    requires IsBase(base) && buf.Length == BUF_SIZE && buf[BUF_SIZE - 1] == '\0'
    modifies buf
    ensures HoldsAt(buf[..], cur, Text(num, base, sign, prefix))
  {
    var unum, neg := Negate(num, sign);
    cur := WriteDigits(buf, unum, base);
    ghost var d := NumeralOf(unum, base);
    TextEnds(neg, d, base, prefix);
    cur := WriteFront(buf, cur, d, neg, prefix);
  }

  /** The prefix and the sign, in front of the digits. */
  method WriteFront(buf: array<char>, start: nat, ghost d: string, neg: bool, prefix: bool) returns (cur: nat)
    requires buf.Length == BUF_SIZE && buf[BUF_SIZE - 1] == '\0'
    requires 3 <= start <= BUF_SIZE - 1 && buf[start..BUF_SIZE - 1] == d
    requires forall c :: c in Sign(neg) + Unsigned(d, prefix) ==> c != '\0'
    modifies buf
    ensures HoldsAt(buf[..], cur, Sign(neg) + Unsigned(d, prefix))
  {
    cur := start;
    ghost var text := Unsigned(d, prefix);
    if prefix {
      cur := Prepend(buf, cur, 'x', d);
      cur := Prepend(buf, cur, '0', ['x'] + d);
      assert text == ['0'] + (['x'] + d);
    } else {
      assert text == d;
    }
    if neg {
      cur := Prepend(buf, cur, '-', text);
      assert Sign(neg) + text == ['-'] + text;
    } else {
      assert Sign(neg) + text == text;
    }
    Holds(buf[..], cur, Sign(neg) + text);
  }

  lemma Holds(s: seq<char>, cur: nat, text: string)
    requires |s| == BUF_SIZE && s[BUF_SIZE - 1] == '\0' && cur <= BUF_SIZE - 1 && s[cur..BUF_SIZE - 1] == text
    requires forall c :: c in text ==> c != '\0'
    ensures HoldsAt(s, cur, text)
  {
    forall i | 0 <= i < |text| ensures s[cur + i] == text[i] && text[i] != '\0' {
      assert s[cur..BUF_SIZE - 1][i] == text[i] && text[i] in text;
    }
  }

  class Console {
    var out: string

    /** putchar */
    method PutChar(c: char)
      modifies this
      ensures out == old(out) + [c]
    {
      out := out + [c];
    }

    /** puts, which writes no newline */
    method Puts(s: seq<char>, from: nat, ghost text: string)
      requires HoldsAt(s, from, text)
      modifies this
      ensures out == old(out) + text
    {
      var i := 0;
      EndsAt(s, from, text, 0);
      while s[from + i] != '\0'
        invariant i <= |text| && (s[from + i] == '\0' <==> i == |text|) && out == old(out) + text[..i]
        decreases |text| - i
      {
        EndsAt(s, from, text, i);
        PutChar(s[from + i]);
        i := i + 1;
        EndsAt(s, from, text, i);
      }
      assert text[..i] == text;
    }

    /** `while (digit-- > len) putchar(c)` */
    method Pad(c: char, digit: int, len: nat) returns (d: int)
      requires -INT_MAX <= digit <= INT_MAX
      modifies this
      ensures out == old(out) + Repeat(c, if digit > len then digit - len else 0)
      ensures d == if digit > len then len - 1 else digit - 1
    {
      d := digit;
      ghost var k := 0;
      var more := d > len;
      d := d - 1;
      while more
        invariant d == digit - 1 - k && more == (digit - k > len) && (k == 0 || digit - k >= len)
        invariant out == old(out) + Repeat(c, k)
        decreases digit - k
      {
        PutChar(c);
        k := k + 1;
        more := d > len;
        d := d - 1;
      }
    }

    /** The end of print64: the text in the buffer, padded on one side at most. */
    method PrintPadded(buf: array<char>, cur: nat, ghost text: string, digit: int, zero: bool)
      requires HoldsAt(buf[..], cur, text) && text != [] && -INT_MAX <= digit <= INT_MAX
      modifies this
      ensures out == old(out) + Padded(text, digit, zero)
    {
      var len := Strlen(buf[..], cur, text);
      var d := digit;
      if d > 0 {
        d := Pad(if zero then '0' else ' ', d, len);
      }
      Puts(buf[..], cur, text);
      if d < 0 {
        d := Pad(' ', -d, len);
      }
    }

    /**
     print64. INT64_MIN is negated without overflow, the cursor stays in the buffer, and what is
     printed is the text of the number, padded to the width: on the left, with zeros or spaces,
     for a positive width, and on the right, with spaces, for a negative one.
     */
    method Print64(num: i64, base: nat, sign: bool, digit: int, prefix: bool, zero: bool)
      requires IsBase(base) && -INT_MAX <= digit <= INT_MAX
      modifies this
      ensures out == old(out) + Padded(Text(num, base, sign, prefix), digit, zero)
      ensures |out| >= |old(out)| && out[..|old(out)|] == old(out)
      ensures var text := (if sign && num < 0 then "-" else "") + (if prefix then "0x" else "")
                          + Digits(if sign && num < 0 then -(num as int) else num % TWO64, base);
              var s := out[|old(out)|..];
              && |s| >= |text| && |s| >= digit && |s| >= -digit && (|s| == |text| || |s| == digit || |s| == -digit)
              && (digit > 0 ==> s[|s| - |text|..] == text
                                && forall i :: 0 <= i < |s| - |text| ==> s[i] == if zero then '0' else ' ')
              && (digit <= 0 ==> s[..|text|] == text && forall i :: |text| <= i < |s| ==> s[i] == ' ')
    {
      var buf := new char[BUF_SIZE](i => '\0');
      var cur := WriteNumber(buf, num, base, sign, prefix);
      PrintPadded(buf, cur, Text(num, base, sign, prefix), digit, zero);
      TextIs(num, base, sign, prefix);
      PaddedIs(Text(num, base, sign, prefix), digit, zero);
      assert out[|old(out)|..] == Padded(Text(num, base, sign, prefix), digit, zero);
    }
  }
}
