/**
 What print64 of printf.c prints: the text of a 64-bit value, and that text padded to a
 width; and that a reader gets the value back.
 */
module NumberText {
  import opened Words
  import opened Numerals

  const INT_MAX: int := 0x7FFF_FFFF

  type i64 = x: int | -0x8000_0000_0000_0000 <= x < 0x8000_0000_0000_0000

  datatype Option<T> = None | Some(value: T)

  predicate IsNegative(num: i64, sign: bool) { sign && num < 0 }

  /** The value that a number stands for: itself, or its 64 bits read as unsigned. */
  function Meant(num: i64, sign: bool): int {
    if sign then num else num % TWO64
  }

  /** The digits to print; of INT64_MIN too. */
  function Magnitude(num: i64, sign: bool): u64 {
    if IsNegative(num, sign) then -(num as int) else num % TWO64
  }

  function Sign(neg: bool): string { if neg then "-" else "" }

  function Unsigned(d: string, prefix: bool): string { (if prefix then "0x" else "") + d }

  /** The text of a number: sign, prefix, numeral. */
  function Text(num: i64, base: nat, sign: bool, prefix: bool): string
    requires IsBase(base)
  {
    Sign(IsNegative(num, sign)) + Unsigned(Digits(Magnitude(num, sign), base), prefix)
  }

  lemma TextIs(num: i64, base: nat, sign: bool, prefix: bool)
    requires IsBase(base)
    ensures Text(num, base, sign, prefix) ==
            (if sign && num < 0 then "-" else "") + (if prefix then "0x" else "")
            + Digits(if sign && num < 0 then -(num as int) else num % TWO64, base)
  {
    var d := Digits(Magnitude(num, sign), base);
    assert Sign(IsNegative(num, sign)) + Unsigned(d, prefix) ==
           (if sign && num < 0 then "-" else "") + (if prefix then "0x" else "") + d;
  }

  function Repeat(c: char, n: nat): (s: string) {
    seq(n, i => c)
  }

  /** A text padded on the left to a positive width, on the right to a negative one. */
  function Padded(text: string, digit: int, zero: bool): string {
    if digit > |text| then Repeat(if zero then '0' else ' ', digit - |text|) + text
    else if -digit > |text| then text + Repeat(' ', -digit - |text|)
    else text
  }

  /** The output is as long as the text or the width, whichever is longer. */
  lemma PaddedLength(text: string, digit: int, zero: bool)
    ensures |Padded(text, digit, zero)| ==
            if |text| >= digit && |text| >= -digit then |text| else if digit >= 0 then digit else -digit
  {
  }

  /**
   Where the text stands: at the end for a positive width, after zeros or spaces; at the beginning
   for a negative one, before spaces.
   */
  lemma PaddedIs(text: string, digit: int, zero: bool)
    ensures var s := Padded(text, digit, zero);
            && |s| >= |text| && |s| >= digit && |s| >= -digit && (|s| == |text| || |s| == digit || |s| == -digit)
            && (digit > 0 ==> s[|s| - |text|..] == text
                              && forall i :: 0 <= i < |s| - |text| ==> s[i] == if zero then '0' else ' ')
            && (digit <= 0 ==> s[..|text|] == text && forall i :: |text| <= i < |s| ==> s[i] == ' ')
  {
  }

  // ----- a reader

  function TrimLeft(s: string): string {
    if s != [] && s[0] == ' ' then TrimLeft(s[1..]) else s
  }

  function TrimRight(s: string): string {
    if s != [] && s[|s| - 1] == ' ' then TrimRight(s[..|s| - 1]) else s
  }

  function Signed(neg: bool, v: nat): int { if neg then -(v as int) else v }

  /** The number in a field: spaces on either side, an optional minus sign, the prefix if there is one, digits. */
  function Read(s: string, base: nat, prefix: bool): Option<int> {
    var t := TrimRight(TrimLeft(s));
    Number(IsMinus(t), DropPrefix(DropSign(t), prefix), base)
  }

  predicate IsMinus(t: string) { t != [] && t[0] == '-' }

  function DropSign(t: string): string { if IsMinus(t) then t[1..] else t }

  function DropPrefix(m: string, prefix: bool): string {
    if !prefix then m else if |m| >= 2 && m[0] == '0' && m[1] == 'x' then m[2..] else ""
  }

  function Number(neg: bool, d: string, base: nat): Option<int> {
    if d == [] || !IsNumeral(d, base) then None else Some(Signed(neg, Value(d, base)))
  }

  lemma {:induction false} TrimLeftIs(n: nat, t: string)
    requires t != [] && t[0] != ' '
    ensures TrimLeft(Repeat(' ', n) + t) == t
  {
    var s := Repeat(' ', n) + t;
    if n > 0 {
      TrimLeftIs(n - 1, t);
      assert s[1..] == Repeat(' ', n - 1) + t;
    } else {
      assert s == t;
    }
  }

  lemma {:induction false} TrimRightIs(n: nat, t: string)
    requires t != [] && t[|t| - 1] != ' '
    ensures TrimRight(t + Repeat(' ', n)) == t
  {
    var s := t + Repeat(' ', n);
    if n > 0 {
      TrimRightIs(n - 1, t);
      assert s[..|s| - 1] == t + Repeat(' ', n - 1);
    } else {
      assert s == t;
    }
  }

  /** Neither end of a text is a space; nor is any character of it a NUL. */
  lemma TextEnds(neg: bool, d: string, base: nat, prefix: bool)
    requires d != [] && IsNumeral(d, base)
    ensures var t := Sign(neg) + Unsigned(d, prefix);
            t != [] && t[0] != ' ' && t[|t| - 1] != ' ' && forall c :: c in t ==> c != '\0'
  {
    assert IsDigitOf(d[0], base) && IsDigitOf(d[|d| - 1], base);
    var t := Sign(neg) + Unsigned(d, prefix);
    assert t[|t| - 1] == d[|d| - 1];
  }

  /** A sign and a prefix come off again, if what follows is neither. */
  lemma Drops(neg: bool, d: string, prefix: bool)
    requires d != [] && d[0] != '-'
    ensures var t := Sign(neg) + Unsigned(d, prefix);
            IsMinus(t) == neg && DropPrefix(DropSign(t), prefix) == d
  {
    var m := Unsigned(d, prefix);
    var t := Sign(neg) + m;
    assert neg ==> t[1..] == m;
    assert !neg ==> t == m;
    assert prefix ==> m[2..] == d;
  }

  /** A field whose zeros come before a sign or a prefix cannot be read. */
  lemma RejectsZeros(zeros: string, neg: bool, d: string, base: nat, prefix: bool)
    requires zeros != [] && (forall i :: 0 <= i < |zeros| ==> zeros[i] == '0') && d != [] && (neg || prefix)
    ensures var t := zeros + (Sign(neg) + Unsigned(d, prefix));
            Number(IsMinus(t), DropPrefix(DropSign(t), prefix), base) == None
  {
    var t := zeros + (Sign(neg) + Unsigned(d, prefix));
    assert t[0] == '0';
    if prefix {
      assert t[1] in ['0', '-'];
    } else {
      assert t[|zeros|] == '-' && DigitValue('-') == -1;
    }
  }

  lemma TextParts(num: i64, base: nat, sign: bool, prefix: bool) returns (neg: bool, d: string)
    requires IsBase(base)
    ensures neg == IsNegative(num, sign) && Text(num, base, sign, prefix) == Sign(neg) + Unsigned(d, prefix)
    ensures d != [] && IsNumeral(d, base) && Signed(neg, Value(d, base)) == Meant(num, sign)
  {
    neg := IsNegative(num, sign);
    MeantIs(num, sign);
    d := NumeralOf(Magnitude(num, sign), base);
  }

  /** A numeral for `u`. */
  lemma NumeralOf(u: nat, base: nat) returns (d: string)
    requires IsBase(base)
    ensures d == Digits(u, base) && d != [] && IsNumeral(d, base) && Value(d, base) == u
  {
    d := Digits(u, base);
    DigitsRoundTrip(u, base);
  }

  lemma MeantIs(num: i64, sign: bool)
    ensures Signed(IsNegative(num, sign), Magnitude(num, sign)) == Meant(num, sign)
  {
  }

  /**
   The round trip of print64, at every width and in every base: a reader gets the value back,
   save when zeros come before a minus sign or a prefix. print64 would put them before a prefix
   too, but vprintf asks for a prefix only without zeros.
   */
  lemma ReadsBackExactly(num: i64, base: nat, sign: bool, prefix: bool, digit: int, zero: bool)
    requires IsBase(base)
    ensures var text := Text(num, base, sign, prefix);
            Read(Padded(text, digit, zero), base, prefix) == Some(Meant(num, sign))
            <==> !(zero && digit > |text| && (IsNegative(num, sign) || prefix))
  {
    var text := Text(num, base, sign, prefix);
    var neg, d := TextParts(num, base, sign, prefix);
    TextEnds(neg, d, base, prefix);
    if zero && digit > |text| {
      var zeros := Repeat('0', digit - |text|);
      ZerosTrim(zeros, text);
      if neg || prefix {
        RejectsZeros(zeros, neg, d, base, prefix);
      } else {
        LeadingZeros(zeros, d, base);
        Drops(false, zeros + d, false);
        assert Sign(false) + Unsigned(zeros + d, false) == zeros + d && text == d;
      }
    } else {
      SpacesTrim(text, digit, zero);
      assert IsDigitOf(d[0], base);
      Drops(neg, d, prefix);
    }
  }

  lemma ZerosTrim(zeros: string, text: string)
    requires zeros != [] && zeros[0] == '0' && text != [] && text[|text| - 1] != ' '
    ensures TrimRight(TrimLeft(zeros + text)) == zeros + text
  {
  }

  lemma SpacesTrim(text: string, digit: int, zero: bool)
    requires text != [] && text[0] != ' ' && text[|text| - 1] != ' ' && (zero ==> digit <= |text|)
    ensures TrimRight(TrimLeft(Padded(text, digit, zero))) == text
  {
    if digit > |text| {
      TrimLeftIs(digit - |text|, text);
    } else if -digit > |text| {
      TrimRightIs(-digit - |text|, text);
    }
  }
}
