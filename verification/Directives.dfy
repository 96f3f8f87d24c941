/**
 What each directive of vprintf prints, character for character, for every width, flag and
 argument.
 */
module Directives {
  import opened Words
  import opened Numerals
  import opened NumberText
  import opened Formats
  import opened FormatTexts

  /**
   `d` can be the digits of a width that fetch_digit reads without overflow; a zero in front of
   them is the flag.
   */
  predicate IsWidth(zero: bool, d: string) {
    IsNumeral(d, 10) && (d != "" && !zero ==> d[0] != '0') && Value(d, 10) <= INT_MAX - 48
  }

  /** A width, however it is written, is read back. */
  lemma WidthRead(fmt: Chars, i: nat, minus: bool, zero: bool, d: string, rest: string)
    requires i <= |fmt| && fmt[i..] == Spell(minus, zero, d) + rest && IsWidth(zero, d)
    requires rest != "" && !IsDigit(rest[0]) && (rest[0] == '-' ==> minus || zero || d != "")
    ensures WidthAt(fmt, i) == Some(Width(Signed(minus, Value(d, 10)), zero, i + |Spell(minus, zero, d)|))
  {
    SpellSplit(minus, zero, d, rest);
    FrontEndsHere(minus, zero, d, rest);
    var b := WidthFront(fmt, i, minus, zero, d + rest);
    DigitsRead(fmt, b, d, rest);
    WidthFromIs(fmt, minus, zero, b, b + |d|, d);
    Ended(WidthAt(fmt, i), Signed(minus, Value(d, 10)), zero, b + |d|, i + |Spell(minus, zero, d)|);
  }

  lemma Ended(w: Option<Width>, n: int, zero: bool, e: nat, e': nat)
    requires w == Some(Width(n, zero, e)) && e == e'
    ensures w == Some(Width(n, zero, e'))
  {
  }

  lemma DigitsRead(fmt: Chars, b: nat, d: string, rest: string)
    requires b <= |fmt| && fmt[b..] == d + rest && IsNumeral(d, 10) && rest != "" && !IsDigit(rest[0])
    ensures b + |d| <= |fmt| && DigitsEnd(fmt, b) == b + |d| && fmt[b..b + |d|] == d
  {
    DigitsEndIs(fmt, b, d, rest);
  }

  lemma WidthFromIs(fmt: Chars, minus: bool, zero: bool, b: nat, e: nat, d: string)
    requires b <= e <= |fmt| && e == DigitsEnd(fmt, b) && d == fmt[b..e] && IsWidth(zero, d)
    ensures WidthFrom(fmt, minus, zero, b) == Some(Width(Signed(minus, Value(d, 10)), zero, e))
  {
  }

  lemma FrontEndsHere(minus: bool, zero: bool, d: string, rest: string)
    requires IsWidth(zero, d)
    requires rest != "" && !IsDigit(rest[0]) && (rest[0] == '-' ==> minus || zero || d != "")
    ensures FrontEnds(minus, zero, d + rest)
  {
    if d == "" {
      assert d + rest == rest;
    } else {
      assert IsDigitOf(d[0], 10) && (d + rest)[0] == d[0];
    }
  }

  /** A format that is one directive. */
  lemma OneDirective(fmt: Chars, minus: bool, zero: bool, d: string, letters: string, kind: Kind)
    requires fmt == "%" + (if minus then "-" else "") + (if zero then "0" else "") + d + letters
    requires IsWidth(zero, d) && Names(letters, kind) && !IsDigit(letters[0])
    requires letters[0] == '-' ==> minus || zero || d != ""
    ensures NextItem(fmt, 0) == Some((Directive(Signed(minus, Value(d, 10)), zero, kind), |fmt|))
  {
    var w := Spell(minus, zero, d);
    DirectiveText(fmt, w, minus, zero, d, letters);
    WidthRead(fmt, 1, minus, zero, d, letters);
    var next := DirectiveRead(fmt, 0, w, Signed(minus, Value(d, 10)), zero, letters, kind, "");
  }

  lemma DirectiveText(fmt: string, w: string, minus: bool, zero: bool, d: string, letters: string)
    requires fmt == "%" + (if minus then "-" else "") + (if zero then "0" else "") + d + letters
    requires w == Spell(minus, zero, d)
    ensures fmt[0..] == "%" + w + letters + "" && |fmt| >= 1 && fmt[1..] == w + letters
  {
    assert fmt[0..] == fmt && fmt == "%" + (w + letters);
  }

  /** It prints what it shows for its argument. */
  lemma OneItem(fmt: Chars, item: Item, args: seq<Arg>)
    requires fmt != "" && NextItem(fmt, 0) == Some((item, |fmt|))
    ensures Meaning(fmt, 0, args) == Show(item, args)
  {
    MeaningStep(fmt, 0, args);
    var text := Show(item, args);
    assert text.Some? ==> text.value + "" == text.value;
  }

  /** The directives that print a number, and the text of the number. */
  ghost predicate IsNumber(letters: string, arg: Arg, text: string) {
    match arg
    case Int32(v) => letters == "d" && text == (if v < 0 then "-" + Digits(-(v as int), 10) else Digits(v, 10))
    case UInt32(v) => letters == "u" && text == Digits(v, 10)
    case Int64(v) =>
      letters in ["ld", "Ld"] && text == (if v < 0 then "-" + Digits(-(v as int), 10) else Digits(v, 10))
    case UInt64(v) =>
      || (letters in ["lu", "Lu"] && text == Digits(v, 10))
      || (letters in ["x", "lx", "Lx"] && text == Digits(v, 16))
    case Ptr(v) => letters == "p" && text == "0x" + Digits(v, 16)
    case _ => false
  }

  function NumberKind(letters: string): Kind
    requires 1 <= |letters| <= 2
  {
    if |letters| == 1 then KindOf(letters[0]) else LongKindOf(letters[1])
  }

  /** The same table, by kinds. */
  ghost predicate IsNumberKind(kind: Kind, arg: Arg, text: string) {
    match (kind, arg)
    case (Dec, Int32(v)) => text == SignedText(v)
    case (Uns, UInt32(v)) => text == Digits(v, 10)
    case (DecLong, Int64(v)) => text == SignedText(v)
    case (UnsLong, UInt64(v)) => text == Digits(v, 10)
    case (Hex, UInt64(v)) => text == Digits(v, 16)
    case (HexLong, UInt64(v)) => text == Digits(v, 16)
    case (Pointer, Ptr(v)) => text == "0x" + Digits(v, 16)
    case _ => false
  }

  function SignedText(v: int): string { if v < 0 then "-" + Digits(-v, 10) else Digits(v, 10) }

  lemma KindNamed(letters: string, arg: Arg, text: string)
    requires IsNumber(letters, arg, text)
    ensures 1 <= |letters| <= 2 && Names(letters, NumberKind(letters)) && !IsDigit(letters[0]) && letters[0] != '-'
    ensures IsNumberKind(NumberKind(letters), arg, text)
  {
  }

  lemma NumberShown(kind: Kind, arg: Arg, text: string, width: int, zero: bool)
    requires IsNumberKind(kind, arg, text)
    ensures ShowArg(kind, width, zero, arg) == Some(Padded(text, width, zero && !arg.Ptr?))
  {
    if arg.Int32? {
      SignedShown(arg.d, width, zero);
    } else if arg.Int64? {
      SignedShown(arg.i, width, zero);
    } else if arg.UInt32? {
      UnsignedShown(arg.w, width, zero);
    } else {
      WordArgShown(kind, arg, text, width, zero);
    }
  }

  lemma WordArgShown(kind: Kind, arg: Arg, text: string, width: int, zero: bool)
    requires IsNumberKind(kind, arg, text) && (arg.UInt64? || arg.Ptr?)
    ensures ShowArg(kind, width, zero, arg) == Some(Padded(text, width, zero && !arg.Ptr?))
  {
    if arg.Ptr? {
      PointerShown(arg.p, width);
    } else {
      WordShown(arg.x, if kind.UnsLong? then 10 else 16, width, zero);
    }
  }

  lemma UnsignedShown(v: u32, width: int, zero: bool)
    ensures NumberField(v, 10, false, width, false, zero) == Padded(Digits(v, 10), width, zero)
  {
    UnsignedField(v);
  }

  lemma PointerShown(v: u64, width: int)
    ensures NumberField(AsSigned(v), 16, false, width, true, false) == Padded("0x" + Digits(v, 16), width, false)
  {
    Prefixed(v);
  }

  lemma SignedShown(v: i64, width: int, zero: bool)
    ensures NumberField(v, 10, true, width, false, zero) == Padded(SignedText(v), width, zero)
  {
    SignedField(v);
  }

  lemma WordShown(v: u64, base: nat, width: int, zero: bool)
    requires IsBase(base)
    ensures NumberField(AsSigned(v), base, false, width, false, zero) == Padded(Digits(v, base), width, zero)
  {
    PlainWord(v, base);
  }

  lemma SignedField(v: i64)
    ensures NumberText.Text(v, 10, true, false) == SignedText(v)
  {
    assert v >= 0 ==> v % TWO64 == v;
    Plain(v, 10, true);
  }

  lemma UnsignedField(v: u32)
    ensures NumberText.Text(v, 10, false, false) == Digits(v, 10)
  {
    assert v % TWO64 == v;
    Plain(v, 10, false);
  }

  lemma PlainWord(v: u64, base: nat)
    requires IsBase(base)
    ensures NumberText.Text(AsSigned(v), base, false, false) == Digits(v, base)
  {
    assert AsSigned(v) % TWO64 == v;
    Plain(AsSigned(v), base, false);
  }

  lemma Prefixed(v: u64)
    ensures NumberText.Text(AsSigned(v), 16, false, true) == "0x" + Digits(v, 16)
  {
    assert AsSigned(v) % TWO64 == v;
    TextIs(AsSigned(v), 16, false, true);
    assert "" + "0x" + Digits(v, 16) == "0x" + Digits(v, 16);
  }

  lemma Plain(num: i64, base: nat, sign: bool)
    requires IsBase(base)
    ensures NumberText.Text(num, base, sign, false) ==
            if sign && num < 0 then "-" + Digits(-(num as int), base) else Digits(num % TWO64, base)
  {
    TextIs(num, base, sign, false);
    var n: nat := if sign && num < 0 then -(num as int) else num % TWO64;
    assert (if sign && num < 0 then "-" else "") + "" + Digits(n, base) ==
           if sign && num < 0 then "-" + Digits(n, base) else Digits(n, base);
  }

  /** A format that is one directive for a number means its text, padded. */
  lemma NumberMeans(fmt: Chars, minus: bool, zero: bool, d: string, letters: string, arg: Arg, text: string)
    requires fmt == "%" + (if minus then "-" else "") + (if zero then "0" else "") + d + letters
    requires IsWidth(zero, d) && IsNumber(letters, arg, text)
    ensures Meaning(fmt, 0, []) == None
    ensures Meaning(fmt, 0, [arg]) == Some(Padded(text, Signed(minus, Value(d, 10)), zero && !arg.Ptr?))
  {
    KindNamed(letters, arg, text);
    var kind, width := NumberKind(letters), Signed(minus, Value(d, 10));
    OneDirective(fmt, minus, zero, d, letters, kind);
    OneItem(fmt, Directive(width, zero, kind), [arg]);
    OneItem(fmt, Directive(width, zero, kind), []);
    NumberShown(kind, arg, text, width, zero);
  }

  /**
   What a directive for a number prints: the text of the number, as wide as the width at least;
   on the right of spaces, or of zeros where the flag asks for them; on the left of spaces where
   the width has a minus sign. `%p` never has zeros. Without its argument it prints nothing.
   */
  lemma NumberPrinted(fmt: Chars, minus: bool, zero: bool, d: string, letters: string, arg: Arg, text: string)
    requires fmt == "%" + (if minus then "-" else "") + (if zero then "0" else "") + d + letters
    requires IsWidth(zero, d) && IsNumber(letters, arg, text)
    ensures Meaning(fmt, 0, []) == None && Meaning(fmt, 0, [arg]).Some?
    ensures var s, n := Meaning(fmt, 0, [arg]).value, Value(d, 10);
            && |s| == (if n > |text| then n else |text|)
            && if minus
               then s[..|text|] == text && forall i :: |text| <= i < |s| ==> s[i] == ' '
               else s[|s| - |text|..] == text
                    && forall i :: 0 <= i < |s| - |text| ==> s[i] == if zero && !arg.Ptr? then '0' else ' '
  {
    NumberMeans(fmt, minus, zero, d, letters, arg, text);
    PaddedIs(text, Signed(minus, Value(d, 10)), zero && !arg.Ptr?);
  }

  /**
   Each number reads back, signed or unsigned and in the base that its directive asks for, save
   when zeros come before a minus sign.
   */
  lemma NumberReadsBack(fmt: Chars, minus: bool, zero: bool, d: string, letters: string, arg: Arg, text: string)
    requires fmt == "%" + (if minus then "-" else "") + (if zero then "0" else "") + d + letters
    requires IsWidth(zero, d) && IsNumber(letters, arg, text)
    ensures Meaning(fmt, 0, [arg]).Some?
    ensures var s, cutOff := Meaning(fmt, 0, [arg]).value, zero && !minus && Value(d, 10) > |text|;
            match arg
            case Int32(v) => Read(s, 10, false) == Some(v) <==> !(cutOff && v < 0)
            case UInt32(v) => Read(s, 10, false) == Some(v)
            case Int64(v) => Read(s, 10, false) == Some(v) <==> !(cutOff && v < 0)
            case UInt64(v) => Read(s, if letters in ["lu", "Lu"] then 10 else 16, false) == Some(v)
            case Ptr(v) => Read(s, 16, true) == Some(v)
            case _ => true
  {
    NumberMeans(fmt, minus, zero, d, letters, arg, text);
    FieldReadsBack(letters, arg, text, Signed(minus, Value(d, 10)), zero);
  }

  lemma FieldReadsBack(letters: string, arg: Arg, text: string, width: int, zero: bool)
    requires IsNumber(letters, arg, text)
    ensures var s, cutOff := Padded(text, width, zero && !arg.Ptr?), zero && width > |text|;
            match arg
            case Int32(v) => Read(s, 10, false) == Some(v) <==> !(cutOff && v < 0)
            case UInt32(v) => Read(s, 10, false) == Some(v)
            case Int64(v) => Read(s, 10, false) == Some(v) <==> !(cutOff && v < 0)
            case UInt64(v) => Read(s, if letters in ["lu", "Lu"] then 10 else 16, false) == Some(v)
            case Ptr(v) => Read(s, 16, true) == Some(v)
            case _ => true
  {
    match arg
    case Int32(v) => assert text == SignedText(v); SignedReadsBack(v, text, width, zero);
    case UInt32(v) => WordReadsBack(v, 10, width, zero);
    case Int64(v) => assert text == SignedText(v); SignedReadsBack(v, text, width, zero);
    case UInt64(v) => WordReadsBack(v, if letters in ["lu", "Lu"] then 10 else 16, width, zero);
    case Ptr(v) => PointerReadsBack(v, width);
  }

  lemma SignedReadsBack(v: i64, text: string, width: int, zero: bool)
    requires text == SignedText(v)
    ensures Read(Padded(text, width, zero), 10, false) == Some(v) <==> !(zero && width > |text| && v < 0)
  {
    SignedField(v);
    ReadsBackExactly(v, 10, true, false, width, zero);
  }

  lemma WordReadsBack(v: u64, base: nat, width: int, zero: bool)
    requires IsBase(base)
    ensures Read(Padded(Digits(v, base), width, zero), base, false) == Some(v)
  {
    PlainWord(v, base);
    MeantWord(v);
    ReadsBackExactly(AsSigned(v), base, false, false, width, zero);
  }

  lemma PointerReadsBack(v: u64, width: int)
    ensures Read(Padded("0x" + Digits(v, 16), width, false), 16, true) == Some(v)
  {
    Prefixed(v);
    MeantWord(v);
    ReadsBackExactly(AsSigned(v), 16, false, true, width, false);
  }

  lemma MeantWord(v: u64)
    ensures Meant(AsSigned(v), false) == v
  {
  }

  /** The directives that print characters, and those that vprintf does not know, at any width. */
  ghost predicate IsCharacters(letters: string, args: seq<Arg>, s: string) {
    if letters == "c" then |args| == 1 && args[0].Char? && s == [args[0].c]
    else if letters == "s" then
      |args| == 1 && args[0].Text? && s == if args[0].s == None then "(null)" else args[0].s.value
    else
      && args == []
      && ((letters == "%" && s == "%")
          || (|letters| == 1 && letters[0] !in "duxplLcs%0123456789" && s == "%" + letters)
          || (|letters| == 2 && letters[0] in "lL" && letters[1] !in "dux" && s == "%l" + letters[1..]))
  }

  lemma CharacterKind(letters: string, args: seq<Arg>, s: string, width: int, zero: bool)
    requires IsCharacters(letters, args, s)
    ensures 1 <= |letters| <= 2 && !IsDigit(letters[0]) && Names(letters, NumberKind(letters))
    ensures Show(Directive(width, zero, NumberKind(letters)), args) == Some(s)
  {
    if |letters| == 1 {
      assert letters == [letters[0]] && "%" + letters == ['%', letters[0]];
    } else {
      assert "%l" + letters[1..] == ['%', 'l', letters[1]];
    }
  }

  /** `%c` prints its character and `%s` its string, or "(null)"; `%%` a percent; others themselves. */
  lemma CharactersPrinted(fmt: Chars, minus: bool, zero: bool, d: string, letters: string, args: seq<Arg>, s: string)
    requires fmt == "%" + (if minus then "-" else "") + (if zero then "0" else "") + d + letters
    requires IsWidth(zero, d) && IsCharacters(letters, args, s)
    requires letters[0] == '-' ==> minus || zero || d != ""
    ensures Meaning(fmt, 0, args) == Some(s)
  {
    var width := Signed(minus, Value(d, 10));
    CharacterKind(letters, args, s, width, zero);
    OneDirective(fmt, minus, zero, d, letters, NumberKind(letters));
    OneItem(fmt, Directive(width, zero, NumberKind(letters)), args);
  }

  /** Text without a percent prints as it is. */
  lemma {:induction false} PlainTextPrinted(fmt: Chars, i: nat, args: seq<Arg>)
    requires i <= |fmt| && '%' !in fmt
    ensures Meaning(fmt, i, args) == Some(fmt[i..])
    decreases |fmt| - i
  {
    if i < |fmt| {
      MeaningStep(fmt, i, args);
      PlainTextPrinted(fmt, i + 1, args);
      assert fmt[i] in fmt && NextItem(fmt, i) == Some((Literal(fmt[i]), i + 1));
      assert args[0..] == args && [fmt[i]] + fmt[i + 1..] == fmt[i..];
    } else {
      assert fmt[i..] == "";
    }
  }
}
