/**
 How literals and directives are written down as a format string, and that reading it back
 gives them again.
 */
module FormatTexts {
  import opened Words
  import opened Numerals
  import opened NumberText
  import opened Formats

  /** How a kind of directive is written. */
  function KindText(kind: Kind): string {
    match kind
    case Dec => "d"
    case Uns => "u"
    case Hex => "x"
    case Pointer => "p"
    case DecLong => "ld"
    case UnsLong => "lu"
    case HexLong => "lx"
    case Character => "c"
    case Str => "s"
    case Percent => "%"
    case Other(c) => [c]
    case OtherLong(c) => ['l', c]
  }

  function Numeral(width: int): (d: string) {
    if width == 0 then "" else Digits(Size(width), 10)
  }

  /** How a width is written: sign, flag, decimal numeral. */
  function WidthText(width: int, zero: bool): string {
    Spell(width < 0, zero, Numeral(width))
  }

  function Spell(neg: bool, zero: bool, d: string): string {
    Sign(neg) + (if zero then "0" else "") + d
  }

  function Size(width: int): nat { if width < 0 then -width else width }

  function ItemText(item: Item): string {
    match item
    case Literal(c) => [c]
    case Directive(width, zero, kind) => "%" + WidthText(width, zero) + KindText(kind)
  }

  function FormatText(items: seq<Item>): string {
    if items == [] then "" else ItemText(items[0]) + FormatText(items[1..])
  }

  /** The items that a format can hold: no character stands for what another item is. */
  predicate Writable(item: Item) {
    match item
    case Literal(c) => c != '%' && c != '\0'
    case Directive(width, zero, kind) =>
      && Size(width) <= INT_MAX - 48
      && match kind
         case Other(c) =>
           && c !in ['d', 'u', 'x', 'p', 'l', 'L', 'c', 's', '%', '\0'] && !IsDigit(c)
           && (c == '-' ==> width != 0 || zero)
         case OtherLong(c) => c !in ['d', 'u', 'x', '\0']
         case _ => true
  }

  lemma FirstAndRest(fmt: string, i: nat, d: string, rest: string)
    requires i <= |fmt| && fmt[i..] == d + rest && d != ""
    ensures i < |fmt| && fmt[i] == d[0] && fmt[i + 1..] == d[1..] + rest && fmt[i..i + |d|] == d
  {
    assert fmt[i] == fmt[i..][0] && fmt[i + 1..] == fmt[i..][1..];
    assert fmt[i..i + |d|] == fmt[i..][..|d|];
  }

  /** Digits end where the first other character stands. */
  lemma {:induction false} DigitsEndIs(fmt: Chars, i: nat, d: string, rest: string)
    requires i <= |fmt| && fmt[i..] == d + rest && IsNumeral(d, 10) && (rest == [] || !IsDigit(rest[0]))
    ensures DigitsEnd(fmt, i) == i + |d| && fmt[i..i + |d|] == d
    decreases |d|
  {
    if d != [] {
      FirstAndRest(fmt, i, d, rest);
      assert IsDigitOf(d[0], 10);
      DigitsEndIs(fmt, i + 1, d[1..], rest);
    } else if rest != [] {
      assert fmt[i] == rest[0];
    }
  }

  /** `d` is a numeral for the size of `width`, as a width has it: none for zero, no zero in front. */
  predicate IsNumeralFor(d: string, width: int) {
    && IsNumeral(d, 10) && Value(d, 10) == Size(width)
    && (d == "" <==> width == 0)
    && (d != "" ==> d[0] != '0' && d[0] != '-')
  }

  lemma NumeralIs(width: int)
    ensures IsNumeralFor(Numeral(width), width)
  {
    if width != 0 {
      var d := NumeralOf(Size(width), 10);
      NoLeadingZero(Size(width), 10);
      assert IsDigitOf(d[0], 10);
    }
  }

  /** What may follow a width: nothing that would be read as part of it. */
  predicate EndsWidth(width: int, zero: bool, rest: string) {
    rest == [] || (!IsDigit(rest[0]) && (width == 0 && !zero ==> rest[0] != '-'))
  }

  /** `fetch_digit` inverts decimal printing, exactly up to INT_MAX - 48. */
  lemma WidthRoundTrip(fmt: Chars, i: nat, width: int, zero: bool, rest: string)
    requires i <= |fmt| && fmt[i..] == WidthText(width, zero) + rest && EndsWidth(width, zero, rest)
    ensures WidthAt(fmt, i) ==
            if Size(width) + 48 > INT_MAX then None else Some(Width(width, zero, i + |WidthText(width, zero)|))
  {
    NumeralIs(width);
    SpelledRoundTrip(fmt, i, width, zero, Numeral(width), rest);
  }

  lemma SpellSplit(neg: bool, zero: bool, d: string, rest: string)
    ensures Spell(neg, zero, d) + rest == Spell(neg, zero, "") + (d + rest)
    ensures |Spell(neg, zero, d)| == (if neg then 1 else 0) + (if zero then 1 else 0) + |d|
  {
  }

  lemma SpelledRoundTrip(fmt: Chars, i: nat, width: int, zero: bool, d: string, rest: string)
    requires i <= |fmt| && fmt[i..] == Spell(width < 0, zero, d) + rest
    requires IsNumeralFor(d, width) && EndsWidth(width, zero, rest)
    ensures WidthAt(fmt, i) ==
            if Size(width) + 48 > INT_MAX then None else Some(Width(width, zero, i + |Spell(width < 0, zero, d)|))
  {
    SpellSplit(width < 0, zero, d, rest);
    SplitRoundTrip(fmt, i, width, zero, d, rest);
  }

  lemma SplitRoundTrip(fmt: Chars, i: nat, width: int, zero: bool, d: string, rest: string)
    requires i <= |fmt| && fmt[i..] == Spell(width < 0, zero, "") + (d + rest)
    requires IsNumeralFor(d, width) && EndsWidth(width, zero, rest)
    ensures WidthAt(fmt, i) ==
            if Size(width) + 48 > INT_MAX then None
            else Some(Width(width, zero, i + (if width < 0 then 1 else 0) + (if zero then 1 else 0) + |d|))
  {
    FrontEndsAt(width, zero, d, rest);
    var b := WidthFront(fmt, i, width < 0, zero, d + rest);
    WidthBack(fmt, b, width, zero, d, rest);
  }

  predicate FrontEnds(neg: bool, zero: bool, rest: string) {
    rest == [] || zero || (rest[0] != '0' && (!neg ==> rest[0] != '-'))
  }

  lemma FrontEndsAt(width: int, zero: bool, d: string, rest: string)
    requires IsNumeralFor(d, width) && EndsWidth(width, zero, rest)
    ensures FrontEnds(width < 0, zero, d + rest)
  {
    assert d == "" ==> d + rest == rest;
  }

  lemma WidthFront(fmt: Chars, i: nat, neg: bool, zero: bool, rest: string) returns (b: nat)
    requires i <= |fmt| && fmt[i..] == Spell(neg, zero, "") + rest
    requires FrontEnds(neg, zero, rest)
    ensures b == i + (if neg then 1 else 0) + (if zero then 1 else 0) <= |fmt| && fmt[b..] == rest
    ensures WidthAt(fmt, i) == WidthFrom(fmt, neg, zero, b)
  {
    var a := if neg then i + 1 else i;
    b := if zero then a + 1 else a;
    var tail := (if zero then "0" else "") + rest;
    assert fmt[i..] == Sign(neg) + tail;
    assert fmt[a..] == tail;
    assert fmt[b..] == rest;
    FirstOf(fmt, i, Sign(neg) + tail);
    FirstOf(fmt, a, tail);
  }

  lemma WidthBack(fmt: Chars, b: nat, width: int, zero: bool, d: string, rest: string)
    requires b <= |fmt| && fmt[b..] == d + rest && IsNumeralFor(d, width) && (rest == [] || !IsDigit(rest[0]))
    ensures WidthFrom(fmt, width < 0, zero, b) ==
            if Size(width) + 48 > INT_MAX then None else Some(Width(width, zero, b + |d|))
  {
    DigitsEndIs(fmt, b, d, rest);
  }

  lemma FirstOf(fmt: Chars, i: nat, s: string)
    requires i <= |fmt| && fmt[i..] == s
    ensures At(fmt, i) == if s == [] then '\0' else s[0]
  {
  }

  lemma KindRoundTrip(width: int, zero: bool, kind: Kind, rest: string)
    requires Writable(Directive(width, zero, kind))
    ensures EndsWidth(width, zero, KindText(kind) + rest) && Names(KindText(kind), kind)
  {
  }

  /** Reading back one item. */
  lemma ItemRoundTrip(fmt: Chars, i: nat, item: Item, rest: string) returns (next: nat)
    requires i <= |fmt| && Writable(item) && fmt[i..] == ItemText(item) + rest
    ensures i < next <= |fmt| && NextItem(fmt, i) == Some((item, next)) && fmt[next..] == rest
  {
    match item
    case Literal(c) =>
      FirstOf(fmt, i, [c] + rest);
      next := i + 1;
    case Directive(width, zero, kind) =>
      NumeralIs(width);
      next := DirectiveRoundTrip(fmt, i, width, zero, Numeral(width), kind, rest);
  }

  lemma DirectiveRoundTrip(fmt: Chars, i: nat, width: int, zero: bool, d: string, kind: Kind, rest: string)
    returns (next: nat)
    requires i <= |fmt| && Writable(Directive(width, zero, kind)) && IsNumeralFor(d, width)
    requires fmt[i..] == "%" + Spell(width < 0, zero, d) + KindText(kind) + rest
    ensures i < next <= |fmt| && NextItem(fmt, i) == Some((Directive(width, zero, kind), next)) && fmt[next..] == rest
  {
    KindRoundTrip(width, zero, kind, rest);
    next := SpelledDirective(fmt, i, width, zero, d, KindText(kind), kind, rest);
  }

  predicate Names(t: string, kind: Kind) {
    || (|t| == 1 && t[0] !in ['l', 'L'] && KindOf(t[0]) == kind)
    || (|t| == 2 && t[0] in ['l', 'L'] && LongKindOf(t[1]) == kind)
  }

  lemma SpelledDirective(fmt: Chars, i: nat, width: int, zero: bool, d: string, t: string, kind: Kind, rest: string)
    returns (next: nat)
    requires i <= |fmt| && fmt[i..] == "%" + Spell(width < 0, zero, d) + t + rest && IsNumeralFor(d, width)
    requires EndsWidth(width, zero, t + rest) && Names(t, kind) && Size(width) + 48 <= INT_MAX
    ensures i < next <= |fmt| && NextItem(fmt, i) == Some((Directive(width, zero, kind), next)) && fmt[next..] == rest
  {
    var w := Spell(width < 0, zero, d);
    SplitAt(fmt, i, w, t, rest);
    SpelledRoundTrip(fmt, i + 1, width, zero, d, t + rest);
    next := DirectiveRead(fmt, i, w, width, zero, t, kind, rest);
  }

  lemma DirectiveRead(fmt: Chars, i: nat, w: string, width: int, zero: bool, t: string, kind: Kind, rest: string)
    returns (next: nat)
    requires i <= |fmt| && fmt[i..] == "%" + w + t + rest && Names(t, kind)
    requires WidthAt(fmt, i + 1) == Some(Width(width, zero, i + 1 + |w|))
    ensures i < next <= |fmt| && NextItem(fmt, i) == Some((Directive(width, zero, kind), next)) && fmt[next..] == rest
  {
    SplitAt(fmt, i, w, t, rest);
    next := i + 1 + |w| + |t|;
    DirectiveAt(fmt, i, Width(width, zero, i + 1 + |w|), t, kind);
  }

  lemma DirectiveAt(fmt: Chars, i: nat, w: Width, t: string, kind: Kind)
    requires i < |fmt| && fmt[i] == '%' && WidthAt(fmt, i + 1) == Some(w) && 1 <= |t| <= 2 && w.next + |t| <= |fmt|
    requires fmt[w.next] == t[0] && (|t| == 2 ==> fmt[w.next + 1] == t[1])
    requires Names(t, kind)
    ensures NextItem(fmt, i) == Some((Directive(w.digit, w.zero, kind), w.next + |t|))
  {
  }

  lemma SplitAt(fmt: Chars, i: nat, w: string, t: string, rest: string)
    requires i <= |fmt| && fmt[i..] == "%" + w + t + rest && 1 <= |t| <= 2
    ensures i + 1 + |w| + |t| <= |fmt| && fmt[i] == '%' && fmt[i + 1..] == w + (t + rest)
    ensures fmt[i + 1 + |w|] == t[0] && (|t| == 2 ==> fmt[i + 1 + |w| + 1] == t[1])
    ensures fmt[i + 1 + |w| + |t|..] == rest
  {
    assert fmt[i..] == "%" + (w + (t + rest));
  }

  lemma ParseStep(fmt: Chars, i: nat, next: nat, items: seq<Item>)
    requires i < next <= |fmt| && items != [] && NextItem(fmt, i) == Some((items[0], next))
    requires Parse(fmt, next) == Some(items[1..])
    ensures Parse(fmt, i) == Some(items)
  {
    assert items == [items[0]] + items[1..];
  }

  lemma HeadRoundTrip(fmt: Chars, i: nat, items: seq<Item>) returns (next: nat)
    requires i <= |fmt| && items != [] && Writable(items[0]) && fmt[i..] == FormatText(items)
    ensures i < next <= |fmt| && NextItem(fmt, i) == Some((items[0], next)) && fmt[next..] == FormatText(items[1..])
  {
    next := ItemRoundTrip(fmt, i, items[0], FormatText(items[1..]));
  }

  lemma {:induction false} ParseRoundTripFrom(fmt: Chars, i: nat, items: seq<Item>)
    requires i <= |fmt| && fmt[i..] == FormatText(items) && forall k :: 0 <= k < |items| ==> Writable(items[k])
    ensures Parse(fmt, i) == Some(items)
    decreases |items|
  {
    if items != [] {
      var next := HeadRoundTrip(fmt, i, items);
      ParseRoundTripFrom(fmt, next, items[1..]);
      ParseStep(fmt, i, next, items);
    }
  }

  lemma {:induction false} FormatTextIsChars(items: seq<Item>)
    requires forall k :: 0 <= k < |items| ==> Writable(items[k])
    ensures forall k :: 0 <= k < |FormatText(items)| ==> FormatText(items)[k] != '\0'
  {
    if items != [] {
      FormatTextIsChars(items[1..]);
      ItemTextIsChars(items[0]);
    }
  }

  lemma ItemTextIsChars(item: Item)
    requires Writable(item)
    ensures forall k :: 0 <= k < |ItemText(item)| ==> ItemText(item)[k] != '\0'
  {
    if item.Directive? {
      NumeralIs(item.width);
      SpelledIsChars(item.width < 0, item.zero, Numeral(item.width));
    }
  }

  lemma SpelledIsChars(neg: bool, zero: bool, d: string)
    requires IsNumeral(d, 10)
    ensures forall k :: 0 <= k < |Spell(neg, zero, d)| ==> Spell(neg, zero, d)[k] != '\0'
  {
    assert forall k :: 0 <= k < |d| ==> IsDigitOf(d[k], 10);
  }

  /** Every list of items that can be written is what its format is parsed as. */
  lemma ParseRoundTrip(items: seq<Item>)
    requires forall k :: 0 <= k < |items| ==> Writable(items[k])
    ensures var fmt := FormatText(items);
            (forall k :: 0 <= k < |fmt| ==> fmt[k] != '\0') && Parse(fmt, 0) == Some(items)
  {
    FormatTextIsChars(items);
    var fmt: Chars := FormatText(items);
    assert fmt[0..] == fmt;
    ParseRoundTripFrom(fmt, 0, items);
  }

  /** Whatever items are written down as a format, printing it prints them. */
  lemma FormatPrints(items: seq<Item>, args: seq<Arg>)
    requires forall k :: 0 <= k < |items| ==> Writable(items[k])
    ensures var fmt := FormatText(items);
            (forall k :: 0 <= k < |fmt| ==> fmt[k] != '\0') && Meaning(fmt, 0, args) == Render(items, args)
  {
    ParseRoundTrip(items);
  }

  /** A 64-bit integer printed with `%ld` at any width reads back, save when zeros come before its sign. */
  lemma PrintedReadsBack(v: i64, width: int, zero: bool)
    requires Size(width) <= INT_MAX - 48
    ensures var fmt := FormatText([Directive(width, zero, DecLong)]);
            && (forall k :: 0 <= k < |fmt| ==> fmt[k] != '\0')
            && Meaning(fmt, 0, [Int64(v)]).Some?
            && (Read(Meaning(fmt, 0, [Int64(v)]).value, 10, false) == Some(v)
                <==> !(zero && width > |NumberText.Text(v, 10, true, false)| && v < 0))
  {
    var item, args := Directive(width, zero, DecLong), [Int64(v)];
    FormatPrints([item], args);
    RenderOne(item, args, NumberField(v, 10, true, width, false, zero));
    ReadsBackExactly(v, 10, true, false, width, zero);
  }

  lemma RenderOne(item: Item, args: seq<Arg>, text: string)
    requires Show(item, args) == Some(text)
    ensures Render([item], args) == Some(text)
  {
    assert Render([item][1..], args[Takes(item)..]) == Some("") && text + "" == text;
  }

  /** Items that can be printed are, whatever comes after them. */
  lemma {:induction false} ReachesTail(fmt: Chars, i: nat, items: seq<Item>, args: seq<Arg>, tail: string)
    requires i <= |fmt| && fmt[i..] == FormatText(items) + tail && Render(items, args).Some?
    requires forall k :: 0 <= k < |items| ==> Writable(items[k])
    ensures Reaches(fmt, i, args, |fmt| - |tail|)
    decreases |items|
  {
    if items == [] {
      assert FormatText(items) + tail == tail;
    } else {
      var more := FormatText(items[1..]) + tail;
      assert fmt[i..] == ItemText(items[0]) + more;
      var next := ItemRoundTrip(fmt, i, items[0], more);
      ReachesTail(fmt, next, items[1..], args[Takes(items[0])..], tail);
    }
  }

  /** So a format that ends in `%`, `%l` or `%L`, with or without a width, makes vprintf step past its terminator. */
  lemma CutShortStepsPast(fmt: Chars, items: seq<Item>, args: seq<Arg>, width: int, zero: bool, end: string)
    requires fmt == FormatText(items) + ("%" + WidthText(width, zero) + end) && end in ["", "l", "L"]
    requires (forall k :: 0 <= k < |items| ==> Writable(items[k])) && Render(items, args).Some?
    requires Size(width) <= INT_MAX - 48
    ensures OutcomeOf(fmt, 0, args) == StepsPast
  {
    var w := WidthText(width, zero);
    var tail := "%" + w + end;
    var k := |fmt| - |tail|;
    assert fmt[0..] == fmt && fmt[k..] == tail;
    ReachesTail(fmt, 0, items, args, tail);
    CutShort(fmt, k, width, zero, end);
    StepsPastExactly(fmt, 0, args);
  }

  lemma CutShort(fmt: Chars, k: nat, width: int, zero: bool, end: string)
    requires k <= |fmt| && fmt[k..] == "%" + WidthText(width, zero) + end && end in ["", "l", "L"]
    requires Size(width) <= INT_MAX - 48
    ensures k < |fmt| && Truncated(fmt, k)
  {
    NumeralIs(width);
    CutShortSpelled(fmt, k, width, zero, Numeral(width), end);
  }

  lemma CutShortSpelled(fmt: Chars, k: nat, width: int, zero: bool, d: string, end: string)
    requires k <= |fmt| && fmt[k..] == "%" + Spell(width < 0, zero, d) + end && end in ["", "l", "L"]
    requires IsNumeralFor(d, width) && Size(width) <= INT_MAX - 48
    ensures k < |fmt| && Truncated(fmt, k)
  {
    var w := Spell(width < 0, zero, d);
    assert fmt[k] == '%' && fmt[k + 1..] == w + end;
    SpelledRoundTrip(fmt, k + 1, width, zero, d, end);
    FirstOf(fmt, k + 1 + |w|, end);
  }
}
