/**
 Format strings of vprintf in printf.c: how they fall into literals and directives, and
 what each of these prints.
 */
module Formats {
  import opened Words
  import opened Numerals
  import opened NumberText

  /** What a C string in memory holds before its NUL. */
  type Chars = s: string | forall i :: 0 <= i < |s| ==> s[i] != '\0'

  type i32 = x: int | -0x8000_0000 <= x < 0x8000_0000

  datatype Kind = Dec | Uns | Hex | Pointer | DecLong | UnsLong | HexLong | Character | Str | Percent
                | Other(c: char) | OtherLong(c: char)

  datatype Item = Literal(c: char) | Directive(width: int, zero: bool, kind: Kind)

  /** The arguments of vprintf, by the types with which va_arg takes them. */
  datatype Arg = Int32(d: i32) | UInt32(w: u32) | UInt64(x: u64) | Int64(i: i64) | Ptr(p: u64)
               | Char(c: char) | Text(s: Option<Chars>)

  /** The character of a format at `i`; its terminator at the end. */
  function At(fmt: Chars, i: nat): char
    requires i <= |fmt|
  {
    if i < |fmt| then fmt[i] else '\0'
  }

  /** isdigit */
  predicate IsDigit(c: char) { '0' <= c <= '9' }

  // ----- widths

  /** Where the digits at `i` end. */
  function DigitsEnd(fmt: Chars, i: nat): (e: nat)
    requires i <= |fmt|
    ensures i <= e <= |fmt| && IsNumeral(fmt[i..e], 10) && !IsDigit(At(fmt, e))
    decreases |fmt| - i
  {
    if IsDigit(At(fmt, i)) then DigitsEnd(fmt, i + 1) else i
  }

  /** A width, whether it asks for zeros, and where it ends. */
  datatype Width = Width(digit: int, zero: bool, next: nat)

  /**
   The width at `i`: a minus sign, a zero flag, digits, each of them optional. None where the
   intermediate `n * 10 + *fmt` of the loop leaves the range of int: where the value exceeds
   INT_MAX - 48.
   */
  function WidthAt(fmt: Chars, i: nat): Option<Width>
    requires i <= |fmt|
  {
    var neg := At(fmt, i) == '-';
    var a := if neg then i + 1 else i;
    var zero := At(fmt, a) == '0';
    WidthFrom(fmt, neg, zero, if zero then a + 1 else a)
  }

  function WidthFrom(fmt: Chars, neg: bool, zero: bool, b: nat): Option<Width>
    requires b <= |fmt|
  {
    var e := DigitsEnd(fmt, b);
    var n := Value(fmt[b..e], 10);
    if e > b && n + 48 > INT_MAX then None else Some(Width(Signed(neg, n), zero, e))
  }

  // ----- directives

  function KindOf(c: char): Kind {
    if c == 'd' then Dec else if c == 'u' then Uns else if c == 'x' then Hex else if c == 'p' then Pointer
    else if c == 'c' then Character else if c == 's' then Str else if c == '%' then Percent else Other(c)
  }

  function LongKindOf(c: char): Kind {
    if c == 'd' then DecLong else if c == 'u' then UnsLong else if c == 'x' then HexLong else OtherLong(c)
  }

  /** The directive at `i` and where it ends; None if the terminator comes first. */
  function NextItem(fmt: Chars, i: nat): (r: Option<(Item, nat)>)
    requires i < |fmt|
    ensures r.Some? ==> i < r.value.1 <= |fmt|
  {
    if fmt[i] != '%' then Some((Literal(fmt[i]), i + 1)) else
    match WidthAt(fmt, i + 1)
    case None => None
    case Some(w) => DirectiveOf(fmt, w)
  }

  /** The directive with this width. */
  function DirectiveOf(fmt: Chars, w: Width): (r: Option<(Item, nat)>)
    requires w.next <= |fmt|
    ensures r.Some? ==> w.next < r.value.1 <= |fmt|
  {
    if w.next == |fmt| then None
    else if fmt[w.next] !in ['l', 'L'] then Some((Directive(w.digit, w.zero, KindOf(fmt[w.next])), w.next + 1))
    else if w.next + 1 == |fmt| then None
    else Some((Directive(w.digit, w.zero, LongKindOf(fmt[w.next + 1])), w.next + 2))
  }

  /** The literals and directives of a format from `i` on; None if it is not complete. */
  function Parse(fmt: Chars, i: nat): Option<seq<Item>>
    requires i <= |fmt|
    decreases |fmt| - i
  {
    if i == |fmt| then Some([]) else
    match NextItem(fmt, i)
    case None => None
    case Some((item, next)) =>
      match Parse(fmt, next)
      case None => None
      case Some(items) => Some([item] + items)
  }

  // ----- what they print

  function AsSigned(u: u64): i64 { if u < TWO63 then u else u - TWO64 }

  function NumberField(num: i64, base: nat, sign: bool, width: int, prefix: bool, zero: bool): string
    requires IsBase(base)
  {
    Padded(NumberText.Text(num, base, sign, prefix), width, zero)
  }

  function Takes(item: Item): nat {
    if item.Literal? || item.kind.Percent? || item.kind.Other? || item.kind.OtherLong? then 0 else 1
  }

  /** What a directive prints for its argument; None if the argument is of another type. */
  function ShowArg(kind: Kind, width: int, zero: bool, arg: Arg): Option<string> {
    match (kind, arg)
    case (Dec, Int32(v)) => Some(NumberField(v, 10, true, width, false, zero))
    case (Uns, UInt32(v)) => Some(NumberField(v, 10, false, width, false, zero))
    case (Hex, UInt64(v)) => Some(NumberField(AsSigned(v), 16, false, width, false, zero))
    case (Pointer, Ptr(v)) => Some(NumberField(AsSigned(v), 16, false, width, true, false))
    case (DecLong, Int64(v)) => Some(NumberField(v, 10, true, width, false, zero))
    case (UnsLong, UInt64(v)) => Some(NumberField(AsSigned(v), 10, false, width, false, zero))
    case (HexLong, UInt64(v)) => Some(NumberField(AsSigned(v), 16, false, width, false, zero))
    case (Character, Char(c)) => Some([c])
    case (Str, Text(None)) => Some("(null)")
    case (Str, Text(Some(s))) => Some(s)
    case _ => None
  }

  /** What an item prints when `args` are the arguments left. */
  function Show(item: Item, args: seq<Arg>): (r: Option<string>)
    ensures r.Some? ==> Takes(item) <= |args|
  {
    match item
    case Literal(c) => Some([c])
    case Directive(_, _, Percent) => Some("%")
    case Directive(_, _, Other(c)) => Some(['%', c])
    case Directive(_, _, OtherLong(c)) => Some(['%', 'l', c])
    case Directive(width, zero, kind) => if args == [] then None else ShowArg(kind, width, zero, args[0])
  }

  /** What items print, one after the other, each taking its argument if it has one. */
  function Render(items: seq<Item>, args: seq<Arg>): Option<string> {
    if items == [] then Some("") else
    match Show(items[0], args)
    case None => None
    case Some(text) => After(text, Render(items[1..], args[Takes(items[0])..]))
  }

  function After(text: string, rest: Option<string>): Option<string> {
    match rest
    case None => None
    case Some(s) => Some(text + s)
  }

  lemma AfterTwice(a: string, b: string, rest: Option<string>)
    ensures After(a, After(b, rest)) == After(a + b, rest)
  {
    if rest.Some? {
      assert a + (b + rest.value) == a + b + rest.value;
    }
  }

  /** What a format prints from `i` on. */
  function Meaning(fmt: Chars, i: nat, args: seq<Arg>): Option<string>
    requires i <= |fmt|
  {
    match Parse(fmt, i)
    case None => None
    case Some(items) => Render(items, args)
  }

  /** A format prints its first item, and then the rest with the arguments left. */
  lemma MeaningStep(fmt: Chars, i: nat, args: seq<Arg>)
    requires i < |fmt|
    ensures Meaning(fmt, i, args) ==
            match NextItem(fmt, i)
            case None => None
            case Some((item, next)) =>
              match Show(item, args)
              case None => None
              case Some(text) => After(text, Meaning(fmt, next, args[Takes(item)..]))
  {
    match NextItem(fmt, i)
    case None =>
    case Some((item, next)) =>
      match Parse(fmt, next)
      case None =>
      case Some(items) =>
        assert ([item] + items)[1..] == items;
  }

  // ----- how printing a format ends

  /** Done, or where the C code leaves the string, the range of int or its argument list. */
  datatype Outcome = Done | StepsPast | Overflows | BadArgument

  /** The directive at `i` ends at the terminator: the loop of vprintf steps past it. */
  predicate Truncated(fmt: Chars, i: nat)
    requires i < |fmt|
  {
    fmt[i] == '%' &&
    match WidthAt(fmt, i + 1)
    case None => false
    case Some(w) => w.next == |fmt| || (fmt[w.next] in ['l', 'L'] && w.next + 1 == |fmt|)
  }

  function OutcomeOf(fmt: Chars, i: nat, args: seq<Arg>): Outcome
    requires i <= |fmt|
    decreases |fmt| - i
  {
    if i == |fmt| then Done else
    match NextItem(fmt, i)
    case None => if Truncated(fmt, i) then StepsPast else Overflows
    case Some((item, next)) =>
      if Show(item, args).None? then BadArgument else OutcomeOf(fmt, next, args[Takes(item)..])
  }

  /** It is done exactly when the format means something with these arguments. */
  lemma {:induction false} DoneExactly(fmt: Chars, i: nat, args: seq<Arg>)
    requires i <= |fmt|
    ensures OutcomeOf(fmt, i, args) == Done <==> Meaning(fmt, i, args).Some?
    decreases |fmt| - i
  {
    if i < |fmt| {
      MeaningStep(fmt, i, args);
      match NextItem(fmt, i)
      case None =>
      case Some((item, next)) =>
        if Show(item, args).Some? { DoneExactly(fmt, next, args[Takes(item)..]); }
    }
  }

  /** Printing from `i` gets as far as `k`. */
  predicate Reaches(fmt: Chars, i: nat, args: seq<Arg>, k: nat)
    requires i <= |fmt|
    decreases |fmt| - i
  {
    i == k || (
      i < |fmt| &&
      match NextItem(fmt, i)
      case None => false
      case Some((item, next)) => Show(item, args).Some? && Reaches(fmt, next, args[Takes(item)..], k))
  }

  /** It steps past the terminator exactly when it gets to a directive that the terminator cuts short. */
  lemma {:induction false} StepsPastExactly(fmt: Chars, i: nat, args: seq<Arg>)
    requires i <= |fmt|
    ensures OutcomeOf(fmt, i, args) == StepsPast
            <==> exists k: nat :: Reaches(fmt, i, args, k) && k < |fmt| && Truncated(fmt, k)
    decreases |fmt| - i
  {
    if i < |fmt| {
      match NextItem(fmt, i)
      case None =>
        assert Reaches(fmt, i, args, i);
      case Some((item, next)) =>
        assert !Truncated(fmt, i);
        if Show(item, args).Some? {
          var rest := args[Takes(item)..];
          StepsPastExactly(fmt, next, rest);
          forall k: nat ensures Reaches(fmt, i, args, k) <==> i == k || Reaches(fmt, next, rest, k) {
          }
        }
    } else {
      assert forall k: nat :: Reaches(fmt, i, args, k) ==> k == i;
    }
  }

  // ----- concatenation

  function Taken(items: seq<Item>): nat {
    if items == [] then 0 else Takes(items[0]) + Taken(items[1..])
  }

  /** Printing is concatenation, and arguments are taken in order. */
  lemma {:induction false} RenderConcat(a: seq<Item>, b: seq<Item>, args: seq<Arg>)
    ensures Render(a, args).Some? ==> Taken(a) <= |args|
    ensures Render(a + b, args) ==
            if Render(a, args).None? then None else After(Render(a, args).value, Render(b, args[Taken(a)..]))
  {
    if a == [] {
      assert a + b == b && args[0..] == args;
      assert forall s: string :: "" + s == s;
    } else {
      assert (a + b)[1..] == a[1..] + b;
      if Show(a[0], args).Some? {
        var k := Takes(a[0]);
        RenderConcat(a[1..], b, args[k..]);
        if Render(a[1..], args[k..]).Some? {
          assert args[k..][Taken(a[1..])..] == args[Taken(a)..];
          AfterTwice(Show(a[0], args).value, Render(a[1..], args[k..]).value, Render(b, args[Taken(a)..]));
        }
      }
    }
  }
}
