/**
 fetch_digit and vprintf of printf.c, which print what `Formats` says their format means.
 Where the C code leaves the format, the range of int or its argument list, the model
 stops and says which.
 */
module Vprintf {
  import opened Numerals
  import opened NumberText
  import opened Formats
  import opened Print

  /** fetch_digit; None where `n * 10 + *fmt` overflows. */
  method FetchDigit(fmt: Chars, i: nat) returns (r: Option<Width>)
    requires i <= |fmt|
    ensures r == WidthAt(fmt, i)
  {
    var p := i;
    var neg := At(fmt, p) == '-';
    if neg {
      p := p + 1;
    }
    var zero := At(fmt, p) == '0';
    if zero {
      p := p + 1;
    }
    var n, e := Scan(fmt, p);
    return if n == None then None else Some(Width(Signed(neg, n.value), zero, e));
  }

  /** The digit loop of fetch_digit. */
  method Scan(fmt: Chars, b: nat) returns (r: Option<nat>, p: nat)
    requires b <= |fmt|
    ensures var e := DigitsEnd(fmt, b); var v := Value(fmt[b..e], 10);
            if e > b && v + 48 > INT_MAX then r == None else r == Some(v) && p == e
  {
    p := b;
    var n: nat := 0;
    while IsDigit(At(fmt, p))
      invariant b <= p <= |fmt| && DigitsEnd(fmt, b) == DigitsEnd(fmt, p)
      invariant IsNumeral(fmt[b..p], 10) && n == Value(fmt[b..p], 10) && (p > b ==> n + 48 <= INT_MAX)
      decreases |fmt| - p
    {
      OneDigitMore(fmt, b, p);
      var sum := n * 10 + fmt[p] as int;
      if sum > INT_MAX {
        return None, p;
      }
      n := sum - '0' as int;
      p := p + 1;
    }
    r := Some(n);
  }

  lemma OneDigitMore(fmt: Chars, b: nat, p: nat)
    requires b <= p < |fmt| && IsDigit(fmt[p]) && DigitsEnd(fmt, b) == DigitsEnd(fmt, p) && IsNumeral(fmt[b..p], 10)
    ensures IsNumeral(fmt[b..p + 1], 10) && DigitsEnd(fmt, p) == DigitsEnd(fmt, p + 1) > p
    ensures Value(fmt[b..p + 1], 10) == Value(fmt[b..p], 10) * 10 + (fmt[p] as int - 48)
    ensures Value(fmt[b..p + 1], 10) <= Value(fmt[b..DigitsEnd(fmt, b)], 10)
  {
    OneDigitValue(fmt, b, p);
    assert DigitsEnd(fmt, b) == DigitsEnd(fmt, p + 1) > p;
    ShorterNumeral(fmt, b, p + 1, DigitsEnd(fmt, b));
  }

  lemma OneDigitValue(fmt: Chars, b: nat, p: nat)
    requires b <= p < |fmt| && IsDigit(fmt[p]) && IsNumeral(fmt[b..p], 10)
    ensures IsNumeral(fmt[b..p + 1], 10)
    ensures Value(fmt[b..p + 1], 10) == Value(fmt[b..p], 10) * 10 + (fmt[p] as int - 48)
  {
    assert fmt[b..p + 1] == fmt[b..p] + [fmt[p]];
    ValueOfLonger(fmt[b..p], fmt[p], 10);
  }

  lemma ShorterNumeral(fmt: Chars, b: nat, p: nat, e: nat)
    requires b <= p <= e <= |fmt| && IsNumeral(fmt[b..e], 10)
    ensures IsNumeral(fmt[b..p], 10) && Value(fmt[b..p], 10) <= Value(fmt[b..e], 10)
  {
    assert fmt[b..e][..p - b] == fmt[b..p];
    ValueGrows(fmt[b..e], p - b, 10);
  }

  /** The conversions of vprintf that take an argument, the next in `args`. */
  method Convert(console: Console, kind: Kind, width: int, zero: bool, arg: Arg) returns (ok: bool)
    requires -INT_MAX <= width <= INT_MAX
    modifies console
    ensures ok == ShowArg(kind, width, zero, arg).Some?
    ensures ok ==> console.out == old(console.out) + ShowArg(kind, width, zero, arg).value
  {
    ok := true;
    match (kind, arg)
    case (Dec, Int32(v)) => console.Print64(v, 10, true, width, false, zero);
    case (Uns, UInt32(v)) => console.Print64(v, 10, false, width, false, zero);
    case (Hex, UInt64(v)) => console.Print64(AsSigned(v), 16, false, width, false, zero);
    case (Pointer, Ptr(v)) => console.Print64(AsSigned(v), 16, false, width, true, false);
    case (DecLong, Int64(v)) => console.Print64(v, 10, true, width, false, zero);
    case (UnsLong, UInt64(v)) => console.Print64(AsSigned(v), 10, false, width, false, zero);
    case (HexLong, UInt64(v)) => console.Print64(AsSigned(v), 16, false, width, false, zero);
    case (Character, Char(c)) => console.PutChar(c);
    case (Str, Text(s)) =>
      var text := if s == None then "(null)" else s.value;
      console.Puts(text + ['\0'], 0, text);
    case _ => ok := false;
  }

  /** The switch of vprintf on a kind of directive; `taken` arguments are used up. */
  method Perform(console: Console, w: Width, kind: Kind, args: seq<Arg>) returns (ok: bool, taken: nat)
    requires -INT_MAX <= w.digit <= INT_MAX
    modifies console
    ensures var item := Directive(w.digit, w.zero, kind);
            && ok == Show(item, args).Some?
            && (ok ==> taken == Takes(item) && console.out == old(console.out) + Show(item, args).value)
  {
    ok, taken := true, 0;
    match kind
    case Percent =>
      console.PutChar('%');
    case Other(c) =>
      console.PutChar('%');
      console.PutChar(c);
    case OtherLong(c) =>
      console.PutChar('%');
      console.PutChar('l');
      console.PutChar(c);
    case _ =>
      if args == [] {
        return false, 0;
      }
      ok := Convert(console, kind, w.digit, w.zero, args[0]);
      taken := 1;
  }

  /** The branch of vprintf for the `%` at `i`. */
  method DoDirective(console: Console, fmt: Chars, i: nat, args: seq<Arg>)
    returns (r: Outcome, next: nat, taken: nat)
    requires i < |fmt| && fmt[i] == '%'
    modifies console
    ensures r == StepsPast <==> Truncated(fmt, i)
    ensures r == Overflows <==> WidthAt(fmt, i + 1) == None
    ensures r == BadArgument <==> NextItem(fmt, i).Some? && Show(NextItem(fmt, i).value.0, args).None?
    ensures r == Done ==>
              && NextItem(fmt, i).Some? && next == NextItem(fmt, i).value.1
              && var item := NextItem(fmt, i).value.0;
                 && Show(item, args).Some? && taken == Takes(item)
                 && console.out == old(console.out) + Show(item, args).value
  {
    next, taken := i, 0;
    var w := FetchDigit(fmt, i + 1);
    if w == None {
      return Overflows, next, taken;
    }
    var p := w.value.next;
    if p == |fmt| {
      // the loop then steps past the terminator
      console.PutChar('%');
      console.PutChar('\0');
      return StepsPast, next, taken;
    }
    var kind := KindOf(fmt[p]);
    if fmt[p] == 'l' || fmt[p] == 'L' {
      p := p + 1;
      if p == |fmt| {
        // here too
        console.PutChar('%');
        console.PutChar('l');
        console.PutChar('\0');
        return StepsPast, next, taken;
      }
      kind := LongKindOf(fmt[p]);
    }
    var ok;
    ok, taken := Perform(console, w.value, kind, args);
    next := p + 1;
    r := if ok then Done else BadArgument;
  }

  /** The body of the loop of vprintf: one literal or directive, and what `ap` is then. */
  method DoItem(console: Console, fmt: Chars, i: nat, ap: seq<Arg>)
    returns (r: Outcome, next: nat, ap': seq<Arg>, ghost text: string)
    requires i < |fmt|
    modifies console
    ensures r == Done ==> i < next <= |fmt| && console.out == old(console.out) + text
    ensures OutcomeOf(fmt, i, ap) == if r == Done then OutcomeOf(fmt, next, ap') else r
    ensures r == Done ==> Meaning(fmt, i, ap) == After(text, Meaning(fmt, next, ap'))
  {
    MeaningStep(fmt, i, ap);
    r, next, ap', text := Done, i + 1, ap, "";
    if fmt[i] == '%' {
      var taken;
      r, next, taken := DoDirective(console, fmt, i, ap);
      if r != Done {
        return;
      }
      ap' := ap[taken..];
      text := Show(NextItem(fmt, i).value.0, ap).value;
    } else {
      console.PutChar(fmt[i]);
      text := [fmt[i]];
    }
  }

  /**
   vprintf. It is done exactly when the format is complete and its arguments are there, in
   order and of the right types; then it has printed what the format means.
   */
  method Vprintf(console: Console, fmt: Chars, args: seq<Arg>) returns (r: Outcome)
    modifies console
    ensures r == OutcomeOf(fmt, 0, args)
    ensures r == Done <==> Meaning(fmt, 0, args).Some?
    ensures r == Done ==> console.out == old(console.out) + Meaning(fmt, 0, args).value
  {
    var i, ap := 0, args;
    ghost var text, start := "", console.out;
    PrintedNothing(fmt, args);
    while i < |fmt|
      invariant i <= |fmt| && Printed(fmt, args, i, ap, text) && console.out == start + text
      decreases |fmt| - i
    {
      r, i, ap, text := NextItemPrinted(console, fmt, i, ap, args, text, start);
      if r != Done {
        return;
      }
    }
    return Done;
  }

  /** One round of the loop, as part of the whole. */
  method NextItemPrinted(console: Console, fmt: Chars, i: nat, ap: seq<Arg>,
                         ghost args: seq<Arg>, ghost text: string, ghost start: string)
    returns (r: Outcome, next: nat, ap': seq<Arg>, ghost text': string)
    requires i < |fmt| && Printed(fmt, args, i, ap, text) && console.out == start + text
    modifies console
    ensures r == Done ==> i < next && Printed(fmt, args, next, ap', text') && console.out == start + text'
    ensures r != Done ==> OutcomeOf(fmt, 0, args) == r && Meaning(fmt, 0, args) == None
  {
    ghost var more;
    r, next, ap', more := DoItem(console, fmt, i, ap);
    text' := text + more;
    if r == Done {
      PrintedMore(fmt, args, i, ap, text, next, ap', more);
      OutputJoins(start, text, more);
    } else {
      PrintedUpTo(fmt, args, i, ap, text, r);
    }
  }

  lemma PrintedUpTo(fmt: Chars, args: seq<Arg>, i: nat, ap: seq<Arg>, text: string, r: Outcome)
    requires Printed(fmt, args, i, ap, text) && OutcomeOf(fmt, i, ap) == r != Done
    ensures OutcomeOf(fmt, 0, args) == r && Meaning(fmt, 0, args) == None
  {
  }

  /** `text` has been printed, and the rest of the format with the rest of the arguments is to come. */
  ghost predicate Printed(fmt: Chars, args: seq<Arg>, i: nat, ap: seq<Arg>, text: string) {
    && i <= |fmt|
    && Meaning(fmt, 0, args) == After(text, Meaning(fmt, i, ap))
    && OutcomeOf(fmt, 0, args) == OutcomeOf(fmt, i, ap)
    && (OutcomeOf(fmt, 0, args) == Done <==> Meaning(fmt, 0, args).Some?)
  }

  lemma PrintedNothing(fmt: Chars, args: seq<Arg>)
    ensures Printed(fmt, args, 0, args, "")
  {
    DoneExactly(fmt, 0, args);
    AfterNothing(Meaning(fmt, 0, args));
  }

  lemma PrintedMore(fmt: Chars, args: seq<Arg>, i: nat, ap: seq<Arg>, text: string,
                    next: nat, ap': seq<Arg>, more: string)
    requires Printed(fmt, args, i, ap, text) && next <= |fmt|
    requires Meaning(fmt, i, ap) == After(more, Meaning(fmt, next, ap'))
    requires OutcomeOf(fmt, i, ap) == OutcomeOf(fmt, next, ap')
    ensures Printed(fmt, args, next, ap', text + more)
  {
    AfterTwice(text, more, Meaning(fmt, next, ap'));
  }

  lemma OutputJoins(a: string, b: string, c: string)
    ensures a + b + c == a + (b + c)
  {
  }

  lemma AfterNothing(rest: Option<string>)
    ensures After("", rest) == rest
  {
    if rest.Some? {
      assert "" + rest.value == rest.value;
    }
  }
}
