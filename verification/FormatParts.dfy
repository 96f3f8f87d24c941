/**
 A format put together from two: what it prints is what each of them prints, one after the
 other.
 */
module FormatParts {
  import opened Numerals
  import opened NumberText
  import opened Formats

  // ----- reading the first part, whatever comes after it

  lemma {:induction false} DigitsEndBefore(a: Chars, b: Chars, i: nat)
    requires i <= |a| && DigitsEnd(a, i) < |a|
    ensures DigitsEnd(a + b, i) == DigitsEnd(a, i)
    decreases |a| - i
  {
    assert i < |a| && At(a + b, i) == At(a, i);
    if IsDigit(a[i]) {
      DigitsEndBefore(a, b, i + 1);
    }
  }

  lemma WidthBefore(a: Chars, b: Chars, i: nat)
    requires i <= |a| && WidthAt(a, i).Some? && WidthAt(a, i).value.next < |a|
    ensures WidthAt(a + b, i) == WidthAt(a, i)
  {
    var k := if At(a, i) == '-' then i + 1 else i;
    var start := if At(a, k) == '0' then k + 1 else k;
    assert DigitsEnd(a, start) < |a|;
    DigitsEndBefore(a, b, start);
    assert (a + b)[start..DigitsEnd(a, start)] == a[start..DigitsEnd(a, start)];
  }

  lemma ItemBefore(a: Chars, b: Chars, i: nat)
    requires i < |a| && NextItem(a, i).Some?
    ensures NextItem(a + b, i) == NextItem(a, i)
  {
    if a[i] == '%' {
      WidthBefore(a, b, i + 1);
    }
  }

  // ----- reading the second part, whatever comes before it

  /** From `i` on `f` is what `b` is from `k` on. */
  predicate Same(f: Chars, i: nat, b: Chars, k: nat) {
    i <= |f| && k <= |b| && f[i..] == b[k..]
  }

  lemma SameAt(f: Chars, i: nat, b: Chars, k: nat)
    requires Same(f, i, b, k)
    ensures At(f, i) == At(b, k) && (i < |f| <==> k < |b|) && (i < |f| ==> Same(f, i + 1, b, k + 1))
  {
    assert i < |f| ==> f[i] == f[i..][0] == b[k..][0] && f[i + 1..] == f[i..][1..] && b[k + 1..] == b[k..][1..];
  }

  lemma {:induction false} SameDigits(f: Chars, i: nat, b: Chars, k: nat)
    requires Same(f, i, b, k)
    ensures Same(f, DigitsEnd(f, i), b, DigitsEnd(b, k))
    ensures f[i..DigitsEnd(f, i)] == b[k..DigitsEnd(b, k)]
    decreases |f| - i
  {
    SameAt(f, i, b, k);
    if IsDigit(At(b, k)) {
      SameDigits(f, i + 1, b, k + 1);
      assert f[i..DigitsEnd(f, i)] == [f[i]] + f[i + 1..DigitsEnd(f, i + 1)];
      assert b[k..DigitsEnd(b, k)] == [b[k]] + b[k + 1..DigitsEnd(b, k + 1)];
    }
  }

  /** The same width, and the same after it. */
  predicate SameWidth(f: Chars, w: Option<Width>, b: Chars, v: Option<Width>) {
    if w == None || v == None then w == v
    else w.value.digit == v.value.digit && w.value.zero == v.value.zero && Same(f, w.value.next, b, v.value.next)
  }

  lemma SameWidthFrom(f: Chars, i: nat, b: Chars, k: nat, neg: bool, zero: bool)
    requires Same(f, i, b, k)
    ensures SameWidth(f, WidthFrom(f, neg, zero, i), b, WidthFrom(b, neg, zero, k))
  {
    SameDigits(f, i, b, k);
  }

  lemma SameWidthAt(f: Chars, i: nat, b: Chars, k: nat)
    requires Same(f, i, b, k)
    ensures SameWidth(f, WidthAt(f, i), b, WidthAt(b, k))
  {
    SameAt(f, i, b, k);
    var neg := At(b, k) == '-';
    var i1, k1 := if neg then i + 1 else i, if neg then k + 1 else k;
    SameAt(f, i1, b, k1);
    var zero := At(b, k1) == '0';
    var i2, k2 := if zero then i1 + 1 else i1, if zero then k1 + 1 else k1;
    WidthParts(f, i, i1, i2, neg, zero);
    WidthParts(b, k, k1, k2, neg, zero);
    SameWidthFrom(f, i2, b, k2, neg, zero);
  }

  lemma WidthParts(fmt: Chars, i: nat, a: nat, b: nat, neg: bool, zero: bool)
    requires i <= |fmt| && neg == (At(fmt, i) == '-') && a == (if neg then i + 1 else i)
    requires zero == (At(fmt, a) == '0') && b == (if zero then a + 1 else a)
    ensures b <= |fmt| && WidthAt(fmt, i) == WidthFrom(fmt, neg, zero, b)
  {
  }

  /** The same item, and the same after it. */
  predicate SameItem(f: Chars, r: Option<(Item, nat)>, b: Chars, t: Option<(Item, nat)>) {
    if r == None || t == None then r == t else r.value.0 == t.value.0 && Same(f, r.value.1, b, t.value.1)
  }

  lemma SameDirective(f: Chars, w: Width, b: Chars, v: Width)
    requires w.digit == v.digit && w.zero == v.zero && Same(f, w.next, b, v.next)
    ensures SameItem(f, DirectiveOf(f, w), b, DirectiveOf(b, v))
  {
    SameAt(f, w.next, b, v.next);
    if w.next < |f| { SameAt(f, w.next + 1, b, v.next + 1); }
  }

  lemma SameNextItem(f: Chars, i: nat, b: Chars, k: nat)
    requires Same(f, i, b, k) && k < |b|
    ensures i < |f| && SameItem(f, NextItem(f, i), b, NextItem(b, k))
  {
    SameAt(f, i, b, k);
    SameWidthAt(f, i + 1, b, k + 1);
    var w, v := WidthAt(f, i + 1), WidthAt(b, k + 1);
    if w.Some? { SameDirective(f, w.value, b, v.value); }
  }

  lemma {:induction false} SameParse(f: Chars, i: nat, b: Chars, k: nat)
    requires Same(f, i, b, k)
    ensures Parse(f, i) == Parse(b, k)
    decreases |b| - k
  {
    SameAt(f, i, b, k);
    if k < |b| {
      SameNextItem(f, i, b, k);
      if NextItem(b, k).Some? {
        SameParse(f, NextItem(f, i).value.1, b, NextItem(b, k).value.1);
      }
    }
  }

  /** A complete format and another are read one after the other. */
  lemma {:induction false} ParseConcat(a: Chars, b: Chars, i: nat)
    requires i <= |a| && Parse(a, i).Some?
    ensures Parse(a + b, i) ==
            match Parse(b, 0)
            case None => None
            case Some(items) => Some(Parse(a, i).value + items)
    decreases |a| - i
  {
    if i == |a| {
      assert (a + b)[|a|..] == b[0..];
      SameParse(a + b, |a|, b, 0);
      assert Parse(a, i).value == [] && (Parse(b, 0).Some? ==> [] + Parse(b, 0).value == Parse(b, 0).value);
    } else {
      ItemBefore(a, b, i);
      var item, next := NextItem(a, i).value.0, NextItem(a, i).value.1;
      ParseConcat(a, b, next);
      if Parse(b, 0).Some? {
        ConsConcat(item, Parse(a, next).value, Parse(b, 0).value);
      }
    }
  }

  lemma ConsConcat<T>(x: T, s: seq<T>, t: seq<T>)
    ensures [x] + s + t == [x] + (s + t)
  {
  }

  /** What items print depends on the arguments they take. */
  lemma {:induction false} RenderTaken(items: seq<Item>, args: seq<Arg>, more: seq<Arg>)
    requires Taken(items) <= |args|
    ensures Render(items, args + more) == Render(items, args)
    decreases |items|
  {
    if items != [] && Show(items[0], args + more).Some? {
      var k := Takes(items[0]);
      assert (args + more)[k..] == args[k..] + more;
      assert k > 0 ==> (args + more)[0] == args[0];
      RenderTaken(items[1..], args[k..], more);
    }
  }

  lemma {:induction false} RenderTakes(items: seq<Item>, args: seq<Arg>)
    requires Render(items, args).Some?
    ensures Taken(items) <= |args|
  {
    if items != [] {
      RenderTakes(items[1..], args[Takes(items[0])..]);
    }
  }

  /** `args` are just the arguments that the format takes: it needs the last of them. */
  ghost predicate TakesAll(fmt: Chars, args: seq<Arg>) {
    Meaning(fmt, 0, args).Some? && (args == [] || Meaning(fmt, 0, args[..|args| - 1]) == None)
  }

  lemma TakesAllTaken(fmt: Chars, args: seq<Arg>)
    requires TakesAll(fmt, args)
    ensures Parse(fmt, 0).Some? && Taken(Parse(fmt, 0).value) == |args|
  {
    var items := Parse(fmt, 0).value;
    RenderTakes(items, args);
    if Taken(items) < |args| {
      var less := args[..|args| - 1];
      assert args == less + [args[|args| - 1]];
      RenderTaken(items, less, [args[|args| - 1]]);
    }
  }

  /** A format put together from two prints what the first prints for its arguments, and then what the second prints. */
  lemma FormatConcat(a: Chars, b: Chars, x: seq<Arg>, y: seq<Arg>)
    requires TakesAll(a, x)
    ensures Meaning(a + b, 0, x + y) ==
            if Meaning(b, 0, y) == None then None else Some(Meaning(a, 0, x).value + Meaning(b, 0, y).value)
  {
    TakesAllTaken(a, x);
    ParseConcat(a, b, 0);
    if Parse(b, 0).Some? {
      var items := Parse(a, 0).value;
      RenderTaken(items, x, y);
      RenderConcat(items, Parse(b, 0).value, x + y);
      assert (x + y)[|x|..] == y;
    }
  }
}
