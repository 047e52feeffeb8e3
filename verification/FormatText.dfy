/**
 What format strings print, end to end.
 */
module FormatText {
  import opened Arithmetic
  import opened Format
  import opened Integers
  import opened IntegerParse
  import opened IntegerText
  import opened Output

  /** The flags a format string can write itself. */
  predicate Written(s: Spec) {
    s.Spec? ==>
      && Pointer !in s.flags && Signed !in s.flags && UpperCase !in s.flags
      && (Precision in s.flags || s.precision == 0)
  }

  lemma {:induction false} FlagsWritten(fmt: Text, i: nat, flags: Flags)
    requires flags <= {ZeroPad, Left, Plus, Space, Hash}
    ensures FlagsFrom(fmt, i, flags).flags <= {ZeroPad, Left, Plus, Space, Hash}
    decreases |fmt| - i
  {
    if i < |fmt| && FlagFor(fmt[i]) != {} {
      FlagsWritten(fmt, i + 1, flags + FlagFor(fmt[i]));
    }
  }

  lemma WidthWritten(fmt: Text, args: seq<Arg>, flags: Flags, i: nat, a: nat)
    requires i <= |fmt| && flags <= {ZeroPad, Left, Plus, Space, Hash}
    ensures Written(WidthAt(fmt, args, flags, i, a))
  {
  }

  lemma PrecisionWritten(fmt: Text, args: seq<Arg>, s: Spec)
    requires Written(s) && (s.Spec? ==> s.i <= |fmt|)
    ensures Written(PrecisionAt(fmt, args, s))
  {
  }

  lemma LengthWritten(fmt: Text, s: Spec)
    requires Written(s) && (s.Spec? ==> s.i <= |fmt|)
    ensures Written(LengthAt(fmt, s))
  {
  }

  lemma SpecWritten(fmt: Text, args: seq<Arg>, i: nat, a: nat)
    requires i < |fmt|
    ensures Written(SpecAt(fmt, args, i, a))
  {
    if i + 1 < |fmt| {
      FlagsWritten(fmt, i + 1, {});
      var f := FlagsFrom(fmt, i + 1, {});
      WidthWritten(fmt, args, f.flags, f.i, a);
      PrecisionWritten(fmt, args, WidthAt(fmt, args, f.flags, f.i, a));
      LengthWritten(fmt, PrecisionAt(fmt, args, WidthAt(fmt, args, f.flags, f.i, a)));
    }
  }

  /** The arms for integers call print_integer only with flags that make sense together. */
  lemma ConversionWellFlagged(c: char, value: nat, s: Spec)
    requires s.Spec? && Written(s)
    ensures WellFlagged(value, BaseOf(c), s.precision, IntegerFlags(c, s.flags))
  {
  }

  /** The number an integer conversion is to print. */
  function ArgumentOf(c: char, v: int, s: Spec): int
    requires s.Spec?
  {
    var flags := IntegerFlags(c, s.flags);
    if Signed in flags then AsSigned(v, SizeOf(flags)) else AsUnsigned(v, SizeOf(flags))
  }

  lemma ConversionIsField(c: char, v: int, s: Spec)
    requires s.Spec?
    ensures IntegerConversion(c, v, s)
         == Field(Magnitude(ArgumentOf(c, v, s)), ArgumentOf(c, v, s) < 0, BaseOf(c), s.precision, s.width, IntegerFlags(c, s.flags))
  {
  }

  /** The field that the conversion at the specification s prints reads back as the argument, cut to its type. */
  predicate ReadsBack(c: char, v: int, s: Spec)
    requires s.Spec?
  {
    var n := ArgumentOf(c, v, s);
    Parse(IntegerConversion(c, v, s), BaseOf(c)) == Number(n < 0, Magnitude(n))
  }

  /** An integer conversion of any format string prints a text that reads back as its argument, cut to its type, if and
      only if the field fits as `ReadsBackExactly` has it. */
  lemma ConversionReadsBack(fmt: Text, args: seq<Arg>, i: nat, a: nat, c: char, v: int)
    requires i < |fmt| && SpecAt(fmt, args, i, a).Spec?
    ensures var s := SpecAt(fmt, args, i, a);
      var n := ArgumentOf(c, v, s);
      ReadsBack(c, v, s) == FitsBack(Magnitude(n), n < 0, BaseOf(c), s.precision, s.width, IntegerFlags(c, s.flags))
  {
    var s := SpecAt(fmt, args, i, a);
    var n := ArgumentOf(c, v, s);
    SpecWritten(fmt, args, i, a);
    ConversionWellFlagged(c, Magnitude(n), s);
    ConversionIsField(c, v, s);
    FitsBackExactly(Magnitude(n), n < 0, BaseOf(c), s.precision, s.width, IntegerFlags(c, s.flags));
  }

  /** %p alone: "0x" and sixteen digits, or "(nil)". */
  lemma PointerPrinted(address: nat)
    requires address < TWO_64
    ensures var d := Digits(address, 16, false);
      |d| <= 16 &&
      Formatted("%p", [Address(address)], 0, 0)
      == Printed(if address == 0 then "(nil)" else "0x" + Repeat('0', 16 - |d|) + d, 1)
  {
    PointerSpec(address);
    DigitsFit(address, 16, false);
    if address != 0 {
      PointerField(address);
    }
    var text := PointerText(address, Spec({}, 0, 0, 1, 0));
    assert {} + {ZeroPad, Pointer} == {ZeroPad, Pointer};
    assert text + "" == text;
  }

  lemma PointerSpec(address: nat)
    ensures var s := Spec({}, 0, 0, 1, 0);
      && SpecAt("%p", [Address(address)], 0, 0) == s
      && PieceAt("%p", [Address(address)], 0, 0) == Piece(PointerText(address, s), 2, 1)
  {
    assert FlagsFrom("%p", 1, {}) == Flagged({}, 1);
  }

  lemma OrdinaryCharacter(fmt: Text, args: seq<Arg>, i: nat, a: nat)
    requires i < |fmt| && fmt[i] != '%'
    ensures Formatted(fmt, args, i, a) == Prepended([fmt[i]], Formatted(fmt, args, i + 1, a))
  {
  }

  lemma PrependedTwice(whole: Outcome, t: Text, u: Text, r: Outcome)
    requires whole == Prepended(t, Prepended(u, r))
    ensures whole == Prepended(t + u, r)
  {
    assert r.Printed? ==> t + (u + r.t) == t + u + r.t;
  }

  lemma NothingPrepended(r: Outcome)
    ensures Prepended("", r) == r
  {
    assert r.Printed? ==> "" + r.t == r.t;
  }

  /** Characters put in front of what follows, one after the other. */
  lemma {:induction false} PlainRun(fmt: Text, following: int -> Outcome, i: nat, n: nat)
    requires i + n <= |fmt| && forall k :: i <= k < i + n ==> following(k) == Prepended([fmt[k]], following(k + 1))
    ensures following(i) == Prepended(fmt[i..i + n], following(i + n))
    decreases n
  {
    if n == 0 {
      assert fmt[i..i] == "";
      NothingPrepended(following(i));
    } else {
      PlainRun(fmt, following, i + 1, n - 1);
      assert [fmt[i]] + fmt[i + 1..i + n] == fmt[i..i + n];
      PrependedTwice(following(i), [fmt[i]], fmt[i + 1..i + n], following(i + n));
    }
  }

  /** What is printed from each place of the format string on. */
  function From(fmt: Text, args: seq<Arg>, a: nat): int -> Outcome {
    (i: int) => if i >= 0 then Formatted(fmt, args, i, a) else Unknown
  }

  /** Text without a percent sign is printed as it is, in front of what follows it. */
  lemma PlainText(fmt: Text, args: seq<Arg>, i: nat, n: nat, a: nat, following: int -> Outcome)
    requires i + n <= |fmt| && forall k :: i <= k < i + n ==> fmt[k] != '%'
    requires following == From(fmt, args, a)
    ensures following(i) == Prepended(fmt[i..i + n], following(i + n))
  {
    forall k | i <= k < i + n
      ensures following(k) == Prepended([fmt[k]], following(k + 1))
    {
      FromOrdinary(fmt, args, a, k);
    }
    PlainRun(fmt, following, i, n);
  }

  lemma FromOrdinary(fmt: Text, args: seq<Arg>, a: nat, k: nat)
    requires k < |fmt| && fmt[k] != '%'
    ensures From(fmt, args, a)(k) == Prepended([fmt[k]], From(fmt, args, a)(k + 1))
  {
    OrdinaryCharacter(fmt, args, k, a);
  }

  lemma {:induction false} FlagsRun(fmt: Text, i: nat, j: nat, flags: Flags)
    requires i <= j <= |fmt| && forall k :: i <= k < j ==> FlagFor(fmt[k]) != {}
    ensures FlagsFrom(fmt, i, flags).i >= j
    decreases j - i
  {
    if i < j {
      FlagsRun(fmt, i + 1, j, flags + FlagFor(fmt[i]));
    }
  }

  /** Nothing is defined for a format string that ends behind flags, or flags and a width: the code would read past its
      end. */
  lemma EndsInsideSpecification(fmt: Text, args: seq<Arg>, i: nat, j: nat, a: nat)
    requires i + 1 < |fmt| && fmt[i] == '%' && i < j <= |fmt|
    requires forall k :: i < k < j ==> FlagFor(fmt[k]) != {}
    requires forall k :: j <= k < |fmt| ==> IsDecimal(fmt[k])
    ensures Formatted(fmt, args, i, a) == Unknown
  {
    FlagsRun(fmt, i + 1, j, {});
    var f := FlagsFrom(fmt, i + 1, {});
    if f.i < |fmt| {
      NumeralIs(fmt, f.i, |fmt|);
    }
    assert At(fmt, |fmt|) == NUL;
  }
}
