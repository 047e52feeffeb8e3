/**
 Format strings: format_string_loop over typed arguments, and vsnprintf, which keeps what fits and counts everything.
 */
module Format {
  import opened Arithmetic
  import opened IntegerParse
  import opened Integers
  import opened IntegerText
  import opened Output

  /** An argument, by what va_arg can read from it. */
  datatype Arg = Int(v: int) | Address(address: nat) | Str(s: Text) | Null {
    predicate Valid() {
      (Address? ==> address < TWO_64) && (Str? ==> NUL !in s)
    }
  }

  /** The character at a place of a format string; its terminator behind the end. */
  function At(fmt: Text, i: nat): char { if i < |fmt| then fmt[i] else NUL }

  /** Two's complement reading of the low bits. */
  function AsUnsigned(v: int, size: nat): (u: nat)
    requires size > 0
    ensures u < size
  {
    v % size
  }

  function AsSigned(v: int, size: nat): (s: int)
    requires size > 0 && size % 2 == 0
    ensures -(size / 2) <= s < size / 2
  {
    (v + size / 2) % size - size / 2
  }

  // ---- The parts of a conversion specification ----

  function FlagFor(c: char): set<Modifier> {
    if c == '0' then {ZeroPad} else if c == '-' then {Left} else if c == '+' then {Plus}
    else if c == ' ' then {Space} else if c == '#' then {Hash} else {}
  }

  datatype Flagged = Flagged(flags: Flags, i: nat)

  function FlagsFrom(fmt: Text, i: nat, flags: Flags): (r: Flagged)
    ensures i <= r.i && (i <= |fmt| ==> r.i <= |fmt|)
    decreases |fmt| - i
  {
    if i < |fmt| && FlagFor(fmt[i]) != {} then FlagsFrom(fmt, i + 1, flags + FlagFor(fmt[i])) else Flagged(flags, i)
  }

  predicate IsDecimal(c: char) { '0' <= c <= '9' }

  datatype Numeral = Numeral(n: nat, i: nat)

  /** The decimal number at a place, modulo 2^32, and the place behind it. */
  function NumeralAt(fmt: Text, i: nat): (r: Numeral)
    requires i <= |fmt|
    ensures i <= r.i <= |fmt|
  {
    var n := Leading(fmt[i..], 10);
    Numeral(ValueOf(fmt[i..i + n], 10) % TWO_32, i + n)
  }

  /** It ends where the digits do. */
  lemma NumeralIs(fmt: Text, i: nat, j: nat)
    requires i <= j <= |fmt| && !IsDecimal(At(fmt, j)) && forall k :: i <= k < j ==> IsDecimal(fmt[k])
    ensures NumeralAt(fmt, i) == Numeral(ValueOf(fmt[i..j], 10) % TWO_32, j)
  {
    LeadingIs(fmt[i..j], fmt[j..], 10);
    assert fmt[i..j] + fmt[j..] == fmt[i..];
  }

  /** A specification read up to place i with a arguments used; or the format string ended where the code checks for
      its end; or an argument is missing or of another kind. */
  datatype Spec =
    | Spec(flags: Flags, width: nat, precision: nat, i: nat, a: nat)
    | Ended
    | Undefined

  /** ADVANCE_IN_FORMAT_STRING. */
  function Advanced(fmt: Text, s: Spec): (r: Spec)
    ensures s.Spec? && r.Spec? ==> r.i == s.i + 1 < |fmt| && r.a == s.a
  {
    if !s.Spec? then s
    else if s.i + 1 < |fmt| then s.(i := s.i + 1)
    else Ended
  }

  function WidthAt(fmt: Text, args: seq<Arg>, flags: Flags, i: nat, a: nat): (r: Spec)
    requires i <= |fmt|
    ensures r.Spec? ==> i <= r.i <= |fmt|
  {
    if IsDecimal(At(fmt, i)) then
      var n := NumeralAt(fmt, i);
      Spec(flags, n.n, 0, n.i, a)
    else if At(fmt, i) == '*' then
      if a < |args| && args[a].Int? then
        var w := AsSigned(args[a].v, TWO_32);
        Advanced(fmt, if w < 0 then Spec(flags + {Left}, -w, 0, i, a + 1) else Spec(flags, w, 0, i, a + 1))
      else Undefined
    else Spec(flags, 0, 0, i, a)
  }

  function PrecisionAt(fmt: Text, args: seq<Arg>, s: Spec): (r: Spec)
    requires s.Spec? ==> s.i <= |fmt|
    ensures s.Spec? && r.Spec? ==> s.i <= r.i <= |fmt|
  {
    if !s.Spec? || At(fmt, s.i) != '.' then s
    else
      var t := Advanced(fmt, s.(flags := s.flags + {Precision}));
      if !t.Spec? then t
      else if IsDecimal(fmt[t.i]) then
        var n := NumeralAt(fmt, t.i);
        t.(precision := n.n, i := n.i)
      else if fmt[t.i] == '*' then
        if t.a < |args| && args[t.a].Int? then
          var p := AsSigned(args[t.a].v, TWO_32);
          Advanced(fmt, t.(precision := if p > 0 then p else 0, a := t.a + 1))
        else Undefined
      else t
  }

  function LengthAt(fmt: Text, s: Spec): (r: Spec)
    requires s.Spec? ==> s.i <= |fmt|
    ensures s.Spec? && r.Spec? ==> s.i <= r.i <= |fmt|
  {
    if !s.Spec? then s
    else if At(fmt, s.i) == 'l' then
      var t := Advanced(fmt, s.(flags := s.flags + {Long}));
      if t.Spec? && fmt[t.i] == 'l' then Advanced(fmt, t.(flags := t.flags + {LongLong})) else t
    else if At(fmt, s.i) == 'h' then
      var t := Advanced(fmt, s.(flags := s.flags + {Short}));
      if t.Spec? && fmt[t.i] == 'h' then Advanced(fmt, t.(flags := t.flags + {Char})) else t
    else if At(fmt, s.i) == 't' || At(fmt, s.i) == 'j' || At(fmt, s.i) == 'z' then
      Advanced(fmt, s.(flags := s.flags + {Long}))
    else s
  }

  /** Everything between the percent sign, at place i, and the conversion character. */
  function SpecAt(fmt: Text, args: seq<Arg>, i: nat, a: nat): (r: Spec)
    requires i < |fmt|
    ensures r.Spec? ==> i < r.i <= |fmt|
  {
    if i + 1 >= |fmt| then Ended
    else
      var f := FlagsFrom(fmt, i + 1, {});
      LengthAt(fmt, PrecisionAt(fmt, args, WidthAt(fmt, args, f.flags, f.i, a)))
  }

  // ---- Conversions ----

  predicate IsIntegral(c: char) {
    c == 'd' || c == 'i' || c == 'u' || c == 'x' || c == 'X' || c == 'o' || c == 'b'
  }

  function BaseOf(c: char): (base: nat)
    ensures IsBase(base)
  {
    if c == 'x' || c == 'X' then 16 else if c == 'o' then 8 else if c == 'b' then 2 else 10
  }

  /** The flags with which an integer is printed. */
  function IntegerFlags(c: char, flags: Flags): Flags {
    var f0 := if c == 'd' || c == 'i' then flags + {Signed} else flags;
    var f1 := if BaseOf(c) == 10 then f0 - {Hash} else f0;
    var f2 := if c == 'X' then f1 + {UpperCase} else f1;
    var f3 := if Precision in f2 then f2 - {ZeroPad} else f2;
    if Signed in f3 then f3 else f3 - {Plus, Space}
  }

  /** The size, as a power of two, of the type an integer argument is read as. */
  function SizeOf(flags: Flags): (size: nat)
    ensures size > 0 && size % 2 == 0 && size <= TWO_64
  {
    if LongLong in flags || Long in flags then TWO_64
    else if Char in flags then 0x100
    else if Short in flags then 0x1_0000
    else TWO_32
  }

  /** ABS_FOR_PRINTING, on mathematical integers. */
  function Magnitude(value: int): nat { if value < 0 then -value else value }

  function IntegerConversion(c: char, v: int, s: Spec): Text
    requires s.Spec?
  {
    var flags := IntegerFlags(c, s.flags);
    if Signed in flags then
      var value := AsSigned(v, SizeOf(flags));
      Field(Magnitude(value), value < 0, BaseOf(c), s.precision, s.width, flags)
    else Field(AsUnsigned(v, SizeOf(flags)), false, BaseOf(c), s.precision, s.width, flags)
  }

  /** A text with `pad` blanks before or behind it. */
  function Beside(t: Text, pad: nat, flags: Flags): Text {
    if Left in flags then t + Repeat(' ', pad) else Repeat(' ', pad) + t
  }

  function CharText(v: int, s: Spec): Text
    requires s.Spec?
  {
    Beside([AsUnsigned(v, 0x100) as char], Missing(s.width, 1), s.flags)
  }

  function StringLength(t: Text, s: Spec): nat
    requires s.Spec?
  {
    var l := Least(|t|, if s.precision > 0 then s.precision else INT_MAX);
    if Precision in s.flags then Least(l, s.precision) else l
  }

  function StringText(t: Text, s: Spec): Text
    requires s.Spec?
  {
    Beside(if Precision in s.flags then t[..Least(|t|, s.precision)] else t, Missing(s.width, StringLength(t, s)), s.flags)
  }

  function PointerText(v: nat, s: Spec): Text
    requires s.Spec?
  {
    var flags := s.flags + {ZeroPad, Pointer};
    if v == 0 then Padded("(nil)", 18, flags) else Field(v, false, 16, s.precision, 18, flags)
  }

  /** What a conversion prints and how many arguments it takes; or nothing is defined for it. */
  datatype Outcome = Printed(t: Text, used: nat) | Unknown

  function Conversion(c: char, args: seq<Arg>, s: Spec): (r: Outcome)
    requires s.Spec?
  {
    if c == NUL || c == 'n' then Unknown
    else if IsIntegral(c) then
      if s.a < |args| && args[s.a].Int? then Printed(IntegerConversion(c, args[s.a].v, s), 1) else Unknown
    else if c == 'c' then
      if s.a < |args| && args[s.a].Int? then Printed(CharText(args[s.a].v, s), 1) else Unknown
    else if c == 's' then
      if s.a < |args| && args[s.a].Str? then Printed(StringText(args[s.a].s, s), 1)
      else if s.a < |args| && args[s.a].Null? then Printed(Padded("(null)", s.width, s.flags), 1)
      else Unknown
    else if c == 'p' then
      if s.a < |args| && args[s.a].Address? then Printed(PointerText(args[s.a].address, s), 1) else Unknown
    else if c == '%' then Printed("%", 0)
    else Printed([c], 0)
  }

  /** One turn of the loop: a text, and where it goes on with how many arguments used; or the end of the format string
      inside a specification; or nothing defined. */
  datatype Piece = Piece(t: Text, i: nat, a: nat) | End | Nothing

  function SpecPiece(fmt: Text, args: seq<Arg>, s: Spec): (p: Piece)
    ensures p.Piece? ==> s.Spec? && p.i == s.i + 1
  {
    if s.Ended? then End
    else if s.Undefined? then Nothing
    else
      var r := Conversion(At(fmt, s.i), args, s);
      if r.Unknown? then Nothing else Piece(r.t, s.i + 1, s.a + r.used)
  }

  function PieceAt(fmt: Text, args: seq<Arg>, i: nat, a: nat): (p: Piece)
    requires i < |fmt|
    ensures p.Piece? ==> i < p.i
  {
    if fmt[i] != '%' then Piece([fmt[i]], i + 1, a) else SpecPiece(fmt, args, SpecAt(fmt, args, i, a))
  }

  /** What the format string prints from place i on, with a arguments used; not defined when the string ends between
      the flags and the conversion character, for %n, and for arguments that are missing or of another kind. */
  function Formatted(fmt: Text, args: seq<Arg>, i: nat, a: nat): (r: Outcome)
    decreases |fmt| - i
  {
    if i >= |fmt| then Printed("", a)
    else
      match PieceAt(fmt, args, i, a)
      case Piece(t, j, b) => Prepended(t, Formatted(fmt, args, j, b))
      case End => Printed("", a)
      case Nothing => Unknown
  }

  function Prepended(t: Text, r: Outcome): Outcome {
    if r.Printed? then Printed(t + r.t, r.used) else r
  }

  // ---- The code ----

  /** parse_flags. */
  method ParseFlags(fmt: Text, start: nat) returns (flags: Flags, i: nat)
    ensures Flagged(flags, i) == FlagsFrom(fmt, start, {})
  {
    flags, i := {}, start;
    while true
      invariant FlagsFrom(fmt, i, flags) == FlagsFrom(fmt, start, {})
      decreases |fmt| - i
    {
      var c := At(fmt, i);
      if c == '0' {
        flags, i := flags + {ZeroPad}, i + 1;
      } else if c == '-' {
        flags, i := flags + {Left}, i + 1;
      } else if c == '+' {
        flags, i := flags + {Plus}, i + 1;
      } else if c == ' ' {
        flags, i := flags + {Space}, i + 1;
      } else if c == '#' {
        flags, i := flags + {Hash}, i + 1;
      } else {
        return;
      }
    }
  }

  /** atou_. */
  method Atou(fmt: Text, start: nat) returns (n: nat, i: nat)
    requires start <= |fmt|
    ensures Numeral(n, i) == NumeralAt(fmt, start)
  {
    n, i := 0, start;
    while IsDecimal(At(fmt, i))
      invariant start <= i <= |fmt| && n == ValueOf(fmt[start..i], 10) % TWO_32
      invariant forall k :: start <= k < i ==> IsDecimal(fmt[k])
      decreases |fmt| - i
    {
      ValueOfNext(fmt[start..i], At(fmt, i));
      assert fmt[start..i] + [At(fmt, i)] == fmt[start..i + 1];
      n := (n * 10 + (At(fmt, i) as int - '0' as int)) % TWO_32;
      i := i + 1;
    }
    NumeralIs(fmt, start, i);
  }

  /** One digit more may be added modulo 2^32. */
  lemma ValueOfNext(t: Text, c: char)
    requires IsDecimal(c)
    ensures ValueOf(t + [c], 10) % TWO_32 == (ValueOf(t, 10) % TWO_32 * 10 + (c as int - '0' as int)) % TWO_32
  {
    ValueOfLast(t, c, 10);
    DigitModulo(ValueOf(t, 10), c as int - '0' as int, TWO_32);
  }

  /** The width, the precision and the length modifiers. */
  method ParseWidth(fmt: Text, args: seq<Arg>, flags: Flags, i: nat, a: nat) returns (s: Spec)
    requires i <= |fmt|
    ensures s == WidthAt(fmt, args, flags, i, a)
  {
    if IsDecimal(At(fmt, i)) {
      var width, j := Atou(fmt, i);
      return Spec(flags, width, 0, j, a);
    }
    if At(fmt, i) != '*' {
      return Spec(flags, 0, 0, i, a);
    }
    if a >= |args| || !args[a].Int? {
      return Undefined;
    }
    var w := AsSigned(args[a].v, TWO_32);
    if w < 0 {
      return Advanced(fmt, Spec(flags + {Left}, -w, 0, i, a + 1));
    }
    return Advanced(fmt, Spec(flags, w, 0, i, a + 1));
  }

  method ParsePrecision(fmt: Text, args: seq<Arg>, s: Spec) returns (r: Spec)
    requires s.Spec? && s.i <= |fmt|
    ensures r == PrecisionAt(fmt, args, s)
  {
    if At(fmt, s.i) != '.' {
      return s;
    }
    r := Advanced(fmt, s.(flags := s.flags + {Precision}));
    if !r.Spec? {
      return;
    }
    if IsDecimal(fmt[r.i]) {
      var precision, j := Atou(fmt, r.i);
      return r.(precision := precision, i := j);
    }
    if fmt[r.i] != '*' {
      return;
    }
    if r.a >= |args| || !args[r.a].Int? {
      return Undefined;
    }
    var p := AsSigned(args[r.a].v, TWO_32);
    return Advanced(fmt, r.(precision := if p > 0 then p else 0, a := r.a + 1));
  }

  /** The specification at the percent sign at place i. */
  method ParseSpec(fmt: Text, args: seq<Arg>, i: nat, a: nat) returns (s: Spec)
    requires i < |fmt|
    ensures s == SpecAt(fmt, args, i, a)
  {
    if i + 1 >= |fmt| {
      return Ended;
    }
    var flags, j := ParseFlags(fmt, i + 1);
    s := ParseWidth(fmt, args, flags, j, a);
    if !s.Spec? {
      return;
    }
    s := ParsePrecision(fmt, args, s);
    return LengthAt(fmt, s);
  }

  /** The flags, as the arms for integers change them before they look at the argument. */
  method AdjustFlags(c: char, f: Flags) returns (flags: Flags)
    ensures (if Signed in flags then flags else flags - {Plus, Space}) == IntegerFlags(c, f)
  {
    flags := f;
    if c == 'd' || c == 'i' {
      flags := flags + {Signed};
    }
    if BaseOf(c) == 10 {
      flags := flags - {Hash};
    }
    if c == 'X' {
      flags := flags + {UpperCase};
    }
    if Precision in flags {
      flags := flags - {ZeroPad};
    }
  }

  /** The arms for integers. */
  method PrintIntegral(out: Gadget, c: char, v: int, s: Spec)
    requires out.Valid() && s.Spec? && IsIntegral(c)
    modifies out, out.buffer
    ensures out.Valid() && out.text == old(out.text) + IntegerConversion(c, v, s)
  {
    var flags := AdjustFlags(c, s.flags);
    if Signed in flags {
      var value := AsSigned(v, SizeOf(flags));
      SignedConversion(c, v, s, flags);
      PrintInteger(out, Magnitude(value), value < 0, BaseOf(c), s.precision, s.width, flags);
    } else {
      flags := flags - {Plus, Space};
      UnsignedConversion(c, v, s, flags);
      PrintInteger(out, AsUnsigned(v, SizeOf(flags)), false, BaseOf(c), s.precision, s.width, flags);
    }
  }

  lemma SignedConversion(c: char, v: int, s: Spec, flags: Flags)
    requires s.Spec? && flags == IntegerFlags(c, s.flags) && Signed in flags
    ensures var value := AsSigned(v, SizeOf(flags));
      IntegerConversion(c, v, s)
      == Field(Magnitude(value), value < 0, BaseOf(c), s.precision, s.width, flags)
  {
  }

  lemma UnsignedConversion(c: char, v: int, s: Spec, flags: Flags)
    requires s.Spec? && flags == IntegerFlags(c, s.flags) && Signed !in flags
    ensures IntegerConversion(c, v, s) == Field(AsUnsigned(v, SizeOf(flags)), false, BaseOf(c), s.precision, s.width, flags)
  {
  }

  /** The arm for characters. */
  method PrintChar(out: Gadget, v: int, s: Spec)
    requires out.Valid() && s.Spec?
    modifies out, out.buffer
    ensures out.Valid() && out.text == old(out.text) + CharText(v, s)
  {
    var c := AsUnsigned(v, 0x100) as char;
    if Left !in s.flags {
      out.PutMany(' ', Missing(s.width, 1));
    }
    out.PutChar(c);
    if Left in s.flags {
      out.PutMany(' ', Missing(s.width, 1));
    }
  }

  /** The arm for strings. */
  method PrintString(out: Gadget, t: Text, s: Spec)
    requires out.Valid() && s.Spec?
    modifies out, out.buffer
    ensures out.Valid() && out.text == old(out.text) + StringText(t, s)
  {
    var pad := Missing(s.width, StringLength(t, s));
    if Left !in s.flags {
      out.PutMany(' ', pad);
    }
    ghost var lead := out.text;
    var p, precision: nat := 0, s.precision;
    while p < |t| && (Precision !in s.flags || precision > 0)
      invariant p <= |t| && out.Valid() && out.text == lead + t[..p]
      invariant Precision in s.flags ==> p + precision == s.precision
      decreases |t| - p
    {
      out.PutChar(t[p]);
      assert t[..p] + [t[p]] == t[..p + 1];
      p := p + 1;
      precision := if precision > 0 then precision - 1 else TWO_32 - 1;
    }
    if Left in s.flags {
      out.PutMany(' ', pad);
    }
  }

  /** The arm for pointers. */
  method PrintPointer(out: Gadget, value: nat, s: Spec)
    requires out.Valid() && s.Spec?
    modifies out, out.buffer
    ensures out.Valid() && out.text == old(out.text) + PointerText(value, s)
  {
    var flags := s.flags + {ZeroPad, Pointer};
    if value == 0 {
      Backwards(")lin(", "(nil)");
      out.OutRev(")lin(", 18, flags);
    } else {
      PrintInteger(out, value, false, 16, s.precision, 18, flags);
    }
  }

  /** One conversion. */
  method Convert(out: Gadget, c: char, args: seq<Arg>, s: Spec) returns (used: nat)
    requires out.Valid() && s.Spec? && Conversion(c, args, s).Printed?
    modifies out, out.buffer
    ensures out.Valid() && out.text == old(out.text) + Conversion(c, args, s).t && used == Conversion(c, args, s).used
  {
    used := 1;
    if IsIntegral(c) {
      PrintIntegral(out, c, args[s.a].v, s);
    } else if c == 'c' {
      PrintChar(out, args[s.a].v, s);
    } else if c == 's' {
      if args[s.a].Null? {
        Backwards(")llun(", "(null)");
        out.OutRev(")llun(", s.width, s.flags);
      } else {
        PrintString(out, args[s.a].s, s);
      }
    } else if c == 'p' {
      PrintPointer(out, args[s.a].address, s);
    } else {
      used := 0;
      out.PutChar(c);
    }
  }

  /** Two texts that spell each other backwards. */
  lemma Backwards(t: Text, r: Text)
    requires |t| == |r| && forall i :: 0 <= i < |t| ==> r[i] == t[|t| - 1 - i]
    ensures Reversed(t) == r
  {
    forall i | 0 <= i < |t|
      ensures Reversed(t)[i] == r[i]
    {
      ReversedAt(t, i);
    }
  }

  lemma {:induction false} ReversedAt(t: Text, i: nat)
    requires i < |t|
    ensures Reversed(t)[i] == t[|t| - 1 - i]
    decreases |t|
  {
    if i < |t| - 1 {
      ReversedAt(t[1..], i);
    }
  }

  /** One specification: whether the format string ended in it, and where it goes on. */
  method PrintSpec(out: Gadget, fmt: Text, args: seq<Arg>, i: nat, a: nat)
    returns (ended: bool, j: nat, b: nat, ghost t: Text)
    requires out.Valid() && i < |fmt| && fmt[i] == '%' && !PieceAt(fmt, args, i, a).Nothing?
    modifies out, out.buffer
    ensures out.Valid() && out.text == old(out.text) + t
    ensures PieceAt(fmt, args, i, a) == if ended then End else Piece(t, j, b)
    ensures ended ==> t == ""
  {
    var s := ParseSpec(fmt, args, i, a);
    if s.Ended? {
      t := "";
      assert out.text == out.text + t;
      return true, i + 1, a, t;
    }
    var used := Convert(out, At(fmt, s.i), args, s);
    ended, j, b, t := false, s.i + 1, s.a + used, Conversion(At(fmt, s.i), args, s).t;
  }

  lemma Continues(text: Text, t: Text, rest: Outcome, whole: Outcome)
    requires whole == Prepended(t, rest) && whole.Printed?
    ensures rest.Printed? && text + t + rest.t == text + whole.t
  {
  }

  /** What C promises of a format string and its arguments: no terminator inside a string, and pointers of 64 bits. */
  predicate Passable(fmt: Text, args: seq<Arg>) {
    NUL !in fmt && forall k :: 0 <= k < |args| ==> args[k].Valid()
  }

  /** format_string_loop. */
  method FormatStringLoop(out: Gadget, fmt: Text, args: seq<Arg>)
    requires out.Valid() && Passable(fmt, args) && Formatted(fmt, args, 0, 0).Printed?
    modifies out, out.buffer
    ensures out.Valid() && out.text == old(out.text) + Formatted(fmt, args, 0, 0).t
  {
    var i: nat, a: nat := 0, 0;
    while i < |fmt|
      invariant out.Valid() && Formatted(fmt, args, i, a).Printed?
      invariant out.text + Formatted(fmt, args, i, a).t == old(out.text) + Formatted(fmt, args, 0, 0).t
      decreases |fmt| - i
    {
      ghost var whole := Formatted(fmt, args, i, a);
      if fmt[i] != '%' {
        Continues(out.text, [fmt[i]], Formatted(fmt, args, i + 1, a), whole);
        out.PutChar(fmt[i]);
        i := i + 1;
      } else {
        ghost var text := out.text;
        var ended, j, b, t := PrintSpec(out, fmt, args, i, a);
        if ended {
          return;
        }
        Continues(text, t, Formatted(fmt, args, j, b), whole);
        i, a := j, b;
      }
    }
    assert out.text + "" == out.text;
  }

  /** vsnprintf_impl. */
  method VsnprintfImpl(output: Gadget, fmt: Text, args: seq<Arg>) returns (length: nat)
    requires output.Valid() && output.text == ""
    requires Passable(fmt, args) && Formatted(fmt, args, 0, 0).Printed? && |Formatted(fmt, args, 0, 0).t| <= INT_MAX
    modifies output, output.buffer
    ensures var t := Formatted(fmt, args, 0, 0).t;
      && length == |t|
      && if output.callsFunction then output.sent == t[..Least(|t|, output.maxChars)]
         else output.maxChars <= |output.before| && output.buffer[..] == Terminated(output.before, t, output.maxChars)
  {
    FormatStringLoop(output, fmt, args);
    assert "" + Formatted(fmt, args, 0, 0).t == Formatted(fmt, args, 0, 0).t;
    output.AppendTermination();
    length := output.pos;
  }

  /** vsnprintf: returns the length of the whole text, whatever the size of the buffer, and leaves in the buffer the
      characters that fit before a terminator. */
  method Vsnprintf(buffer: array<char>, n: nat, fmt: Text, args: seq<Arg>) returns (length: nat)
    requires n <= buffer.Length
    requires Passable(fmt, args) && Formatted(fmt, args, 0, 0).Printed? && |Formatted(fmt, args, 0, 0).t| <= INT_MAX
    modifies buffer
    ensures var t := Formatted(fmt, args, 0, 0).t;
      && length == |t|
      && (n == 0 ==> buffer[..] == old(buffer[..]))
      && (n > 0 ==> var k := Least(|t|, Least(n, INT_MAX) - 1);
            buffer[..k] == t[..k] && buffer[k] == NUL && buffer[k + 1..] == old(buffer[k + 1..]))
  {
    var gadget := new Gadget(buffer, n);
    ghost var before := buffer[..];
    length := VsnprintfImpl(gadget, fmt, args);
    TerminatedParts(before, Formatted(fmt, args, 0, 0).t, Least(n, INT_MAX));
  }

  lemma TerminatedParts(before: Text, text: Text, m: nat)
    requires m <= |before|
    ensures var b := Terminated(before, text, m);
      if m == 0 then b == before
      else var k := Least(|text|, m - 1); b[..k] == text[..k] && b[k] == NUL && b[k + 1..] == before[k + 1..]
  {
  }

  /** vfctprintf, and vprintf with putchar: the function is called with the characters of the text, one after the
      other. */
  method Vfctprintf(fmt: Text, args: seq<Arg>) returns (length: nat, sent: Text)
    requires Passable(fmt, args) && Formatted(fmt, args, 0, 0).Printed? && |Formatted(fmt, args, 0, 0).t| <= INT_MAX
    ensures length == |Formatted(fmt, args, 0, 0).t| && sent == Formatted(fmt, args, 0, 0).t
  {
    var gadget := new Gadget.ForFunction();
    length := VsnprintfImpl(gadget, fmt, args);
    sent := gadget.sent;
  }
}
