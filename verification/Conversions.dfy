/**
 Conversion specifications by their text, %[flags][width][.precision][length]c, and what each conversion prints, in
 terms of that text alone (ISO C, section 7.21.6.1).
 */
module Conversions {
  import opened Arithmetic
  import opened Format
  import opened FormatText
  import opened IntegerParse
  import opened Integers
  import opened IntegerText
  import opened Output

  predicate IsFlag(c: char) {
    c == '-' || c == '+' || c == ' ' || c == '#' || c == '0'
  }

  /** A length modifier. */
  datatype Length = Plain | Hh | H | L | Ll | Z | J | T {
    function Text(): Text {
      match this
      case Plain => ""
      case Hh => "hh"
      case H => "h"
      case L => "l"
      case Ll => "ll"
      case Z => "z"
      case J => "j"
      case T => "t"
    }

    /** The flags that stand for it. */
    function Marks(): Flags {
      match this
      case Plain => {}
      case Hh => {Short, Char}
      case H => {Short}
      case Ll => {Long, LongLong}
      case _ => {Long}
    }

    /** The values of the type it names: int, char, short, and the others, which are 64 bits wide. */
    function Size(): (size: nat)
      ensures size > 0
    {
      match this
      case Plain => 0x1_0000_0000
      case Hh => 0x100
      case H => 0x1_0000
      case _ => 0x1_0000_0000_0000_0000
    }
  }

  predicate IsConversion(c: char) {
    c == 'd' || c == 'i' || c == 'u' || c == 'x' || c == 'X' || c == 'o' || c == 'b' || c == 'c' || c == 's' || c == 'p'
    || c == '%'
  }

  predicate AllFlags(t: Text) {
    t == "" || (IsFlag(t[0]) && AllFlags(t[1..]))
  }

  predicate AllDecimal(t: Text) {
    t == "" || ('0' <= t[0] <= '9' && AllDecimal(t[1..]))
  }

  lemma {:induction false} DecimalAt(t: Text, k: nat)
    requires AllDecimal(t) && k < |t|
    ensures IsDecimal(t[k])
    decreases k
  {
    if k > 0 {
      DecimalAt(t[1..], k - 1);
    }
  }

  /** An argument of type int. */
  function IntOf(v: int): (n: int)
    ensures -0x8000_0000 <= n < 0x8000_0000 && (n - v) % 0x1_0000_0000 == 0
  {
    (v + 0x8000_0000) % 0x1_0000_0000 - 0x8000_0000
  }

  /** Digits as the number they write, in 32 bits. */
  function Reading(t: Text): nat {
    ValueOf(t, 10) % 0x1_0000_0000
  }

  /** A width or a precision: none, one written in digits, or one taken from the arguments. */
  datatype Amount = Absent | Written(t: Text) | Taken(v: int) {
    function Text(): Text {
      match this
      case Absent => ""
      case Written(t) => t
      case Taken(_) => "*"
    }

    function Args(): seq<Arg> {
      if Taken? then [Int(v)] else []
    }

    /** The least number of characters it asks for. */
    function Width(): nat {
      match this
      case Absent => 0
      case Written(t) => Reading(t)
      case Taken(v) => if IntOf(v) < 0 then -IntOf(v) else IntOf(v)
    }

    /** A negative one asks for blanks on the right. */
    function LeftMark(): Flags {
      if Taken? && IntOf(v) < 0 then {Left} else {}
    }

    function PrecisionMark(): Flags {
      if Absent? then {} else {Modifier.Precision}
    }

    /** As a precision; a negative one counts as 0, not as left out. */
    function Precision(): nat {
      match this
      case Absent => 0
      case Written(t) => Reading(t)
      case Taken(v) => if IntOf(v) < 0 then 0 else IntOf(v)
    }
  }

  datatype Request = Request(flags: Text, width: Amount, precision: Amount, length: Length, c: char) {
    /** The parts can be told apart: a width does not begin with a zero, which would be a flag. */
    predicate Valid() {
      && AllFlags(flags)
      && (width.Written? ==> width.t != "" && width.t[0] != '0' && AllDecimal(width.t))
      && (precision.Written? ==> AllDecimal(precision.t))
      && IsConversion(c)
    }

    function PrecisionText(): Text {
      if precision.Absent? then "" else "." + precision.Text()
    }

    function Text(): Text {
      "%" + (flags + (width.Text() + (PrecisionText() + (length.Text() + [c]))))
    }

    function Args(): seq<Arg> {
      width.Args() + precision.Args()
    }

    /** Whether the text stands at the left end of its width. */
    predicate AtLeft() {
      '-' in flags || (width.Taken? && IntOf(width.v) < 0)
    }

    /** The flags of the specification as the code keeps them. */
    function Unsized(): Flags {
      Asked(flags) + width.LeftMark() + precision.PrecisionMark()
    }

    function Kept(): Flags {
      Unsized() + length.Marks()
    }
  }

  /** The flag characters of a text. */
  function Asked(t: Text): Flags {
    (if '-' in t then {Left} else {}) + (if '+' in t then {Plus} else {}) + (if ' ' in t then {Space} else {})
    + (if '#' in t then {Hash} else {}) + (if '0' in t then {ZeroPad} else {})
  }

  // ---- Reading a specification ----

  /** Text t stands in the format string at place i. */
  predicate Stands(fmt: Text, i: nat, t: Text)
    decreases |t|
  {
    if t == "" then i <= |fmt| else i < |fmt| && fmt[i] == t[0] && Stands(fmt, i + 1, t[1..])
  }

  lemma {:induction false} StandsIs(fmt: Text, i: nat, t: Text)
    requires i + |t| <= |fmt| && fmt[i..i + |t|] == t
    ensures Stands(fmt, i, t)
    decreases |t|
  {
    if t != "" {
      assert fmt[i] == fmt[i..i + |t|][0];
      assert fmt[i + 1..i + 1 + |t[1..]|] == t[1..];
      StandsIs(fmt, i + 1, t[1..]);
    }
  }

  lemma StandsWhole(t: Text)
    ensures Stands(t, 0, t)
  {
    assert t[0..|t|] == t;
    StandsIs(t, 0, t);
  }

  lemma {:induction false} StandsThere(fmt: Text, i: nat, t: Text)
    requires Stands(fmt, i, t)
    ensures i + |t| <= |fmt| && fmt[i..i + |t|] == t
    decreases |t|
  {
    if t != "" {
      StandsThere(fmt, i + 1, t[1..]);
      assert fmt[i..i + |t|] == [fmt[i]] + fmt[i + 1..i + |t|];
    }
  }

  lemma {:induction false} StandsApart(fmt: Text, i: nat, t: Text, u: Text)
    requires Stands(fmt, i, t + u)
    ensures Stands(fmt, i, t) && Stands(fmt, i + |t|, u)
    decreases |t|
  {
    if t == "" {
      assert t + u == u;
      StandsThere(fmt, i, u);
    } else {
      assert (t + u)[1..] == t[1..] + u;
      StandsApart(fmt, i + 1, t[1..], u);
    }
  }

  lemma StandsAt(fmt: Text, i: nat, t: Text, k: nat)
    requires Stands(fmt, i, t) && k < |t|
    ensures i + k < |fmt| && fmt[i + k] == t[k]
  {
    StandsThere(fmt, i, t);
    assert fmt[i..i + |t|][k] == t[k];
  }

  lemma AskedFirst(c: char, t: Text)
    requires IsFlag(c)
    ensures Asked([c] + t) == FlagFor(c) + Asked(t) && FlagFor(c) != {}
  {
    assert forall f :: f in [c] + t <==> f == c || f in t;
  }

  lemma {:induction false} FlagsRead(fmt: Text, i: nat, t: Text, flags: Flags)
    requires Stands(fmt, i, t) && AllFlags(t) && !IsFlag(At(fmt, i + |t|))
    ensures FlagsFrom(fmt, i, flags) == Flagged(flags + Asked(t), i + |t|)
    decreases |t|
  {
    if t != "" {
      StandsAt(fmt, i, t, 0);
      assert [t[0]] + t[1..] == t;
      StandsApart(fmt, i, [t[0]], t[1..]);
      AskedFirst(t[0], t[1..]);
      FlagsRead(fmt, i + 1, t[1..], flags + FlagFor(t[0]));
    } else {
      assert flags + Asked("") == flags;
    }
  }

  lemma NumeralRead(fmt: Text, i: nat, t: Text)
    requires Stands(fmt, i, t) && AllDecimal(t) && !IsDecimal(At(fmt, i + |t|))
    ensures NumeralAt(fmt, i) == Numeral(ValueOf(t, 10) % 0x1_0000_0000, i + |t|)
  {
    StandsThere(fmt, i, t);
    forall k | i <= k < i + |t| ensures IsDecimal(fmt[k]) {
      StandsAt(fmt, i, t, k - i);
      DecimalAt(t, k - i);
    }
    NumeralIs(fmt, i, i + |t|);
  }

  lemma WidthRead(fmt: Text, args: seq<Arg>, flags: Flags, i: nat, a: nat, w: Amount, next: char)
    requires Stands(fmt, i, w.Text()) && i + |w.Text()| < |fmt| && fmt[i + |w.Text()|] == next
    requires w.Written? ==> w.t != "" && AllDecimal(w.t)
    requires !IsDecimal(next) && next != '*' && (w.Taken? ==> a < |args| && args[a] == Int(w.v))
    ensures WidthAt(fmt, args, flags, i, a)
         == Spec(flags + w.LeftMark(), w.Width(), 0,
                 i + |w.Text()|, a + |w.Args()|)
  {
    hide NumeralAt, Stands;
    if w.Written? {
      StandsAt(fmt, i, w.t, 0);
      NumeralRead(fmt, i, w.t);
    } else if w.Taken? {
      StandsAt(fmt, i, "*", 0);
    }
    assert flags + {} == flags;
  }

  lemma PrecisionRead(fmt: Text, args: seq<Arg>, s: Spec, r: Request, next: char)
    requires s.Spec? && s.precision == 0 && Stands(fmt, s.i, r.PrecisionText())
    requires s.i + |r.PrecisionText()| < |fmt| && fmt[s.i + |r.PrecisionText()|] == next
    requires r.precision.Written? ==> AllDecimal(r.precision.t)
    requires !IsDecimal(next) && next != '*' && next != '.'
    requires r.precision.Taken? ==> s.a < |args| && args[s.a] == Int(r.precision.v)
    ensures PrecisionAt(fmt, args, s)
         == Spec(s.flags + r.precision.PrecisionMark(), s.width, r.precision.Precision(),
                 s.i + |r.PrecisionText()|, s.a + |r.precision.Args()|)
  {
    hide NumeralAt, Stands;
    if r.precision.Absent? {
      assert s.flags + {} == s.flags;
    } else {
      StandsApart(fmt, s.i, ".", r.precision.Text());
      StandsAt(fmt, s.i, ".", 0);
      AmountRead(fmt, args, s.(flags := s.flags + {Modifier.Precision}, i := s.i + 1), r.precision, next);
    }
  }

  /** What stands behind the point. */
  lemma AmountRead(fmt: Text, args: seq<Arg>, t: Spec, p: Amount, next: char)
    requires t.Spec? && t.precision == 0 && !p.Absent? && Stands(fmt, t.i, p.Text())
    requires t.i + |p.Text()| < |fmt| && fmt[t.i + |p.Text()|] == next && !IsDecimal(next) && next != '*'
    requires (p.Written? ==> AllDecimal(p.t)) && (p.Taken? ==> t.a < |args| && args[t.a] == Int(p.v))
    ensures var q := t.(precision := p.Precision(), i := t.i + |p.Text()|, a := t.a + |p.Args()|);
      if IsDecimal(fmt[t.i]) then
        q == (var n := NumeralAt(fmt, t.i); t.(precision := n.n, i := n.i))
      else if fmt[t.i] == '*' then
        && t.a < |args| && args[t.a].Int?
        && q == (var v := AsSigned(args[t.a].v, TWO_32);
                 Advanced(fmt, t.(precision := if v > 0 then v else 0, a := t.a + 1)))
      else q == t
  {
    hide NumeralAt, Stands;
    if p.Written? {
      if p.t != "" {
        StandsAt(fmt, t.i, p.t, 0);
        NumeralRead(fmt, t.i, p.t);
      }
    } else {
      StandsAt(fmt, t.i, "*", 0);
    }
  }

  lemma LengthRead(fmt: Text, s: Spec, r: Request)
    requires s.Spec? && IsConversion(r.c) && Stands(fmt, s.i, r.length.Text() + [r.c])
    ensures LengthAt(fmt, s)
         == s.(flags := s.flags + r.length.Marks(), i := s.i + |r.length.Text()|)
  {
    StandsAt(fmt, s.i, r.length.Text() + [r.c], 0);
    StandsAt(fmt, s.i, r.length.Text() + [r.c], |r.length.Text()|);
    if r.length.Ll? || r.length.Hh? {
      StandsAt(fmt, s.i, r.length.Text() + [r.c], 1);
    }
    if r.length.Ll? {
      assert s.flags + {Long} + {LongLong} == s.flags + {Long, LongLong};
    } else if r.length.Hh? {
      assert s.flags + {Short} + {Char} == s.flags + {Short, Char};
    } else {
      assert s.flags + {} == s.flags;
    }
  }

  /** Where the parts of a specification begin. */
  ghost predicate PartsAt(fmt: Text, i: nat, r: Request, w: nat, p: nat, l: nat) {
    && Stands(fmt, i, "%") && Stands(fmt, i + 1, r.flags) && w == i + 1 + |r.flags|
    && Stands(fmt, w, r.width.Text()) && p == w + |r.width.Text()|
    && Stands(fmt, p, r.PrecisionText()) && l == p + |r.PrecisionText()|
    && Stands(fmt, l, r.length.Text() + [r.c])
  }

  lemma PartsApart(fmt: Text, i: nat, f: Text, w: Text, p: Text, rest: Text, j: nat, k: nat, l: nat)
    requires Stands(fmt, i, "%" + (f + (w + (p + rest)))) && j == i + 1 + |f| && k == j + |w| && l == k + |p|
    ensures Stands(fmt, i, "%") && Stands(fmt, i + 1, f) && Stands(fmt, j, w) && Stands(fmt, k, p) && Stands(fmt, l, rest)
  {
    StandsApart(fmt, i, "%", f + (w + (p + rest)));
    StandsApart(fmt, i + 1, f, w + (p + rest));
    StandsApart(fmt, j, w, p + rest);
    StandsApart(fmt, k, p, rest);
  }

  lemma PartsFound(fmt: Text, i: nat, r: Request) returns (w: nat, p: nat, l: nat)
    requires Stands(fmt, i, r.Text())
    ensures PartsAt(fmt, i, r, w, p, l) && l + |r.length.Text()| == i + |r.Text()| - 1
  {
    w := i + 1 + |r.flags|;
    p := w + |r.width.Text()|;
    l := p + |r.PrecisionText()|;
    Joined(r, r.flags, r.width.Text(), r.PrecisionText(), r.length.Text() + [r.c]);
    PartsApart(fmt, i, r.flags, r.width.Text(), r.PrecisionText(), r.length.Text() + [r.c], w, p, l);
  }

  lemma Joined(r: Request, f: Text, w: Text, p: Text, rest: Text)
    requires f == r.flags && w == r.width.Text() && p == r.PrecisionText() && rest == r.length.Text() + [r.c]
    ensures r.Text() == "%" + (f + (w + (p + rest))) && |r.Text()| == 1 + |f| + |w| + |p| + |rest|
  {
  }

  lemma LengthBegins(length: Length, c: char)
    requires IsConversion(c)
    ensures var first := (length.Text() + [c])[0]; !IsDecimal(first) && !IsFlag(first) && first != '*' && first != '.'
  {
  }

  /** The character behind the precision belongs to no number. */
  lemma BehindPrecision(fmt: Text, length: Length, c: char, l: nat)
    requires IsConversion(c) && Stands(fmt, l, length.Text() + [c])
    ensures l < |fmt| && !IsDecimal(fmt[l]) && !IsFlag(fmt[l]) && fmt[l] != '*' && fmt[l] != '.'
  {
    LengthBegins(length, c);
    StandsAt(fmt, l, length.Text() + [c], 0);
  }

  lemma BehindWidth(fmt: Text, i: nat, r: Request, w: nat, p: nat, l: nat)
    requires r.Valid() && PartsAt(fmt, i, r, w, p, l)
    ensures p < |fmt| && !IsDecimal(fmt[p]) && !IsFlag(fmt[p]) && fmt[p] != '*'
  {
    BehindPrecision(fmt, r.length, r.c, l);
    if !r.precision.Absent? {
      StandsAt(fmt, p, r.PrecisionText(), 0);
    }
  }

  lemma BehindFlags(fmt: Text, i: nat, r: Request, w: nat, p: nat, l: nat)
    requires r.Valid() && PartsAt(fmt, i, r, w, p, l)
    ensures w < |fmt| && !IsFlag(fmt[w])
  {
    BehindWidth(fmt, i, r, w, p, l);
    if !r.width.Absent? {
      StandsAt(fmt, w, r.width.Text(), 0);
    }
  }

  /** The arguments of a specification, from place a on. */
  predicate Given(args: seq<Arg>, a: nat, r: Request) {
    var b := a + |r.width.Args()|;
    && (r.width.Taken? ==> a < |args| && args[a] == Int(r.width.v))
    && (r.precision.Taken? ==> b < |args| && args[b] == Int(r.precision.v))
  }

  /** Every part ends where it should. */
  ghost predicate Delimited(fmt: Text, r: Request, w: nat, p: nat, l: nat) {
    && w < |fmt| && !IsFlag(fmt[w]) && p < |fmt| && !IsDecimal(fmt[p]) && fmt[p] != '*'
    && l < |fmt| && !IsDecimal(fmt[l]) && fmt[l] != '*' && fmt[l] != '.'
    && AllFlags(r.flags) && (r.width.Written? ==> r.width.t != "" && AllDecimal(r.width.t))
    && (r.precision.Written? ==> AllDecimal(r.precision.t))
  }

  lemma PartsDelimited(fmt: Text, i: nat, r: Request, w: nat, p: nat, l: nat)
    requires r.Valid() && PartsAt(fmt, i, r, w, p, l)
    ensures Delimited(fmt, r, w, p, l)
  {
    BehindFlags(fmt, i, r, w, p, l);
    BehindWidth(fmt, i, r, w, p, l);
    BehindPrecision(fmt, r.length, r.c, l);
  }

  lemma FlagsStep(fmt: Text, i: nat, flags: Text, w: nat)
    requires Stands(fmt, i, "%") && Stands(fmt, i + 1, flags) && w == i + 1 + |flags|
    requires AllFlags(flags) && w < |fmt| && !IsFlag(fmt[w])
    ensures i + 1 < |fmt| && fmt[i] == '%' && FlagsFrom(fmt, i + 1, {}) == Flagged(Asked(flags), w)
  {
    StandsAt(fmt, i, "%", 0);
    FlagsRead(fmt, i + 1, flags, {});
    assert {} + Asked(flags) == Asked(flags);
  }

  lemma WidthStep(fmt: Text, args: seq<Arg>, a: nat, r: Request, w: nat, p: nat, l: nat, f: Flags, s: Spec)
    requires Stands(fmt, w, r.width.Text()) && p == w + |r.width.Text()| && Delimited(fmt, r, w, p, l) && Given(args, a, r)
    requires s == Spec(f + r.width.LeftMark(), r.width.Width(), 0, p, a + |r.width.Args()|)
    ensures WidthAt(fmt, args, f, w, a) == s
  {
    WidthRead(fmt, args, f, w, a, r.width, fmt[p]);
  }

  lemma PrecisionStep(fmt: Text, args: seq<Arg>, a: nat, r: Request, w: nat, p: nat, l: nat, s: Spec, t: Spec)
    requires Stands(fmt, p, r.PrecisionText()) && l == p + |r.PrecisionText()| && Delimited(fmt, r, w, p, l)
    requires Given(args, a, r) && s.Spec? && s.precision == 0 && s.i == p && s.a == a + |r.width.Args()|
    requires t == Spec(s.flags + r.precision.PrecisionMark(), s.width, r.precision.Precision(), l, a + |r.Args()|)
    ensures PrecisionAt(fmt, args, s) == t
  {
    PrecisionRead(fmt, args, s, r, fmt[l]);
  }

  lemma LengthStep(fmt: Text, r: Request, l: nat, t: Spec, s: Spec)
    requires IsConversion(r.c) && Stands(fmt, l, r.length.Text() + [r.c]) && t.Spec? && t.i == l
    requires s == t.(flags := t.flags + r.length.Marks(), i := l + |r.length.Text()|)
    ensures LengthAt(fmt, t) == s && s.i < |fmt| && fmt[s.i] == r.c
  {
    LengthRead(fmt, t, r);
    StandsAt(fmt, l, r.length.Text() + [r.c], |r.length.Text()|);
  }

  lemma SpecIs(fmt: Text, args: seq<Arg>, i: nat, a: nat, f: Flagged, s: Spec, t: Spec, u: Spec)
    requires i + 1 < |fmt| && FlagsFrom(fmt, i + 1, {}) == f && f.i <= |fmt|
    requires WidthAt(fmt, args, f.flags, f.i, a) == s && PrecisionAt(fmt, args, s) == t && LengthAt(fmt, t) == u
    ensures SpecAt(fmt, args, i, a) == u
  {
  }

  lemma SpecParts(fmt: Text, args: seq<Arg>, i: nat, a: nat, r: Request, w: nat, p: nat, l: nat, t: Spec, u: Spec)
    requires PartsAt(fmt, i, r, w, p, l) && Delimited(fmt, r, w, p, l)
    requires Given(args, a, r)
    requires t == Spec(Asked(r.flags) + r.width.LeftMark()
                       + r.precision.PrecisionMark(), r.width.Width(), r.precision.Precision(),
                       l, a + |r.Args()|)
    requires LengthAt(fmt, t) == u
    ensures i < |fmt| && fmt[i] == '%' && SpecAt(fmt, args, i, a) == u
  {
    var f := Asked(r.flags) + r.width.LeftMark();
    var s := Spec(f, r.width.Width(), 0, p, a + |r.width.Args()|);
    FlagsStep(fmt, i, r.flags, w);
    WidthStep(fmt, args, a, r, w, p, l, Asked(r.flags), s);
    PrecisionStep(fmt, args, a, r, w, p, l, s, t);
    SpecIs(fmt, args, i, a, Flagged(Asked(r.flags), w), s, t, u);
  }

  lemma SpecFrom(fmt: Text, args: seq<Arg>, i: nat, a: nat, r: Request, w: nat, p: nat, l: nat, t: Spec, s: Spec)
    requires PartsAt(fmt, i, r, w, p, l) && Delimited(fmt, r, w, p, l) && IsConversion(r.c)
    requires Given(args, a, r)
    requires t == Spec(r.Unsized(), r.width.Width(),
                       r.precision.Precision(), l, a + |r.Args()|)
    requires s == t.(flags := t.flags + r.length.Marks(), i := l + |r.length.Text()|)
    ensures i < |fmt| && fmt[i] == '%' && s.i < |fmt| && fmt[s.i] == r.c && SpecAt(fmt, args, i, a) == s
  {
    LengthStep(fmt, r, l, t, s);
    SpecParts(fmt, args, i, a, r, w, p, l, t, s);
  }

  lemma PartsReady(fmt: Text, i: nat, r: Request) returns (w: nat, p: nat, l: nat)
    requires r.Valid() && Stands(fmt, i, r.Text())
    ensures PartsAt(fmt, i, r, w, p, l) && Delimited(fmt, r, w, p, l) && l + |r.length.Text()| == i + |r.Text()| - 1
  {
    w, p, l := PartsFound(fmt, i, r);
    PartsDelimited(fmt, i, r, w, p, l);
  }

  lemma SpecsFit(r: Request, l: nat, a: nat, end: nat, t: Spec, s: Spec)
    requires l + |r.length.Text()| == end
    requires t == Spec(r.Unsized(), r.width.Width(), r.precision.Precision(), l, a)
    requires s == Spec(r.Kept(), r.width.Width(), r.precision.Precision(), end, a)
    ensures s == t.(flags := t.flags + r.length.Marks(), i := l + |r.length.Text()|)
  {
  }

  /** A specification is read as its parts say. */
  lemma SpecRead(fmt: Text, args: seq<Arg>, i: nat, a: nat, r: Request, s: Spec)
    requires r.Valid() && Stands(fmt, i, r.Text()) && Given(args, a, r)
    requires s == Spec(r.Kept(), r.width.Width(), r.precision.Precision(), i + |r.Text()| - 1, a + |r.Args()|)
    ensures i < |fmt| && fmt[i] == '%' && s.i < |fmt| && fmt[s.i] == r.c && SpecAt(fmt, args, i, a) == s
  {
    hide SpecAt;
    var w, p, l := PartsReady(fmt, i, r);
    var t := Spec(r.Unsized(), r.width.Width(), r.precision.Precision(), l, a + |r.Args()|);
    SpecsFit(r, l, a + |r.Args()|, i + |r.Text()| - 1, t, s);
    SpecFrom(fmt, args, i, a, r, w, p, l, t, s);
  }

  // ---- What it prints ----

  /** A specification anywhere in a format string prints what its conversion gives, and the rest goes on behind it. */
  lemma PieceIs(fmt: Text, args: seq<Arg>, i: nat, a: nat, r: Request, s: Spec, t: Text, used: nat)
    requires r.Valid() && Stands(fmt, i, r.Text()) && Given(args, a, r)
    requires s == Spec(r.Kept(), r.width.Width(), r.precision.Precision(), i + |r.Text()| - 1, a + |r.Args()|)
    requires Conversion(r.c, args, s) == Printed(t, used)
    ensures i < |fmt| && PieceAt(fmt, args, i, a) == Piece(t, i + |r.Text()|, a + |r.Args()| + used)
  {
    hide SpecAt;
    SpecRead(fmt, args, i, a, r, s);
    assert At(fmt, s.i) == r.c;
  }

  lemma OnePiece(fmt: Text, args: seq<Arg>, t: Text, b: nat)
    requires fmt != "" && PieceAt(fmt, args, 0, 0) == Piece(t, |fmt|, b)
    ensures Formatted(fmt, args, 0, 0) == Printed(t, b)
  {
    hide PieceAt;
    assert Formatted(fmt, args, |fmt|, b) == Printed("", b);
    assert t + "" == t;
  }

  lemma PieceOfWhole(fmt: Text, args: seq<Arg>, r: Request, arg: Arg, s: Spec, t: Text)
    requires r.Valid() && fmt == r.Text() && args == r.Args() + [arg]
    requires s == Spec(r.Kept(), r.width.Width(), r.precision.Precision(), |fmt| - 1, |r.Args()|)
    requires Conversion(r.c, args, s) == Printed(t, 1)
    ensures PieceAt(fmt, args, 0, 0) == Piece(t, |fmt|, |r.Args()| + 1)
  {
    hide PieceAt;
    StandsWhole(fmt);
    PieceIs(fmt, args, 0, 0, r, s, t, 1);
  }

  /** A format string that is one specification, with its arguments and the one to convert. */
  lemma WholeIs(r: Request, arg: Arg, s: Spec, t: Text)
    requires r.Valid() && s == Spec(r.Kept(), r.width.Width(), r.precision.Precision(), |r.Text()| - 1, |r.Args()|)
    requires Conversion(r.c, r.Args() + [arg], s) == Printed(t, 1)
    ensures Formatted(r.Text(), r.Args() + [arg], 0, 0) == Printed(t, |r.Args()| + 1)
  {
    hide PieceAt;
    PieceOfWhole(r.Text(), r.Args() + [arg], r, arg, s, t);
    OnePiece(r.Text(), r.Args() + [arg], t, |r.Args()| + 1);
  }

  // ---- Integers ----

  predicate IsSigned(c: char) {
    c == 'd' || c == 'i'
  }

  /** The base of each conversion; 0 for those that are not of integers. */
  function RadixOf(c: char): nat {
    if c == 'd' || c == 'i' || c == 'u' then 10 else if c == 'x' || c == 'X' then 16
    else if c == 'o' then 8 else if c == 'b' then 2 else 0
  }

  /** The argument v as a value of its type: in two's complement for %d and %i. */
  function Meant(r: Request, v: int): int {
    var size, low := r.length.Size(), v % r.length.Size();
    if IsSigned(r.c) && low >= size / 2 then low - size else low
  }

  /** The flags of a specification, one by one. */
  predicate Marked(m: Modifier, left: bool, plus: bool, space: bool, hash: bool, zero: bool, precise: bool) {
    match m
    case Left => left
    case Plus => plus
    case Space => space
    case Hash => hash
    case ZeroPad => zero
    case Precision => precise
    case _ => false
  }

  function Marks(left: bool, plus: bool, space: bool, hash: bool, zero: bool, precise: bool): Flags {
    set m: Modifier | Marked(m, left, plus, space, hash, zero, precise)
  }

  lemma KeptMarks(r: Request)
    ensures r.Kept() == Marks(r.AtLeft(), '+' in r.flags, ' ' in r.flags, '#' in r.flags, '0' in r.flags, !r.precision.Absent?)
                        + r.length.Marks()
  {
    var marks := Marks(r.AtLeft(), '+' in r.flags, ' ' in r.flags, '#' in r.flags, '0' in r.flags, !r.precision.Absent?);
    forall m: Modifier ensures (m in r.Kept()) == (m in marks + r.length.Marks()) {
      AskedHas(r.flags, m);
    }
  }

  lemma AskedHas(t: Text, m: Modifier)
    ensures (m in Asked(t)) == Marked(m, '-' in t, '+' in t, ' ' in t, '#' in t, '0' in t, false)
  {
  }

  /** What is left of them. */
  function SiftedMarks(c: char, left: bool, plus: bool, space: bool, hash: bool, zero: bool, precise: bool, sized: Flags): Flags {
    Marks(left, IsSigned(c) && plus, IsSigned(c) && space, hash && c != 'd' && c != 'i' && c != 'u', zero && !precise, precise)
    + (if c == 'X' then {UpperCase} else {}) + (if IsSigned(c) then {Modifier.Signed} else {}) + sized
  }

  /** The flags that matter to an integer. */
  function Printing(r: Request): Flags {
    SiftedMarks(r.c, r.AtLeft(), '+' in r.flags, ' ' in r.flags, '#' in r.flags, '0' in r.flags, !r.precision.Absent?,
                r.length.Marks())
  }

  /** What the arms for integers do to each flag. */
  lemma Passed(c: char, base: nat, kept: Flags, m: Modifier)
    requires 0 < base == RadixOf(c) && Modifier.Signed !in kept && UpperCase !in kept
    ensures (m in IntegerFlags(c, kept))
         == if m.Signed? then IsSigned(c) else if m.UpperCase? then c == 'X'
            else m in kept && (m.Hash? ==> base != 10) && (m.ZeroPad? ==> Modifier.Precision !in kept)
                 && (m.Plus? || m.Space? ==> IsSigned(c))
  {
  }

  lemma SiftedHas(c: char, left: bool, plus: bool, space: bool, hash: bool, zero: bool, precise: bool, sized: Flags, m: Modifier)
    requires sized <= {Long, LongLong, Short, Char}
    ensures (m in SiftedMarks(c, left, plus, space, hash, zero, precise, sized))
         == if m.Signed? then IsSigned(c) else if m.UpperCase? then c == 'X'
            else m in sized || Marked(m, left, IsSigned(c) && plus, IsSigned(c) && space,
                                      hash && c != 'd' && c != 'i' && c != 'u', zero && !precise, precise)
  {
  }

  lemma KeptMark(left: bool, plus: bool, space: bool, hash: bool, zero: bool, precise: bool, sized: Flags, m: Modifier)
    ensures (m in Marks(left, plus, space, hash, zero, precise) + sized)
         == (m in sized || Marked(m, left, plus, space, hash, zero, precise))
  {
  }

  lemma SiftedOne(c: char, base: nat, left: bool, plus: bool, space: bool, hash: bool, zero: bool, precise: bool, sized: Flags,
                  m: Modifier, kept: Flags)
    requires 0 < base == RadixOf(c) && sized <= {Long, LongLong, Short, Char}
    requires kept == Marks(left, plus, space, hash, zero, precise) + sized
    ensures (m in IntegerFlags(c, kept)) == (m in SiftedMarks(c, left, plus, space, hash, zero, precise, sized))
  {
    hide IntegerFlags, SiftedMarks, Marks;
    KeptMark(left, plus, space, hash, zero, precise, sized, m);
    KeptMark(left, plus, space, hash, zero, precise, sized, Modifier.Precision);
    KeptMark(left, plus, space, hash, zero, precise, sized, Modifier.Signed);
    KeptMark(left, plus, space, hash, zero, precise, sized, UpperCase);
    SiftedHas(c, left, plus, space, hash, zero, precise, sized, m);
    Passed(c, base, kept, m);
  }

  lemma Sifted(c: char, base: nat, left: bool, plus: bool, space: bool, hash: bool, zero: bool, precise: bool, sized: Flags,
               kept: Flags, sifted: Flags)
    requires 0 < base == RadixOf(c) && sized <= {Long, LongLong, Short, Char}
    requires kept == IntegerFlags(c, Marks(left, plus, space, hash, zero, precise) + sized)
    requires sifted == SiftedMarks(c, left, plus, space, hash, zero, precise, sized)
    ensures kept == sifted
  {
    forall m: Modifier ensures (m in kept) == (m in sifted) {
      SiftedOne(c, base, left, plus, space, hash, zero, precise, sized, m, Marks(left, plus, space, hash, zero, precise) + sized);
    }
  }

  lemma BaseIs(c: char, base: nat)
    requires 0 < base == RadixOf(c)
    ensures BaseOf(c) == base && IsIntegral(c)
  {
  }

  lemma PrintsWith(r: Request, base: nat)
    requires 0 < base == RadixOf(r.c)
    ensures IntegerFlags(r.c, r.Kept()) == Printing(r) && BaseOf(r.c) == base && IsIntegral(r.c)
  {
    KeptMarks(r);
    BaseIs(r.c, base);
    Sifted(r.c, base, r.AtLeft(), '+' in r.flags, ' ' in r.flags, '#' in r.flags, '0' in r.flags, !r.precision.Absent?,
           r.length.Marks(), IntegerFlags(r.c, r.Kept()), Printing(r));
  }

  lemma SizeIs(r: Request)
    ensures SizeOf(Printing(r)) == r.length.Size() && r.length.Size() % 2 == 0
  {
  }

  lemma Congruent(v: int, size: nat, n: int, h: nat)
    requires size > 0 && (n - v) % size == 0 && 0 <= n + h < size
    ensures (v + h) % size == n + h
  {
    var q := (n - v) / size;
    Parted(n - v, size);
    Distributed(q, -q, size);
    ModuloMultiple(-q, size, n + h);
    DivMod(0, size, n + h);
  }

  /** The value of a type is the only one that agrees with the argument in its low bits. */
  lemma Unique(v: int, size: nat, n: int)
    requires size > 0 && size % 2 == 0 && (n - v) % size == 0
    ensures -(size / 2) <= n < size / 2 ==> AsSigned(v, size) == n
    ensures 0 <= n < size ==> AsUnsigned(v, size) == n
  {
    if -(size / 2) <= n < size / 2 {
      Congruent(v, size, n, size / 2);
    }
    if 0 <= n < size {
      Congruent(v, size, n, 0);
    }
  }

  lemma ArgumentFound(r: Request, v: int, base: nat, n: int, s: Spec)
    requires 0 < base == RadixOf(r.c) && n == Meant(r, v) && s.Spec? && s.flags == r.Kept()
    ensures ArgumentOf(r.c, v, s) == n
  {
    PrintsWith(r, base);
    SizeIs(r);
    Unique(v, r.length.Size(), n);
    MeantIs(r, v);
    assert Modifier.Signed in Printing(r) <==> IsSigned(r.c);
  }

  /** It has the low bits of the argument. */
  lemma MeantIs(r: Request, v: int)
    ensures var n, size := Meant(r, v), r.length.Size();
      (n - v) % size == 0 && if IsSigned(r.c) then -(size / 2) <= n < size / 2 else 0 <= n < size
  {
    var n, size := Meant(r, v), r.length.Size();
    var q := v / size;
    Parted(v, size);
    if n == v % size {
      LowBits(q, 0, size, n, v);
    } else {
      LowBits(q, 1, size, n, v);
    }
  }

  lemma LowBits(q: int, k: int, size: nat, n: int, v: int)
    requires size > 0 && n == v - q * size - k * size
    ensures (n - v) % size == 0
  {
    Distributed(-q, -k, size);
    DivMod(-q - k, size, 0);
  }

  /** The number that is to be read back. */
  function Whole(n: int): Number {
    Number(n < 0, if n < 0 then -n else n)
  }

  lemma IntegerConverted(args: seq<Arg>, r: Request, v: int, base: nat, n: int, s: Spec, t: Text)
    requires 0 < base == RadixOf(r.c) && n == Meant(r, v)
    requires s.Spec? && s.flags == r.Kept() && s.width == r.width.Width() && s.precision == r.precision.Precision()
    requires s.a < |args| && args[s.a] == Int(v)
    requires t == Field(Whole(n).value, n < 0, base, r.precision.Precision(), r.width.Width(), Printing(r))
    ensures Conversion(r.c, args, s) == Printed(t, 1)
  {
    PrintsWith(r, base);
    ArgumentFound(r, v, base, n, s);
    ConversionIsField(r.c, v, s);
  }

  /** The field that r prints of the argument v. */
  function FieldOf(r: Request, v: int): Text
    requires RadixOf(r.c) > 0
  {
    var n := Meant(r, v);
    Field(Whole(n).value, n < 0, RadixOf(r.c), r.precision.Precision(), r.width.Width(), Printing(r))
  }

  /** What the conversion of an integer argument is. */
  lemma FieldConverted(args: seq<Arg>, r: Request, v: int, s: Spec, t: Text)
    requires RadixOf(r.c) > 0 && t == FieldOf(r, v) && s.Spec? && s.a < |args| && args[s.a] == Int(v)
    requires s.flags == r.Kept() && s.width == r.width.Width() && s.precision == r.precision.Precision()
    ensures Conversion(r.c, args, s) == Printed(t, 1)
  {
    IntegerConverted(args, r, v, RadixOf(r.c), Meant(r, v), s, t);
  }

  /** The text reads back as n if and only if n fits: if all of its standard text has at most 32 characters where it is
      negative, and otherwise if its digits have and no prefix of a value other than 0 is cut. */
  ghost predicate ReadBack(r: Request, n: int, t: Text)
    requires RadixOf(r.c) > 0
  {
    (Parse(t, RadixOf(r.c)) == Whole(n))
    == FitsBack(Whole(n).value, n < 0, RadixOf(r.c), r.precision.Precision(), r.width.Width(), Printing(r))
  }

  lemma IntegerField(r: Request, n: int, base: nat) returns (t: Text)
    requires 0 < base == RadixOf(r.c)
    ensures t == Field(Whole(n).value, n < 0, base, r.precision.Precision(), r.width.Width(), Printing(r))
    ensures ReadBack(r, n, t)
  {
    t := Field(Whole(n).value, n < 0, base, r.precision.Precision(), r.width.Width(), Printing(r));
    WellPrinting(r, base, Whole(n).value);
    FitsBackExactly(Whole(n).value, n < 0, base, r.precision.Precision(), r.width.Width(), Printing(r));
  }

  /** A format string that is one integer conversion, with its arguments. */
  lemma IntegerPrinted(r: Request, v: int) returns (t: Text)
    requires r.Valid() && RadixOf(r.c) > 0
    ensures Formatted(r.Text(), r.Args() + [Int(v)], 0, 0) == Printed(t, |r.Args()| + 1)
    ensures ReadBack(r, Meant(r, v), t)
  {
    t := IntegerField(r, Meant(r, v), RadixOf(r.c));
    LaidOut(r, v, RadixOf(r.c), Meant(r, v), t);
  }

  lemma WellPrinting(r: Request, base: nat, value: nat)
    requires 0 < base == RadixOf(r.c)
    ensures IsBase(base) && WellFlagged(value, base, r.precision.Precision(), Printing(r))
  {
  }

  // ---- Their text, character by character ----

  /** d is n in a base, without leading zeros, with letters of one case. */
  predicate IsNumeral(d: Text, n: nat, base: nat, upper: bool) {
    && d != "" && ValueOf(d, base) == n && AllDigits(d, base) && (d[0] == '0' ==> d == "0")
    && forall i :: 0 <= i < |d| ==> '0' <= d[i] <= '9' || (if upper then 'A' <= d[i] <= 'F' else 'a' <= d[i] <= 'f')
  }

  lemma {:induction false} NumeralWritten(n: nat, base: nat, upper: bool)
    requires IsBase(base)
    ensures IsNumeral(Digits(n, base, upper), n, base, upper) && (n > 0 ==> Digits(n, base, upper)[0] != '0')
    decreases n
  {
    DigitsRead(n, base, upper);
    if n >= base {
      Quotient(n, base);
      NumeralWritten(n / base, base, upper);
    }
  }

  function SignOf(r: Request, n: int): Text {
    if n < 0 then "-" else if IsSigned(r.c) && '+' in r.flags then "+" else if IsSigned(r.c) && ' ' in r.flags then " " else ""
  }

  /** The alternative form: nothing before a zero, and no zero before octal digits that begin with one. */
  function PrefixOf(r: Request, n: int, digits: Text): Text {
    if '#' !in r.flags then ""
    else if r.c == 'o' then (if digits == "0" || r.precision.Precision() > |digits| then "" else "0")
    else if n == 0 then ""
    else if r.c == 'x' then "0x" else if r.c == 'X' then "0X" else if r.c == 'b' then "0b" else ""
  }

  /** Zeros up to the precision; without one, as many as fill the width if they are asked for. */
  function ZerosOf(r: Request, n: int, digits: Text): nat {
    if !r.precision.Absent? then Missing(r.precision.Precision(), |digits|)
    else if '0' in r.flags && !r.AtLeft() then Missing(r.width.Width(), |SignOf(r, n)| + |PrefixOf(r, n, digits)| + |digits|)
    else 0
  }

  /** Sign, prefix, zeros, digits. */
  function Middle(r: Request, n: int, digits: Text): Text {
    SignOf(r, n) + PrefixOf(r, n, digits) + Repeat('0', ZerosOf(r, n, digits)) + digits
  }

  /** A text in its width. */
  function Placed(r: Request, t: Text): Text {
    var blanks := Repeat(' ', Missing(r.width.Width(), |t|));
    if r.AtLeft() then t + blanks else blanks + t
  }

  /** No digits are printed of a zero with a precision. */
  function DigitsOf(r: Request, n: int, base: nat): Text
    requires IsBase(base)
  {
    if n == 0 && !r.precision.Absent? then "" else Digits(Whole(n).value, base, r.c == 'X')
  }

  lemma PrintingHas(r: Request)
    ensures var f := Printing(r);
      && (Left in f <==> r.AtLeft()) && (ZeroPad in f <==> '0' in r.flags && r.precision.Absent?)
      && (Plus in f <==> IsSigned(r.c) && '+' in r.flags) && (Space in f <==> IsSigned(r.c) && ' ' in r.flags)
      && (Hash in f <==> '#' in r.flags && r.c != 'd' && r.c != 'i' && r.c != 'u')
      && (Modifier.Precision in f <==> !r.precision.Absent?) && (UpperCase in f <==> r.c == 'X') && Pointer !in f
  {
    hide SiftedMarks;
    PrintingOne(r, Left);
    PrintingOne(r, ZeroPad);
    PrintingOne(r, Plus);
    PrintingOne(r, Space);
    PrintingOne(r, Hash);
    PrintingOne(r, Modifier.Precision);
    PrintingOne(r, UpperCase);
    PrintingOne(r, Pointer);
  }

  lemma PrintingOne(r: Request, m: Modifier)
    requires m !in {Long, LongLong, Short, Char}
    ensures (m in Printing(r))
         == if m.Signed? then IsSigned(r.c) else if m.UpperCase? then r.c == 'X'
            else Marked(m, r.AtLeft(), IsSigned(r.c) && '+' in r.flags, IsSigned(r.c) && ' ' in r.flags,
                        '#' in r.flags && r.c != 'd' && r.c != 'i' && r.c != 'u', '0' in r.flags && r.precision.Absent?,
                        !r.precision.Absent?)
  {
    SiftedHas(r.c, r.AtLeft(), '+' in r.flags, ' ' in r.flags, '#' in r.flags, '0' in r.flags, !r.precision.Absent?,
              r.length.Marks(), m);
  }

  lemma SignIs(r: Request, n: int)
    ensures Sign(n < 0, Printing(r)) == SignOf(r, n)
  {
    PrintingHas(r);
  }

  /** The digits with the zeros of the precision. */
  lemma PreciseIs(r: Request, n: int, base: nat, digits: Text)
    requires 0 < base == RadixOf(r.c) && digits == DigitsOf(r, n, base)
    ensures PreciseDigits(Whole(n).value, base, r.precision.Precision(), Printing(r))
         == Repeat('0', Missing(r.precision.Precision(), |digits|)) + digits
  {
    PrintingHas(r);
  }

  lemma OctalPrefix(value: nat, precision: nat, flags: Flags, digits: Text)
    requires Hash in flags && (digits == "" || (digits[0] == '0' <==> digits == "0"))
    requires PreciseDigits(value, 8, precision, flags) == Repeat('0', Missing(precision, |digits|)) + digits
    ensures StandardPrefix(value, 8, precision, flags) == if digits == "0" || precision > |digits| then "" else "0"
  {
    var d := PreciseDigits(value, 8, precision, flags);
    if precision > |digits| {
      assert d[0] == '0';
    } else {
      assert d == digits;
    }
  }

  lemma PrefixIs(r: Request, n: int, base: nat, digits: Text)
    requires 0 < base == RadixOf(r.c) && digits == DigitsOf(r, n, base)
    ensures StandardPrefix(Whole(n).value, base, r.precision.Precision(), Printing(r)) == PrefixOf(r, n, digits)
  {
    PrintingHas(r);
    if r.c == 'o' && '#' in r.flags {
      NumeralWritten(Whole(n).value, base, r.c == 'X');
      PreciseIs(r, n, base, digits);
      OctalPrefix(Whole(n).value, r.precision.Precision(), Printing(r), digits);
    }
  }

  lemma MiddleIs(r: Request, n: int, base: nat, digits: Text)
    requires 0 < base == RadixOf(r.c) && digits == DigitsOf(r, n, base)
    ensures StandardCore(Whole(n).value, n < 0, base, r.precision.Precision(), r.width.Width(), Printing(r)) == Middle(r, n, digits)
  {
    SignIs(r, n);
    PrefixIs(r, n, base, digits);
    PreciseIs(r, n, base, digits);
    PrintingHas(r);
    var lead, p := SignOf(r, n) + PrefixOf(r, n, digits), Missing(r.precision.Precision(), |digits|);
    var fill := if '0' in r.flags && !r.AtLeft() && r.precision.Absent? then Missing(r.width.Width(), |lead| + |digits|) else 0;
    CoreParts(r, n, digits, lead, p, fill,
              StandardCore(Whole(n).value, n < 0, base, r.precision.Precision(), r.width.Width(), Printing(r)));
  }

  lemma ZerosTogether(lead: Text, fill: nat, p: nat, digits: Text)
    requires fill == 0 || p == 0
    ensures lead + Repeat('0', fill) + (Repeat('0', p) + digits) == lead + Repeat('0', fill + p) + digits
  {
  }

  lemma CoreParts(r: Request, n: int, digits: Text, lead: Text, p: nat, fill: nat, core: Text)
    requires lead == SignOf(r, n) + PrefixOf(r, n, digits) && p == Missing(r.precision.Precision(), |digits|)
    requires fill == if '0' in r.flags && !r.AtLeft() && r.precision.Absent? then Missing(r.width.Width(), |lead| + |digits|) else 0
    requires core == lead + Repeat('0', fill) + (Repeat('0', p) + digits)
    ensures core == Middle(r, n, digits)
  {
    ZerosTogether(lead, fill, p, digits);
    assert ZerosOf(r, n, digits) == fill + p;
  }

  /** A field that fits: the standard text, with blanks on one side. */
  lemma FieldPlaced(value: nat, negative: bool, base: nat, precision: nat, width: nat, flags: Flags, core: Text)
    requires IsBase(base) && WellFlagged(value, base, precision, flags) && !PrefixedZero(value, base, precision, flags)
    requires core == StandardCore(value, negative, base, precision, width, flags) && |core| <= SIZE
    ensures var blanks := Repeat(' ', Missing(width, |core|));
      Field(value, negative, base, precision, width, flags) == if Left in flags then core + blanks else blanks + core
  {
    PrintsStandard(value, negative, base, precision, width, flags);
    if Left !in flags && ZeroPad in flags {
      assert |core| >= width && Repeat(' ', 0) + core == core;
    }
  }

  /** The binary zero that keeps a prefix. */
  predicate SetApart(r: Request, n: int) {
    r.c == 'b' && '#' in r.flags && n == 0 && !r.precision.Absent? && r.precision.Precision() < 32
  }

  lemma RequestPlaced(r: Request, n: int, base: nat, digits: Text)
    requires 0 < base == RadixOf(r.c) && digits == DigitsOf(r, n, base) && |Middle(r, n, digits)| <= 32 && !SetApart(r, n)
    ensures Field(Whole(n).value, n < 0, base, r.precision.Precision(), r.width.Width(), Printing(r))
         == Placed(r, Middle(r, n, digits))
  {
    MiddleIs(r, n, base, digits);
    PrintingHas(r);
    WellPrinting(r, base, Whole(n).value);
    FieldPlaced(Whole(n).value, n < 0, base, r.precision.Precision(), r.width.Width(), Printing(r), Middle(r, n, digits));
  }

  lemma LaidOut(r: Request, v: int, base: nat, n: int, t: Text)
    requires r.Valid() && 0 < base == RadixOf(r.c) && n == Meant(r, v)
    requires t == Field(Whole(n).value, n < 0, base, r.precision.Precision(), r.width.Width(), Printing(r))
    ensures Formatted(r.Text(), r.Args() + [Int(v)], 0, 0) == Printed(t, |r.Args()| + 1)
  {
    var s := Spec(r.Kept(), r.width.Width(), r.precision.Precision(), |r.Text()| - 1, |r.Args()|);
    IntegerConverted(r.Args() + [Int(v)], r, v, base, n, s, t);
    WholeIs(r, Int(v), s, t);
  }

  /** A format string that is one integer conversion prints sign, prefix, zeros and digits in their width, if all but the
      blanks has at most 32 characters. */
  lemma IntegerLaidOut(r: Request, v: int) returns (digits: Text)
    requires r.Valid() && RadixOf(r.c) > 0
    ensures var n := Meant(r, v);
      && (if n == 0 && !r.precision.Absent? then digits == "" else IsNumeral(digits, Whole(n).value, RadixOf(r.c), r.c == 'X'))
      && (|Middle(r, n, digits)| <= 32 && !SetApart(r, n)
          ==> Formatted(r.Text(), r.Args() + [Int(v)], 0, 0) == Printed(Placed(r, Middle(r, n, digits)), |r.Args()| + 1))
  {
    var n, base := Meant(r, v), RadixOf(r.c);
    digits := DigitsOf(r, n, base);
    NumeralWritten(Whole(n).value, base, r.c == 'X');
    if |Middle(r, n, digits)| <= 32 && !SetApart(r, n) {
      RequestPlaced(r, n, base, digits);
      LaidOut(r, v, base, n, Placed(r, Middle(r, n, digits)));
    }
  }

  // ---- Characters, strings and the percent sign ----

  lemma KeptHas(r: Request)
    ensures (Left in r.Kept()) == r.AtLeft() && (Modifier.Precision in r.Kept()) == !r.precision.Absent?
  {
    AskedHas(r.flags, Left);
    AskedHas(r.flags, Modifier.Precision);
  }

  /** %c prints the low byte of its argument in its width. */
  lemma CharacterPrinted(r: Request, v: int)
    requires r.Valid() && r.c == 'c'
    ensures Formatted(r.Text(), r.Args() + [Int(v)], 0, 0) == Printed(Placed(r, [(v % 0x100) as char]), |r.Args()| + 1)
  {
    var s := Spec(r.Kept(), r.width.Width(), r.precision.Precision(), |r.Text()| - 1, |r.Args()|);
    KeptHas(r);
    WholeIs(r, Int(v), s, Placed(r, [(v % 0x100) as char]));
  }

  /** What %s takes of a string: as many characters as the precision allows, or all. */
  function Cut(r: Request, t: Text): Text {
    if r.precision.Absent? then t else t[..Least(|t|, r.precision.Precision())]
  }

  /** %s prints that in its width; a string beyond 2^31 - 1 characters counts as that long. */
  lemma StringPrinted(r: Request, t: Text)
    requires r.Valid() && r.c == 's'
    ensures var length := if r.precision.Absent? then Least(|t|, 0x7fff_ffff) else |Cut(r, t)|;
      var blanks := Repeat(' ', Missing(r.width.Width(), length));
      Formatted(r.Text(), r.Args() + [Str(t)], 0, 0)
      == Printed(if r.AtLeft() then Cut(r, t) + blanks else blanks + Cut(r, t), |r.Args()| + 1)
  {
    var s := Spec(r.Kept(), r.width.Width(), r.precision.Precision(), |r.Text()| - 1, |r.Args()|);
    KeptHas(r);
    WholeIs(r, Str(t), s, StringText(t, s));
  }

  /** A null pointer prints as "(null)" in its width, without blanks before it if zeros are asked for. */
  lemma NullPrinted(r: Request)
    requires r.Valid() && r.c == 's'
    ensures Formatted(r.Text(), r.Args() + [Null], 0, 0)
         == Printed(if '0' in r.flags && !r.AtLeft() then "(null)" else Placed(r, "(null)"), |r.Args()| + 1)
  {
    var s := Spec(r.Kept(), r.width.Width(), r.precision.Precision(), |r.Text()| - 1, |r.Args()|);
    KeptHas(r);
    AskedHas(r.flags, ZeroPad);
    WholeIs(r, Null, s, if '0' in r.flags && !r.AtLeft() then "(null)" else Placed(r, "(null)"));
  }

  lemma PercentPiece(fmt: Text, args: seq<Arg>, r: Request, s: Spec)
    requires r.Valid() && r.c == '%' && fmt == r.Text() && args == r.Args()
    requires s == Spec(r.Kept(), r.width.Width(), r.precision.Precision(), |fmt| - 1, |args|)
    ensures PieceAt(fmt, args, 0, 0) == Piece("%", |fmt|, |args|)
  {
    hide PieceAt;
    StandsWhole(fmt);
    PieceIs(fmt, args, 0, 0, r, s, "%", 0);
  }

  /** %% prints a percent sign, whatever stands in between. */
  lemma PercentPrinted(r: Request)
    requires r.Valid() && r.c == '%'
    ensures Formatted(r.Text(), r.Args(), 0, 0) == Printed("%", |r.Args()|)
  {
    hide PieceAt;
    PercentPiece(r.Text(), r.Args(), r,
                 Spec(r.Kept(), r.width.Width(), r.precision.Precision(), |r.Text()| - 1, |r.Args()|));
    OnePiece(r.Text(), r.Args(), "%", |r.Args()|);
  }

  // ---- Examples ----

  lemma Shown(r: Request, v: int, n: int, digits: Text, core: Text, t: Text)
    requires r.Valid() && RadixOf(r.c) > 0 && n == Meant(r, v) && digits == DigitsOf(r, n, RadixOf(r.c))
    requires core == Middle(r, n, digits) && |core| <= 32 && !SetApart(r, n) && t == Placed(r, core)
    ensures Formatted(r.Text(), r.Args() + [Int(v)], 0, 0) == Printed(t, |r.Args()| + 1)
  {
    RequestPlaced(r, n, RadixOf(r.c), digits);
    LaidOut(r, v, RadixOf(r.c), n, t);
  }

  lemma ExampleTexts()
    ensures Request("", Absent, Absent, Plain, 'd').Text() == "%d"
    ensures Request("", Absent, Taken(-1), Plain, 'd').Text() == "%.*d"
    ensures Request("+0", Written("8"), Absent, Ll, 'X').Text() == "%+08llX"
  {
  }

  /** -5 as an int. */
  lemma MinusFive(r: Request)
    requires r == Request("", Absent, Absent, Plain, 'd')
    ensures Formatted(r.Text(), r.Args() + [Int(-5)], 0, 0) == Printed("-5", 1)
  {
    assert DigitsOf(r, -5, 10) == "5";
    assert Middle(r, -5, "5") == "-5";
    assert Placed(r, "-5") == "-5";
    Shown(r, -5, -5, "5", "-5", "-5");
  }

  /** And without a sign, in each size. */
  lemma MinusFiveUnsigned()
    ensures Meant(Request("", Absent, Absent, Plain, 'u'), -5) == 4294967291
    ensures Meant(Request("", Absent, Absent, Hh, 'x'), -5) == 251
    ensures Meant(Request("", Absent, Absent, L, 'u'), -5) == 18446744073709551611
  {
  }

  /** A negative precision is not taken for none, as the standard has it: zero is then printed without a digit. */
  lemma NegativePrecision(r: Request)
    requires r == Request("", Absent, Taken(-1), Plain, 'd')
    ensures Formatted(r.Text(), r.Args() + [Int(0)], 0, 0) == Printed("", 2)
  {
    assert DigitsOf(r, 0, 10) == "";
    assert Middle(r, 0, "") == "";
    assert Placed(r, "") == "";
    Shown(r, 0, 0, "", "", "");
  }

  lemma NoPrecision(r: Request)
    requires r == Request("", Absent, Absent, Plain, 'd')
    ensures Formatted(r.Text(), r.Args() + [Int(0)], 0, 0) == Printed("0", 1)
  {
    assert DigitsOf(r, 0, 10) == "0";
    assert Middle(r, 0, "0") == "0";
    assert Placed(r, "0") == "0";
    Shown(r, 0, 0, "0", "0", "0");
  }
}
