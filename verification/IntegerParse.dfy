/**
 Reading integers back, and how long their fields are.
 */
module IntegerParse {
  import opened Arithmetic
  import opened Integers
  import opened IntegerText
  import opened Output

  // ---- A reader of integers, as strtoll reads them ----

  function DigitOf(c: char): (d: int) {
    if '0' <= c <= '9' then c as int - '0' as int
    else if 'a' <= c <= 'f' then c as int - 'a' as int + 10
    else if 'A' <= c <= 'F' then c as int - 'A' as int + 10
    else -1
  }

  predicate IsDigit(c: char, base: nat) { 0 <= DigitOf(c) < base }

  /** The longest run of digits at the front. */
  function Leading(t: Text, base: nat): (n: nat)
    ensures n <= |t|
  {
    if t == "" || !IsDigit(t[0], base) then 0 else 1 + Leading(t[1..], base)
  }

  function ValueOf(t: Text, base: nat): int {
    if t == "" then 0 else ValueOf(t[..|t| - 1], base) * base + DigitOf(t[|t| - 1])
  }

  function SkipBlanks(t: Text): Text {
    if t != "" && t[0] == ' ' then SkipBlanks(t[1..]) else t
  }

  function SkipPrefix(t: Text, base: nat): Text {
    if |t| >= 2 && t[0] == '0' && ((base == 16 && (t[1] == 'x' || t[1] == 'X')) || (base == 2 && t[1] == 'b'))
    then t[2..] else t
  }

  datatype Number = Number(negative: bool, value: int)

  /** A prefix and digits; what follows is ignored. */
  function ParseUnsigned(t: Text, base: nat): int {
    var w := SkipPrefix(t, base);
    ValueOf(w[..Leading(w, base)], base)
  }

  function ParseSigned(t: Text, base: nat): Number {
    if t != "" && t[0] == '-' then Number(true, ParseUnsigned(t[1..], base))
    else if t != "" && t[0] == '+' then Number(false, ParseUnsigned(t[1..], base))
    else Number(false, ParseUnsigned(t, base))
  }

  /** Blanks, a sign, a prefix, digits. */
  function Parse(t: Text, base: nat): Number {
    ParseSigned(SkipBlanks(t), base)
  }

  // ---- Round trip ----

  predicate AllDigits(t: Text, base: nat) { forall i :: 0 <= i < |t| ==> IsDigit(t[i], base) }

  lemma DigitRead(d: nat, upper: bool)
    requires d < 16
    ensures DigitOf(DigitChar(d, upper)) == d && DigitChar(d, upper) != ' '
  {
  }

  lemma {:induction false} DigitsRead(value: nat, base: nat, upper: bool)
    requires IsBase(base)
    ensures ValueOf(Digits(value, base, upper), base) == value && AllDigits(Digits(value, base, upper), base)
    decreases value
  {
    if value < base {
      DigitAppended("", 0, value, base, upper);
      assert "" + [DigitChar(value, upper)] == [DigitChar(value, upper)];
    } else {
      Quotient(value, base);
      DigitsRead(value / base, base, upper);
      Recombined(value, base);
      HighestDigits(value, base, upper);
      DigitAppended(Digits(value / base, base, upper), value / base, value % base, base, upper);
    }
  }

  lemma DigitAppended(d: Text, q: nat, r: nat, base: nat, upper: bool)
    requires base <= 16 && r < base && ValueOf(d, base) == q && AllDigits(d, base)
    ensures ValueOf(d + [DigitChar(r, upper)], base) == q * base + r && AllDigits(d + [DigitChar(r, upper)], base)
  {
    DigitRead(r, upper);
    ValueOfLast(d, DigitChar(r, upper), base);
  }

  lemma Recombined(value: nat, base: nat)
    requires base >= 1
    ensures value / base * base + value % base == value && value % base < base
  {
  }

  lemma ValueOfLast(t: Text, c: char, base: nat)
    ensures ValueOf(t + [c], base) == ValueOf(t, base) * base + DigitOf(c)
  {
    assert (t + [c])[..|t|] == t;
  }

  lemma {:induction false} LeadingZeros(n: nat, d: Text, base: nat)
    requires IsBase(base)
    ensures ValueOf(Repeat('0', n) + d, base) == ValueOf(d, base)
    decreases |d|, n
  {
    var t := Repeat('0', n) + d;
    if d != "" {
      LeadingZeros(n, d[..|d| - 1], base);
      assert t[..|t| - 1] == Repeat('0', n) + d[..|d| - 1];
    } else if n > 0 {
      LeadingZeros(n - 1, "", base);
      assert t[..|t| - 1] == Repeat('0', n - 1) + "";
    }
  }

  lemma {:induction false} LeadingIs(d: Text, rest: Text, base: nat)
    requires AllDigits(d, base) && (rest == "" || !IsDigit(rest[0], base))
    ensures Leading(d + rest, base) == |d|
    decreases |d|
  {
    if d != "" {
      LeadingIs(d[1..], rest, base);
      assert (d + rest)[1..] == d[1..] + rest;
    } else {
      assert d + rest == rest;
    }
  }

  lemma {:induction false} BlanksSkipped(n: nat, t: Text)
    ensures SkipBlanks(Repeat(' ', n) + t) == SkipBlanks(t)
    decreases n
  {
    if n > 0 {
      BlanksSkipped(n - 1, t);
      assert (Repeat(' ', n) + t)[1..] == Repeat(' ', n - 1) + t;
    } else {
      assert Repeat(' ', 0) + t == t;
    }
  }

  lemma DigitsThenBlanks(d: Text, blanks: nat, base: nat)
    requires IsBase(base) && AllDigits(d, base)
    ensures var w := d + Repeat(' ', blanks);
      SkipPrefix(w, base) == w && ValueOf(w[..Leading(w, base)], base) == ValueOf(d, base)
  {
    var w := d + Repeat(' ', blanks);
    LeadingIs(d, Repeat(' ', blanks), base);
    assert w[..|d|] == d;
    assert |d| >= 2 ==> w[1] == d[1] && IsDigit(d[1], base);
  }

  lemma UnsignedIs(t: Text, w: Text, value: int, base: nat)
    requires SkipPrefix(t, base) == w && ValueOf(w[..Leading(w, base)], base) == value
    ensures ParseUnsigned(t, base) == value
  {
  }

  lemma BareRead(d: Text, blanks: nat, base: nat)
    requires IsBase(base) && AllDigits(d, base)
    ensures ParseUnsigned(d + Repeat(' ', blanks), base) == ValueOf(d, base)
  {
    DigitsThenBlanks(d, blanks, base);
    UnsignedIs(d + Repeat(' ', blanks), d + Repeat(' ', blanks), ValueOf(d, base), base);
  }

  lemma PrefixSkipped(prefix: Text, w: Text, base: nat, flags: Flags)
    requires (base == 16 || base == 2) && prefix == PrefixText(base, flags)
    ensures SkipPrefix(prefix + w, base) == w
  {
    assert (prefix + w)[2..] == w;
  }

  lemma PrefixRead(prefix: Text, d: Text, blanks: nat, base: nat, flags: Flags)
    requires IsBase(base) && AllDigits(d, base) && (base == 16 || base == 2) && prefix == PrefixText(base, flags)
    ensures ParseUnsigned(prefix + d + Repeat(' ', blanks), base) == ValueOf(d, base)
  {
    var w := d + Repeat(' ', blanks);
    DigitsThenBlanks(d, blanks, base);
    PrefixSkipped(prefix, w, base, flags);
    assert prefix + d + Repeat(' ', blanks) == prefix + w;
    UnsignedIs(prefix + w, w, ValueOf(d, base), base);
  }

  /** Prefix, then digits, then blanks. */
  lemma BodyRead(prefix: Text, d: Text, blanks: nat, base: nat, flags: Flags)
    requires IsBase(base) && AllDigits(d, base)
    requires prefix == "" || prefix == "0" || ((base == 16 || base == 2) && prefix == PrefixText(base, flags))
    ensures ParseUnsigned(prefix + d + Repeat(' ', blanks), base) == ValueOf(d, base)
  {
    if prefix == "" {
      assert prefix + d == d;
      BareRead(d, blanks, base);
    } else if prefix == "0" {
      assert prefix == Repeat('0', 1);
      LeadingZeros(1, d, base);
      BareRead(prefix + d, blanks, base);
    } else {
      PrefixRead(prefix, d, blanks, base, flags);
    }
  }

  /** Neither blank nor sign stands before a prefix and digits, unless there are none. */
  lemma BodyIsReached(prefix: Text, d: Text, behind: nat, base: nat)
    requires AllDigits(d, base) && (prefix != "" ==> prefix[0] == '0')
    ensures var body := prefix + d + Repeat(' ', behind);
      && SkipBlanks(body) == (if prefix == "" && d == "" then "" else body)
      && ParseSigned(SkipBlanks(body), base) == Number(false, ParseUnsigned(SkipBlanks(body), base))
  {
    var body := prefix + d + Repeat(' ', behind);
    if prefix == "" && d == "" {
      assert body == Repeat(' ', behind) + "";
      BlanksSkipped(behind, "");
    } else {
      assert body[0] == if prefix == "" then d[0] else '0';
    }
  }

  /** Sign, prefix, digits, blanks. */
  lemma SignedRead(sign: Text, prefix: Text, d: Text, behind: nat, base: nat, negative: bool, flags: Flags)
    requires IsBase(base) && AllDigits(d, base) && sign == Sign(negative, flags)
    requires prefix == "" || prefix == "0" || ((base == 16 || base == 2) && prefix == PrefixText(base, flags))
    ensures Parse(sign + (prefix + d + Repeat(' ', behind)), base) == Number(negative, ValueOf(d, base))
  {
    var body := prefix + d + Repeat(' ', behind);
    BodyRead(prefix, d, behind, base, flags);
    if sign == "-" || sign == "+" {
      MarkedRead(sign, body, base);
    } else {
      BlanksThenBody(|sign|, prefix, d, behind, base, flags);
      assert sign == Repeat(' ', |sign|);
    }
  }

  lemma MarkedRead(sign: Text, body: Text, base: nat)
    requires sign == "-" || sign == "+"
    ensures Parse(sign + body, base) == Number(sign == "-", ParseUnsigned(body, base))
  {
    assert SkipBlanks(sign + body) == sign + body && (sign + body)[1..] == body;
  }

  lemma BlanksThenBody(n: nat, prefix: Text, d: Text, behind: nat, base: nat, flags: Flags)
    requires IsBase(base) && AllDigits(d, base)
    requires prefix == "" || prefix == "0" || ((base == 16 || base == 2) && prefix == PrefixText(base, flags))
    ensures Parse(Repeat(' ', n) + (prefix + d + Repeat(' ', behind)), base) == Number(false, ValueOf(d, base))
  {
    BlanksSkipped(n, prefix + d + Repeat(' ', behind));
    BodyIsReached(prefix, d, behind, base);
    BodyRead(prefix, d, behind, base, flags);
    if prefix == "" && d == "" {
      BodyRead("", "", 0, base, flags);
      assert "" + "" + Repeat(' ', 0) == "";
    }
  }

  // ---- Fields ----

  lemma ZerosRead(n: nat, d: Text, base: nat)
    requires IsBase(base) && AllDigits(d, base)
    ensures ValueOf(Repeat('0', n) + d, base) == ValueOf(d, base) && AllDigits(Repeat('0', n) + d, base)
  {
    LeadingZeros(n, d, base);
  }

  lemma PreciseDigitsRead(value: nat, base: nat, precision: nat, flags: Flags)
    requires IsBase(base)
    ensures ValueOf(PreciseDigits(value, base, precision, flags), base) == value
    ensures AllDigits(PreciseDigits(value, base, precision, flags), base)
  {
    var plain := PlainDigits(value, base, flags);
    DigitsRead(value, base, UpperCase in flags);
    ZerosRead(Missing(precision, |plain|), plain, base);
  }

  /** The text of the standard: a sign, a prefix, and digits of the value with zeros before them. */
  lemma StandardShape(value: nat, negative: bool, base: nat, precision: nat, width: nat, flags: Flags) returns (digits: Text)
    requires IsBase(base)
    ensures StandardCore(value, negative, base, precision, width, flags)
         == Sign(negative, flags) + (StandardPrefix(value, base, precision, flags) + digits)
    ensures ValueOf(digits, base) == value && AllDigits(digits, base)
  {
    var d := PreciseDigits(value, base, precision, flags);
    var sign, prefix := Sign(negative, flags), StandardPrefix(value, base, precision, flags);
    var lead := sign + prefix;
    var fill := if ZeroPad in flags && Left !in flags && Precision !in flags then Missing(width, |lead| + |d|) else 0;
    digits := Repeat('0', fill) + d;
    PreciseDigitsRead(value, base, precision, flags);
    ZerosRead(fill, d, base);
    Regrouped(sign, prefix, Repeat('0', fill), d);
  }

  /** It reads back as the number, in any width. */
  lemma StandardRead(value: nat, negative: bool, base: nat, precision: nat, width: nat, flags: Flags, before: nat, behind: nat)
    requires IsBase(base) && WellFlagged(value, base, precision, flags)
    ensures Parse(Repeat(' ', before) + (StandardCore(value, negative, base, precision, width, flags) + Repeat(' ', behind)), base)
         == Number(negative, value)
  {
    var digits := StandardShape(value, negative, base, precision, width, flags);
    var sign, prefix := Sign(negative, flags), StandardPrefix(value, base, precision, flags);
    assert sign + (prefix + digits) + Repeat(' ', behind) == sign + (prefix + digits + Repeat(' ', behind));
    BlanksSkipped(before, sign + (prefix + digits + Repeat(' ', behind)));
    SignedRead(sign, prefix, digits, behind, base, negative, flags);
  }

  /** A field is its core with blanks on one side. */
  lemma FieldBlanks(value: nat, negative: bool, base: nat, precision: nat, width: nat, flags: Flags) returns (before: nat, behind: nat)
    requires IsBase(base)
    ensures Field(value, negative, base, precision, width, flags)
         == Repeat(' ', before) + (Core(value, negative, base, precision, width, flags) + Repeat(' ', behind))
  {
    var core := Core(value, negative, base, precision, width, flags);
    var blanks := Missing(FillWidth(negative, width, flags), |core|);
    before, behind := 0, 0;
    if Left in flags {
      behind := blanks;
    } else if ZeroPad !in flags {
      before := blanks;
    }
    assert core + Repeat(' ', 0) == core && Repeat(' ', 0) + (core + Repeat(' ', behind)) == core + Repeat(' ', behind);
  }

  /** A field that fits reads back as the number, whatever its width. */
  lemma RoundTrip(value: nat, negative: bool, base: nat, precision: nat, width: nat, flags: Flags)
    requires IsBase(base) && WellFlagged(value, base, precision, flags)
    requires |StandardCore(value, negative, base, precision, width, flags)| <= SIZE
    requires !PrefixedZero(value, base, precision, flags)
    ensures Parse(Field(value, negative, base, precision, width, flags), base) == Number(negative, value)
  {
    PrintsStandard(value, negative, base, precision, width, flags);
    var before, behind := FieldBlanks(value, negative, base, precision, width, flags);
    StandardRead(value, negative, base, precision, width, flags, before, behind);
  }

  // ---- Exactly the fields that read back ----

  function Power(base: nat, k: nat): nat {
    if k == 0 then 1 else base * Power(base, k - 1)
  }

  lemma {:induction false} PowerSum(base: nat, i: nat, j: nat)
    ensures Power(base, i + j) == Power(base, i) * Power(base, j)
    decreases i
  {
    if i > 0 {
      PowerSum(base, i - 1, j);
      Associated(base, Power(base, i - 1), Power(base, j));
    }
  }

  lemma {:induction false} DigitCount(value: nat, base: nat, upper: bool, k: nat)
    requires IsBase(base) && k >= 1 && value < Power(base, k)
    ensures |Digits(value, base, upper)| <= k
    decreases k
  {
    if value >= base {
      Divided(value, base, Power(base, k - 1));
      Quotient(value, base);
      DigitCount(value / base, base, upper, k - 1);
    }
  }

  lemma Divided(value: nat, base: nat, p: nat)
    requires base >= 1 && value < base * p
    ensures 0 <= value / base < p
  {
  }

  lemma {:induction false} LowDigitsRead(value: nat, base: nat, upper: bool, room: nat)
    requires IsBase(base)
    ensures var d := Reversed(LowDigits(value, base, upper, room));
      AllDigits(d, base) && 0 <= ValueOf(d, base) < Power(base, room)
    decreases room
  {
    if value == 0 || room == 0 {
      PowerPositive(base, room);
    } else {
      Quotient(value, base);
      LowestDigit(value, base, upper, room);
      LowDigitsRead(value / base, base, upper, room - 1);
      DigitBefore(value % base, LowDigits(value / base, base, upper, room - 1), base, upper, Power(base, room - 1));
    }
  }

  lemma DigitBefore(r: nat, rest: Text, base: nat, upper: bool, p: nat)
    requires r < base <= 16 && AllDigits(Reversed(rest), base) && 0 <= ValueOf(Reversed(rest), base) < p
    ensures var d := Reversed([DigitChar(r, upper)] + rest); AllDigits(d, base) && 0 <= ValueOf(d, base) < base * p
  {
    var q := ValueOf(Reversed(rest), base);
    ReversedFirst(DigitChar(r, upper), rest);
    DigitAppended(Reversed(rest), q, r, base, upper);
    Below(q, r, base, p);
  }

  lemma {:induction false} PowerPositive(base: nat, k: nat)
    requires base >= 1
    ensures Power(base, k) >= 1
  {
    if k > 0 {
      PowerPositive(base, k - 1);
      Multiple(base, Power(base, k - 1));
    }
  }

  lemma Below(q: nat, r: nat, base: nat, p: nat)
    requires q < p && r < base
    ensures 0 <= q * base + r < base * p
  {
    IntervalInside(q, p, base);
    Commuted(p, base);
  }

  /** The buffer holds the value exactly when it holds all its digits. */
  lemma StartedRead(value: nat, base: nat, flags: Flags)
    requires IsBase(base)
    ensures var d := Reversed(Started(value, base, flags));
      AllDigits(d, base) && (ValueOf(d, base) == value <==> |PlainDigits(value, base, flags)| <= SIZE)
  {
    StartedReversed(value, base, flags);
    DigitsRead(value, base, UpperCase in flags);
    if |PlainDigits(value, base, flags)| > SIZE {
      LowDigitsRead(value, base, UpperCase in flags, SIZE);
      if value < Power(base, SIZE) {
        DigitCount(value, base, UpperCase in flags, SIZE);
      }
    }
  }

  /** A prefix of which only the letter has found room. */
  predicate Broken(prefix: Text, base: nat) {
    |prefix| == 1 && (base == 16 || base == 2)
  }

  lemma BrokenRead(letter: char, d: Text, before: nat, behind: nat, base: nat)
    requires !IsDigit(letter, base) && letter !in " +-0"
    ensures Parse(Repeat(' ', before) + ([letter] + d + Repeat(' ', behind)), base) == Number(false, 0)
  {
    var body := [letter] + d + Repeat(' ', behind);
    BlanksSkipped(before, body);
    assert body[0] == letter && Leading(body, base) == 0;
    assert ValueOf(body[..0], base) == 0;
  }

  /** What is read of sign, prefix, zeros and digits between blanks, all of the sign there or nothing of it. */
  lemma PartsRead(p: Parts, negative: bool, base: nat, flags: Flags, before: nat, behind: nat)
    requires IsBase(base) && AllDigits(Reversed(p.digits), base)
    requires p.sign == Sign(negative, flags) || p.sign == ""
    requires p.prefix == "" || p.prefix == PrefixText(base, flags)
    ensures Parse(Repeat(' ', before) + (p.Printed() + Repeat(' ', behind)), base)
         == Number(negative && p.sign != "", ValueOf(Reversed(p.digits), base))
  {
    var zeros, d := Repeat('0', p.zeros), Reversed(p.digits);
    ZerosRead(p.zeros, d, base);
    PartsText(p, zeros + d, behind);
    BlanksSkipped(before, p.sign + (p.prefix + (zeros + d) + Repeat(' ', behind)));
    if p.sign == Sign(negative, flags) {
      SignedRead(p.sign, p.prefix, zeros + d, behind, base, negative, flags);
    } else {
      UnsignedRead(p.prefix, zeros + d, behind, base, flags);
      assert "" + (p.prefix + (zeros + d) + Repeat(' ', behind)) == p.prefix + (zeros + d) + Repeat(' ', behind);
    }
  }

  lemma PartsText(p: Parts, d: Text, behind: nat)
    requires d == Repeat('0', p.zeros) + Reversed(p.digits)
    ensures p.Printed() + Repeat(' ', behind) == p.sign + (p.prefix + d + Repeat(' ', behind))
  {
  }

  lemma UnsignedRead(prefix: Text, d: Text, behind: nat, base: nat, flags: Flags)
    requires IsBase(base) && AllDigits(d, base) && (prefix == "" || prefix == PrefixText(base, flags))
    ensures Parse(prefix + d + Repeat(' ', behind), base) == Number(false, ValueOf(d, base))
  {
    SignedRead("", prefix, d, behind, base, false, flags - {Plus, Space});
    assert "" + (prefix + d + Repeat(' ', behind)) == prefix + d + Repeat(' ', behind);
  }

  lemma BrokenPartsRead(p: Parts, base: nat, flags: Flags, before: nat, behind: nat)
    requires Broken(p.prefix, base) && p.prefix == PrefixText(base, flags)[1..] && p.sign == ""
    ensures Parse(Repeat(' ', before) + (p.Printed() + Repeat(' ', behind)), base) == Number(false, 0)
  {
    var d := Repeat('0', p.zeros) + Reversed(p.digits);
    BrokenRead(p.prefix[0], d, before, behind, base);
    PartsText(p, d, behind);
    assert p.prefix == [p.prefix[0]] && "" + (p.prefix + d + Repeat(' ', behind)) == p.prefix + d + Repeat(' ', behind);
  }

  /** What the parts can be. */
  lemma PartsAre(value: nat, negative: bool, base: nat, precision: nat, width: nat, flags: Flags)
    requires IsBase(base)
    ensures var p := PartsOf(value, negative, base, precision, width, flags);
      && p.digits == Started(value, base, flags)
      && p.sign == (if p.Places() + |p.prefix| < SIZE then Sign(negative, flags) else "")
      && (p.prefix == "" || p.prefix == PrefixText(base, flags)
          || (Broken(p.prefix, base) && p.Places() == SIZE - 1 && p.prefix == PrefixText(base, flags)[1..]))
  {
  }

  /** The number that any field reads back as, whether it fits or not: a sign that has found no room is lost, digits
      that have found none are lost at the front, and a prefix cut to its letter hides the whole number. */
  lemma FieldRead(value: nat, negative: bool, base: nat, precision: nat, width: nat, flags: Flags)
    requires IsBase(base) && WellFlagged(value, base, precision, flags)
    ensures var p := PartsOf(value, negative, base, precision, width, flags);
      Parse(Field(value, negative, base, precision, width, flags), base)
      == Number(negative && p.Places() + |p.prefix| < SIZE,
                if Broken(p.prefix, base) then 0 else ValueOf(Reversed(Started(value, base, flags)), base))
  {
    var p := PartsOf(value, negative, base, precision, width, flags);
    var before, behind := FieldBlanks(value, negative, base, precision, width, flags);
    CoreIs(value, negative, base, precision, width, flags);
    PartsAre(value, negative, base, precision, width, flags);
    StartedRead(value, base, flags);
    if Broken(p.prefix, base) {
      BrokenPartsRead(p, base, flags, before, behind);
    } else {
      PartsRead(p, negative, base, flags, before, behind);
    }
  }

  /** A field reads back as sign and value if and only if all digits find room, the sign of a negative number does, and
      no prefix is cut to its letter before a value other than 0. */
  lemma ReadsBackExactly(value: nat, negative: bool, base: nat, precision: nat, width: nat, flags: Flags)
    requires IsBase(base) && WellFlagged(value, base, precision, flags)
    ensures var p := PartsOf(value, negative, base, precision, width, flags);
      Parse(Field(value, negative, base, precision, width, flags), base) == Number(negative, value) <==>
        && |PlainDigits(value, base, flags)| <= SIZE
        && (negative ==> p.Places() + |p.prefix| < SIZE)
        && (Broken(p.prefix, base) ==> value == 0)
  {
    FieldRead(value, negative, base, precision, width, flags);
    PartsAre(value, negative, base, precision, width, flags);
    StartedRead(value, base, flags);
  }

  /** A prefix that would be cut to its letter: digits and zeros take 31 places. */
  predicate CutPrefix(value: nat, negative: bool, base: nat, precision: nat, width: nat, flags: Flags)
    requires IsBase(base)
  {
    && value != 0 && (base == 2 || base == 16) && (Hash in flags || Pointer in flags)
    && Most(|PlainDigits(value, base, flags)|, precision) == SIZE - 1
    && !(ZeroPad in flags && Left !in flags && FillWidth(negative, width, flags) > SIZE)
  }

  /** A negative number needs room for all of its standard text; any other for its digits, and no prefix cut. */
  predicate FitsBack(value: nat, negative: bool, base: nat, precision: nat, width: nat, flags: Flags)
    requires IsBase(base)
  {
    if negative then |StandardCore(value, negative, base, precision, width, flags)| <= SIZE
    else |PlainDigits(value, base, flags)| <= SIZE && !CutPrefix(value, negative, base, precision, width, flags)
  }

  /** Places and prefix, by the way zeros are filled in. */
  lemma PartLengths(value: nat, negative: bool, base: nat, precision: nat, width: nat, flags: Flags, n: nat, w: nat,
                    filled: nat, prefix: Text)
    requires IsBase(base) && WellFlagged(value, base, precision, flags) && value != 0
    requires n == |PlainDigits(value, base, flags)| <= SIZE && w == FillWidth(negative, width, flags)
    requires filled == (if Precision in flags then Most(n, Least(precision, SIZE))
                        else if ZeroPad in flags && Left !in flags then Most(n, Least(w, SIZE)) else n)
    requires prefix == if Hash !in flags && Pointer !in flags then ""
                       else if base == 8 then (if filled > n then "" else "0") else PrefixText(base, flags)
    ensures var p := PartsOf(value, negative, base, precision, width, flags);
      && p.Places() == filled - (if prefix == "" then 0 else TakenBack(n, filled, base, precision, w, flags))
      && p.prefix == PlacedPrefix(prefix, p.Places())
  {
    StartedReversed(value, base, flags);
    CodePrefixIs(value, base, precision, n, filled, flags);
  }

  /** The broken prefixes are those. */
  lemma BrokenIsCut(value: nat, negative: bool, base: nat, precision: nat, width: nat, flags: Flags)
    requires IsBase(base) && WellFlagged(value, base, precision, flags) && value != 0
    requires |PlainDigits(value, base, flags)| <= SIZE
    ensures Broken(PartsOf(value, negative, base, precision, width, flags).prefix, base)
         == CutPrefix(value, negative, base, precision, width, flags)
  {
    var n, w := |PlainDigits(value, base, flags)|, FillWidth(negative, width, flags);
    var filled := if Precision in flags then Most(n, Least(precision, SIZE))
                  else if ZeroPad in flags && Left !in flags then Most(n, Least(w, SIZE)) else n;
    var prefix := if Hash !in flags && Pointer !in flags then ""
                  else if base == 8 then (if filled > n then "" else "0") else PrefixText(base, flags);
    PartLengths(value, negative, base, precision, width, flags, n, w, filled, prefix);
  }

  /** Where the sign of a negative number finds room, all of its standard text does. */
  lemma SignFits(value: nat, base: nat, precision: nat, width: nat, flags: Flags)
    requires IsBase(base) && WellFlagged(value, base, precision, flags) && value != 0
    requires |PlainDigits(value, base, flags)| <= SIZE
    requires var p := PartsOf(value, true, base, precision, width, flags); p.Places() + |p.prefix| < SIZE
    ensures |StandardCore(value, true, base, precision, width, flags)| <= SIZE
  {
    var n, w := |PlainDigits(value, base, flags)|, FillWidth(true, width, flags);
    var filled := if Precision in flags then Most(n, Least(precision, SIZE))
                  else if ZeroPad in flags && Left !in flags then Most(n, Least(w, SIZE)) else n;
    var prefix := if Hash !in flags && Pointer !in flags then ""
                  else if base == 8 then (if filled > n then "" else "0") else PrefixText(base, flags);
    PartLengths(value, true, base, precision, width, flags, n, w, filled, prefix);
    StandardPrefixIs(value, base, precision, flags);
  }

  /** The same in terms of the request: what a caller can tell beforehand. */
  lemma FitsBackExactly(value: nat, negative: bool, base: nat, precision: nat, width: nat, flags: Flags)
    requires IsBase(base) && WellFlagged(value, base, precision, flags) && (negative ==> value != 0)
    ensures (Parse(Field(value, negative, base, precision, width, flags), base) == Number(negative, value))
         == FitsBack(value, negative, base, precision, width, flags)
  {
    ReadsBackExactly(value, negative, base, precision, width, flags);
    if value != 0 && |PlainDigits(value, base, flags)| <= SIZE {
      BrokenIsCut(value, negative, base, precision, width, flags);
    }
    if negative {
      if |StandardCore(value, negative, base, precision, width, flags)| <= SIZE {
        RoundTrip(value, negative, base, precision, width, flags);
      } else if Parse(Field(value, negative, base, precision, width, flags), base) == Number(negative, value) {
        SignFits(value, base, precision, width, flags);
      }
    }
  }

  // ---- Lengths ----

  lemma {:induction false} DigitCountAbove(value: nat, base: nat, upper: bool, k: nat)
    requires IsBase(base) && value >= Power(base, k)
    ensures |Digits(value, base, upper)| > k
    decreases k
  {
    if k > 0 {
      PowerPositive(base, k - 1);
      AtLeast(value, base, Power(base, k - 1));
      Quotient(value, base);
      DigitCountAbove(value / base, base, upper, k - 1);
    }
  }

  lemma AtLeast(value: nat, base: nat, p: nat)
    requires base >= 1 && p >= 1 && value >= base * p
    ensures value >= base && value / base >= p
  {
    Parted(value, base);
    if value / base < p {
      Scaled(value / base + 1, p, base);
      Distributed(value / base, 1, base);
      Commuted(base, p);
    }
    Scaled(1, p, base);
    Commuted(base, p);
  }

  /** A number of more than 32 digits is not printed as the standard has it. */
  lemma LongNumberCut(value: nat, negative: bool, base: nat, precision: nat, width: nat, flags: Flags)
    requires IsBase(base) && WellFlagged(value, base, precision, flags) && value >= Power(base, SIZE)
    ensures Core(value, negative, base, precision, width, flags) != StandardCore(value, negative, base, precision, width, flags)
  {
    PowerPositive(base, SIZE);
    DigitCountAbove(value, base, UpperCase in flags, SIZE);
    PrintsStandard(value, negative, base, precision, width, flags);
  }

  /** 2^32 in base 2 is the least of them. */
  lemma LeastLongNumber()
    ensures Power(2, SIZE) == TWO_32
  {
    assert Power(2, 8) == 0x100;
    PowerSum(2, 8, 8);
    PowerSum(2, 16, 16);
  }

  function MostDigits(base: nat): nat {
    if base == 2 then 32 else if base == 8 then 22 else if base == 10 then 20 else 16
  }

  lemma PowersHold(base: nat)
    requires IsBase(base)
    ensures Power(base, MostDigits(base)) >= (if base == 2 then 0x1_0000_0000 else TWO_64)
  {
    if base == 2 {
      assert Power(2, 8) == 0x100;
      PowerSum(2, 8, 8);
      PowerSum(2, 16, 16);
    } else if base == 8 {
      assert Power(8, 5) == 0x8000 && Power(8, 2) == 0x40;
      PowerSum(8, 5, 5);
      PowerSum(8, 10, 10);
      PowerSum(8, 20, 2);
    } else if base == 10 {
      assert Power(10, 5) == 100000;
      PowerSum(10, 5, 5);
      PowerSum(10, 10, 10);
    } else {
      assert Power(16, 4) == 0x1_0000;
      PowerSum(16, 4, 4);
      PowerSum(16, 8, 8);
    }
  }

  /** 64-bit values have at most 22 digits in bases 8, 10 and 16; 32-bit values have at most 32 in base 2. */
  lemma DigitsFit(value: nat, base: nat, upper: bool)
    requires IsBase(base) && value < TWO_64 && (base == 2 ==> value < 0x1_0000_0000)
    ensures |Digits(value, base, upper)| <= MostDigits(base)
  {
    PowersHold(base);
    DigitCount(value, base, upper, MostDigits(base));
  }

  function PlainLength(value: nat, negative: bool, base: nat, flags: Flags): nat
    requires IsBase(base)
  {
    |Sign(negative, flags)| + |StandardPrefix(value, base, 0, flags)| + |Digits(value, base, UpperCase in flags)|
  }

  /** Sign, prefix and digits of a 64-bit value fit the buffer in bases 8, 10 and 16. */
  lemma PlainFits(value: nat, negative: bool, base: nat, flags: Flags)
    requires IsBase(base) && base != 2 && value < TWO_64
    ensures PlainLength(value, negative, base, flags) <= 25
  {
    DigitsFit(value, base, UpperCase in flags);
  }

  lemma StandardLength(value: nat, negative: bool, base: nat, width: nat, flags: Flags)
    requires IsBase(base) && Precision !in flags
    ensures |StandardCore(value, negative, base, 0, width, flags)|
         == if ZeroPad in flags && Left !in flags then Most(width, PlainLength(value, negative, base, flags))
            else PlainLength(value, negative, base, flags)
  {
  }

  /** Without a precision a field is as long as its width or as its sign, prefix and digits, whichever is more, exactly
      when those fit the 32 characters, or the blanks hide that they do not; and zeros, which come from the same 32
      characters, do not have to fill more. */
  lemma FieldLength(value: nat, negative: bool, base: nat, width: nat, flags: Flags)
    requires IsBase(base) && WellFlagged(value, base, 0, flags) && Precision !in flags
    ensures var plain := PlainLength(value, negative, base, flags);
      (|Field(value, negative, base, 0, width, flags)| == Most(width, plain))
      == if ZeroPad in flags && Left !in flags then width <= SIZE && plain <= SIZE else plain <= SIZE || plain <= width
  {
    var core := Core(value, negative, base, 0, width, flags);
    StandardLength(value, negative, base, width, flags);
    PrintsStandard(value, negative, base, 0, width, flags);
    assert |core| <= SIZE;
  }

  lemma PointerCore(value: nat, flags: Flags)
    requires 0 < value < TWO_64 && flags == {ZeroPad, Pointer}
    ensures var d := Digits(value, 16, false);
      |d| <= 16 && StandardCore(value, false, 16, 0, 18, flags) == "0x" + Repeat('0', 16 - |d|) + d
  {
    var d := Digits(value, 16, false);
    DigitsFit(value, 16, false);
    StandardPrefixIs(value, 16, 0, flags);
    assert Repeat('0', 0) + d == d && "" + "0x" == "0x";
  }

  /** %p of an address other than 0: the prefix and all sixteen digits. */
  lemma PointerField(value: nat)
    requires 0 < value < TWO_64
    ensures var d := Digits(value, 16, false);
      |d| <= 16 && Field(value, false, 16, 0, 18, {ZeroPad, Pointer}) == "0x" + Repeat('0', 16 - |d|) + d
  {
    var flags: Flags := {ZeroPad, Pointer};
    PointerCore(value, flags);
    PrintsStandard(value, false, 16, 0, 18, flags);
  }
}
