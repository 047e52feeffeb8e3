/**
 What print_integer prints: the text the C standard asks for, exactly when that fits 32 characters, and a text that
 reads back as the number.
 */
module IntegerText {
  import opened Integers
  import opened Output

  /** The digits of a number, highest first. */
  function Digits(value: nat, base: nat, upper: bool): (t: Text)
    requires IsBase(base)
    ensures |t| >= 1
    decreases value
  {
    if value < base then [DigitChar(value, upper)]
    else Digits(value / base, base, upper) + [DigitChar(value % base, upper)]
  }

  function Sign(negative: bool, flags: Flags): (t: Text)
    ensures |t| <= 1
  {
    if negative then "-" else if Plus in flags then "+" else if Space in flags then " " else ""
  }

  function PrefixText(base: nat, flags: Flags): (t: Text)
    ensures |t| <= 2
  {
    if base == 16 then (if UpperCase in flags then "0X" else "0x") else if base == 2 then "0b" else "0"
  }

  /** The digits, with zeros up to the precision; none for zero with precision zero (ISO C, section 7.21.6.1). */
  function PreciseDigits(value: nat, base: nat, precision: nat, flags: Flags): Text
    requires IsBase(base)
  {
    var d := if value == 0 && Precision in flags then "" else Digits(value, base, UpperCase in flags);
    Repeat('0', Missing(precision, |d|)) + d
  }

  /** The alternative form: no prefix on zero, and none on octal digits that already begin with a zero. */
  function StandardPrefix(value: nat, base: nat, precision: nat, flags: Flags): (t: Text)
    requires IsBase(base)
    ensures |t| <= 2
  {
    var d := PreciseDigits(value, base, precision, flags);
    if Hash !in flags && Pointer !in flags then ""
    else if base == 8 then (if d != "" && d[0] == '0' then "" else "0")
    else if value == 0 then ""
    else PrefixText(base, flags)
  }

  /** Sign, prefix, zeros that fill the width, digits. */
  function StandardCore(value: nat, negative: bool, base: nat, precision: nat, width: nat, flags: Flags): Text
    requires IsBase(base)
  {
    var d := PreciseDigits(value, base, precision, flags);
    var lead := Sign(negative, flags) + StandardPrefix(value, base, precision, flags);
    var fill := if ZeroPad in flags && Left !in flags && Precision !in flags then Missing(width, |lead| + |d|) else 0;
    lead + Repeat('0', fill) + d
  }

  /** What format_string_loop sees to before it prints an integer. */
  predicate WellFlagged(value: nat, base: nat, precision: nat, flags: Flags) {
    && (if Precision in flags then ZeroPad !in flags else precision == 0)
    && (base == 10 ==> Hash !in flags)
    && (Pointer in flags ==> base == 16 && value != 0)
  }

  /** A binary zero with a precision keeps the prefix it should not have. */
  predicate PrefixedZero(value: nat, base: nat, precision: nat, flags: Flags) {
    value == 0 && base == 2 && Precision in flags && Hash in flags && precision < SIZE
  }

  // ---- Digits ----

  lemma HighestDigits(value: nat, base: nat, upper: bool)
    requires IsBase(base) && value >= base
    ensures Digits(value, base, upper) == Digits(value / base, base, upper) + [DigitChar(value % base, upper)]
    ensures |Digits(value / base, base, upper)| == |Digits(value, base, upper)| - 1
  {
  }

  lemma OneDigit(value: nat, base: nat, upper: bool, room: nat)
    requires IsBase(base) && 0 < value < base && room > 0
    ensures LowDigits(value, base, upper, room) == [DigitChar(value, upper)] == Digits(value, base, upper)
    ensures Reversed([DigitChar(value, upper)]) == [DigitChar(value, upper)]
  {
    Quotient(value, base);
    LowestDigit(value, base, upper, room);
    ReversedFirst(DigitChar(value, upper), "");
    assert [DigitChar(value, upper)] + "" == [DigitChar(value, upper)] == "" + [DigitChar(value, upper)];
  }

  lemma {:induction false} LowDigitsReversed(value: nat, base: nat, upper: bool, room: nat)
    requires IsBase(base) && value > 0 && |Digits(value, base, upper)| <= room
    ensures Reversed(LowDigits(value, base, upper, room)) == Digits(value, base, upper)
    decreases value
  {
    if value < base {
      OneDigit(value, base, upper, room);
    } else {
      Quotient(value, base);
      HighestDigits(value, base, upper);
      LowestDigit(value, base, upper, room);
      ReversedFirst(DigitChar(value % base, upper), LowDigits(value / base, base, upper, room - 1));
      LowDigitsReversed(value / base, base, upper, room - 1);
    }
  }

  lemma ReversedFirst(c: char, rest: Text)
    ensures Reversed([c] + rest) == Reversed(rest) + [c]
  {
    assert ([c] + rest)[1..] == rest;
  }

  lemma Quotient(value: nat, base: nat)
    requires IsBase(base)
    ensures value < base ==> value / base == 0 && value % base == value
    ensures value >= base ==> 0 < value / base < value
  {
  }

  /** The digits the code starts from are the digits of the number, when there is room for them. */
  lemma StartedReversed(value: nat, base: nat, flags: Flags)
    requires IsBase(base)
    ensures var d := if value == 0 && Precision in flags then "" else Digits(value, base, UpperCase in flags);
      |d| <= SIZE ==> Reversed(Started(value, base, flags)) == d && |Started(value, base, flags)| == |d|
  {
    if value > 0 && |Digits(value, base, UpperCase in flags)| <= SIZE {
      LowDigitsReversed(value, base, UpperCase in flags, SIZE);
    } else if value == 0 {
      assert "0"[1..] == "";
    }
  }

  // ---- Prefix and sign ----

  lemma ReversedTwo(a: char, b: char)
    ensures Reversed([a, b]) == [b, a] && Reversed([a]) == [a] && Reversed("") == ""
  {
    assert [a, b][1..] == [b] && [b][1..] == "" && [a][1..] == "";
  }

  /** What of a prefix finds room behind `places` characters: all of it, the letter alone, or nothing. */
  function PlacedPrefix(prefix: Text, places: nat): (t: Text)
    requires |prefix| <= 2
    ensures |t| <= |prefix| && (places <= SIZE ==> places + |t| <= SIZE)
    ensures places + |prefix| <= SIZE ==> t == prefix
  {
    if places + |prefix| <= SIZE then prefix else if |prefix| == 2 && places < SIZE then prefix[1..] else ""
  }

  function PlacedSign(sign: Text, places: nat): (t: Text)
    ensures |t| <= |sign| && (places < SIZE ==> t == sign)
  {
    if places < SIZE then sign else ""
  }

  lemma PrefixPut(kept: Text, base: nat, flags: Flags)
    requires |kept| <= SIZE
    ensures Integers.Put(WithLetter(kept, base, flags), '0') == kept + Reversed(PlacedPrefix(PrefixText(base, flags), |kept|))
  {
    if base == 16 {
      LetterPut(kept, if UpperCase in flags then 'X' else 'x');
    } else if base == 2 {
      LetterPut(kept, 'b');
    } else {
      ReversedTwo('0', '0');
      assert kept + "" == kept;
    }
  }

  lemma LetterPut(kept: Text, x: char)
    requires |kept| <= SIZE
    ensures Integers.Put(Integers.Put(kept, x), '0') == kept + Reversed(PlacedPrefix(['0', x], |kept|))
  {
    ReversedTwo('0', x);
    ReversedTwo(x, '0');
    assert kept + [x] + ['0'] == kept + [x, '0'] && kept + "" == kept && ['0', x][1..] == [x];
  }

  lemma SignPut(t: Text, negative: bool, flags: Flags)
    requires |t| <= SIZE
    ensures WithSign(t, negative, flags) == t + PlacedSign(Sign(negative, flags), |t|)
  {
    assert t + "" == t;
  }

  lemma SignReversed(negative: bool, flags: Flags, places: nat)
    ensures Reversed(PlacedSign(Sign(negative, flags), places)) == PlacedSign(Sign(negative, flags), places)
  {
    var s := PlacedSign(Sign(negative, flags), places);
    if s != "" {
      assert s[1..] == "";
    }
  }

  lemma Regrouped(a: Text, b: Text, c: Text, d: Text)
    ensures a + b + c + d == a + (b + (c + d))
  {
  }

  /** A finished buffer, turned around. */
  lemma TurnedAround(t: Text, zeros: nat, prefix: Text, sign: Text)
    requires Reversed(sign) == sign
    ensures Reversed(t + Repeat('0', zeros) + Reversed(prefix) + sign) == sign + prefix + Repeat('0', zeros) + Reversed(t)
  {
    var z, p := Repeat('0', zeros), Reversed(prefix);
    ReversedConcat(t + z + p, sign);
    ReversedConcat(t + z, p);
    ReversedConcat(t, z);
    ReversedRepeat('0', zeros);
    ReversedTwice(prefix);
    Regrouped(sign, prefix, z, Reversed(t));
  }

  lemma {:induction false} ReversedTwice(t: Text)
    ensures Reversed(Reversed(t)) == t
  {
    if t != "" {
      ReversedConcat(Reversed(t[1..]), [t[0]]);
      ReversedTwice(t[1..]);
      assert Reversed([t[0]]) == [t[0]] by { assert [t[0]][1..] == ""; }
    }
  }

  // ---- The whole field ----

  /** How long the code fills n digits with zeros. */
  function FilledLength(n: nat, negative: bool, precision: nat, width: nat, flags: Flags): (filled: nat)
    ensures n <= filled && (n <= SIZE ==> filled <= SIZE)
  {
    if Precision in flags then Most(n, Least(precision, SIZE))
    else if ZeroPad in flags && Left !in flags then Most(n, Least(FillWidth(negative, width, flags), SIZE))
    else n
  }

  lemma FilledIs(t: Text, negative: bool, precision: nat, width: nat, flags: Flags)
    requires if Precision in flags then ZeroPad !in flags else precision == 0
    requires |t| <= SIZE
    ensures Filled(t, negative, precision, width, flags)
         == t + Repeat('0', FilledLength(|t|, negative, precision, width, flags) - |t|)
  {
    assert t + Repeat('0', 0) == t;
  }

  /** Whether the code appends a prefix. */
  predicate Prefixes(value: nat, base: nat, n: nat, filled: nat, flags: Flags) {
    var f := FillFlags(n, filled, base, StartFlags(value, base, flags));
    Hash in f || Pointer in f
  }

  /** How many zeros are left between prefix and digits. */
  function ZerosLeft(value: nat, negative: bool, base: nat, n: nat, precision: nat, width: nat, flags: Flags): nat {
    var filled := FilledLength(n, negative, precision, width, flags);
    var back := if Prefixes(value, base, n, filled, flags)
      then TakenBack(n, filled, base, precision, FillWidth(negative, width, flags), flags) else 0;
    filled - n - back
  }

  function CodePrefix(value: nat, base: nat, n: nat, filled: nat, flags: Flags): (t: Text)
    ensures |t| <= 2
  {
    if Prefixes(value, base, n, filled, flags) then PrefixText(base, flags) else ""
  }

  /** Digits, zeros and prefix in the buffer. */
  lemma PrefixIs(t: Text, fill: nat, base: nat, precision: nat, width: nat, g: Flags, zeros: nat, prefix: Text)
    requires |t| + fill <= SIZE && zeros <= fill
    requires if Hash in g || Pointer in g
      then prefix == PrefixText(base, g) && zeros == fill - TakenBack(|t|, |t| + fill, base, precision, width, g)
      else prefix == "" && zeros == fill
    ensures WithPrefix(t + Repeat('0', fill), |t|, base, precision, width, g)
         == t + Repeat('0', zeros) + Reversed(PlacedPrefix(prefix, |t| + zeros))
  {
    ZerosCut(t, fill, zeros);
    PrefixOn(t + Repeat('0', fill), |t|, base, precision, width, g, t + Repeat('0', zeros), prefix);
  }

  lemma PrefixOn(filled: Text, length: nat, base: nat, precision: nat, width: nat, g: Flags, kept: Text, prefix: Text)
    requires length <= |kept| <= |filled| <= SIZE && filled[..|kept|] == kept
    requires if Hash in g || Pointer in g
      then prefix == PrefixText(base, g) && |kept| == |filled| - TakenBack(length, |filled|, base, precision, width, g)
      else prefix == "" && |kept| == |filled|
    ensures WithPrefix(filled, length, base, precision, width, g) == kept + Reversed(PlacedPrefix(prefix, |kept|))
  {
    if Hash in g || Pointer in g {
      PrefixPut(kept, base, g);
    } else {
      assert kept + "" == kept == filled;
    }
  }

  lemma ZerosCut(t: Text, fill: nat, zeros: nat)
    requires zeros <= fill
    ensures (t + Repeat('0', fill))[..|t| + zeros] == t + Repeat('0', zeros)
  {
  }

  /** The flags that the code has changed on the way make no difference to the rest. */
  lemma FlagsOnTheWay(value: nat, n: nat, negative: bool, base: nat, precision: nat, width: nat, flags: Flags)
    ensures var f := StartFlags(value, base, flags);
      var filled := FilledLength(n, negative, precision, width, flags);
      var g := FillFlags(n, filled, base, f);
      && FilledLength(n, negative, precision, width, f) == filled && FillWidth(negative, width, f) == FillWidth(negative, width, flags)
      && PrefixText(base, g) == PrefixText(base, flags) && Sign(negative, g) == Sign(negative, flags)
      && TakenBack(n, filled, base, precision, FillWidth(negative, width, flags), g)
         == TakenBack(n, filled, base, precision, FillWidth(negative, width, flags), flags)
  {
  }

  /** The pieces of a finished buffer behind the n digits: zeros, prefix. */
  predicate Pieces(value: nat, n: nat, negative: bool, base: nat, precision: nat, width: nat, flags: Flags,
                   filled: nat, zeros: nat, prefix: Text) {
    && filled == FilledLength(n, negative, precision, width, flags)
    && zeros == ZerosLeft(value, negative, base, n, precision, width, flags)
    && prefix == CodePrefix(value, base, n, filled, flags)
  }

  lemma PiecesGive(value: nat, n: nat, negative: bool, base: nat, precision: nat, width: nat, flags: Flags,
                   filled: nat, zeros: nat, prefix: Text)
    requires Pieces(value, n, negative, base, precision, width, flags, filled, zeros, prefix)
    ensures zeros <= filled - n
    ensures var g := FillFlags(n, filled, base, StartFlags(value, base, flags));
      if Hash in g || Pointer in g
      then prefix == PrefixText(base, g)
        && zeros == filled - n - TakenBack(n, filled, base, precision, FillWidth(negative, width, flags), g)
      else prefix == "" && zeros == filled - n
  {
    FlagsOnTheWay(value, n, negative, base, precision, width, flags);
  }

  lemma PrefixedBody(value: nat, t: Text, negative: bool, base: nat, precision: nat, width: nat, flags: Flags,
                     filled: nat, zeros: nat, prefix: Text)
    requires |t| <= SIZE && Pieces(value, |t|, negative, base, precision, width, flags, filled, zeros, prefix)
    ensures WithPrefix(t + Repeat('0', filled - |t|), |t|, base, precision, FillWidth(negative, width, flags),
                       FillFlags(|t|, filled, base, StartFlags(value, base, flags)))
         == t + Repeat('0', zeros) + Reversed(PlacedPrefix(prefix, |t| + zeros))
  {
    PiecesGive(value, |t|, negative, base, precision, width, flags, filled, zeros, prefix);
    PrefixIs(t, filled - |t|, base, precision, FillWidth(negative, width, flags),
             FillFlags(|t|, filled, base, StartFlags(value, base, flags)), zeros, prefix);
  }

  /** Digits, zeros and what finds room of the prefix, before the sign. */
  lemma BodyIs(value: nat, t: Text, negative: bool, base: nat, precision: nat, width: nat, flags: Flags,
               filled: nat, zeros: nat, prefix: Text, body: Text)
    requires if Precision in flags then ZeroPad !in flags else precision == 0
    requires |t| <= SIZE && Pieces(value, |t|, negative, base, precision, width, flags, filled, zeros, prefix)
    requires body == t + Repeat('0', zeros) + Reversed(PlacedPrefix(prefix, |t| + zeros))
    ensures var f := StartFlags(value, base, flags);
      |body| <= SIZE && Finished(t, negative, base, precision, width, f) == WithSign(body, negative, FillFlags(|t|, filled, base, f))
  {
    var f := StartFlags(value, base, flags);
    PrefixedBody(value, t, negative, base, precision, width, flags, filled, zeros, prefix);
    FlagsOnTheWay(value, |t|, negative, base, precision, width, flags);
    FilledIs(t, negative, precision, width, f);
    FinishedIsSigned(t, negative, base, precision, width, f, t + Repeat('0', filled - |t|), body);
  }

  /** The finished buffer: digits, zeros, and what finds room of prefix and sign. */
  lemma FinishedIs(value: nat, t: Text, negative: bool, base: nat, precision: nat, width: nat, flags: Flags,
                   filled: nat, zeros: nat, prefix: Text, body: Text)
    requires if Precision in flags then ZeroPad !in flags else precision == 0
    requires |t| <= SIZE && Pieces(value, |t|, negative, base, precision, width, flags, filled, zeros, prefix)
    requires body == t + Repeat('0', zeros) + Reversed(PlacedPrefix(prefix, |t| + zeros))
    ensures Finished(t, negative, base, precision, width, StartFlags(value, base, flags))
         == body + PlacedSign(Sign(negative, flags), |body|)
  {
    BodyIs(value, t, negative, base, precision, width, flags, filled, zeros, prefix, body);
    FlagsOnTheWay(value, |t|, negative, base, precision, width, flags);
    SignPut(body, negative, FillFlags(|t|, filled, base, StartFlags(value, base, flags)));
  }

  lemma FinishedIsSigned(t: Text, negative: bool, base: nat, precision: nat, width: nat, f: Flags, filled: Text, body: Text)
    requires |t| <= |filled| <= SIZE && Filled(t, negative, precision, width, f) == filled
    requires WithPrefix(filled, |t|, base, precision, FillWidth(negative, width, f), FillFlags(|t|, |filled|, base, f)) == body
    ensures |body| <= SIZE
    ensures Finished(t, negative, base, precision, width, f) == WithSign(body, negative, FillFlags(|t|, |filled|, base, f))
  {
  }

  /** What is printed of an integer: its digits, lowest first, and before them zeros, a prefix and a sign. */
  datatype Parts = Parts(digits: Text, zeros: nat, prefix: Text, sign: Text) {
    function Places(): nat { |digits| + zeros }

    function Printed(): Text { sign + prefix + Repeat('0', zeros) + Reversed(digits) }
  }

  function PartsOf(value: nat, negative: bool, base: nat, precision: nat, width: nat, flags: Flags): (p: Parts)
    requires IsBase(base)
  {
    var t := Started(value, base, flags);
    var filled := FilledLength(|t|, negative, precision, width, flags);
    var zeros := ZerosLeft(value, negative, base, |t|, precision, width, flags);
    var placed := PlacedPrefix(CodePrefix(value, base, |t|, filled, flags), |t| + zeros);
    Parts(t, zeros, placed, PlacedSign(Sign(negative, flags), |t| + zeros + |placed|))
  }

  /** What print_integer prints, whether it fits or not. */
  lemma CoreIs(value: nat, negative: bool, base: nat, precision: nat, width: nat, flags: Flags)
    requires IsBase(base) && if Precision in flags then ZeroPad !in flags else precision == 0
    ensures Core(value, negative, base, precision, width, flags)
         == PartsOf(value, negative, base, precision, width, flags).Printed()
  {
    var t := Started(value, base, flags);
    var filled := FilledLength(|t|, negative, precision, width, flags);
    var zeros := ZerosLeft(value, negative, base, |t|, precision, width, flags);
    var prefix := CodePrefix(value, base, |t|, filled, flags);
    FinishedTurned(value, t, negative, base, precision, width, flags, filled, zeros, prefix, PlacedPrefix(prefix, |t| + zeros));
  }

  lemma FinishedTurned(value: nat, t: Text, negative: bool, base: nat, precision: nat, width: nat, flags: Flags,
                       filled: nat, zeros: nat, prefix: Text, placed: Text)
    requires if Precision in flags then ZeroPad !in flags else precision == 0
    requires |t| <= SIZE && Pieces(value, |t|, negative, base, precision, width, flags, filled, zeros, prefix)
    requires placed == PlacedPrefix(prefix, |t| + zeros)
    ensures Reversed(Finished(t, negative, base, precision, width, StartFlags(value, base, flags)))
         == PlacedSign(Sign(negative, flags), |t| + zeros + |placed|) + placed + Repeat('0', zeros) + Reversed(t)
  {
    FinishedIs(value, t, negative, base, precision, width, flags, filled, zeros, prefix,
               t + Repeat('0', zeros) + Reversed(placed));
    SignReversed(negative, flags, |t| + zeros + |placed|);
    TurnedAround(t, zeros, placed, PlacedSign(Sign(negative, flags), |t| + zeros + |placed|));
  }

  /** The digits alone. */
  function PlainDigits(value: nat, base: nat, flags: Flags): Text
    requires IsBase(base)
  {
    if value == 0 && Precision in flags then "" else Digits(value, base, UpperCase in flags)
  }

  lemma {:induction false} FirstDigit(value: nat, base: nat, upper: bool)
    requires IsBase(base)
    ensures Digits(value, base, upper)[0] == '0' <==> value == 0
    decreases value
  {
    Quotient(value, base);
    if value >= base {
      FirstDigit(value / base, base, upper);
    }
  }

  /** The prefix of the code, in terms of zeros filled in. */
  lemma CodePrefixIs(value: nat, base: nat, precision: nat, n: nat, filled: nat, flags: Flags)
    requires IsBase(base) && WellFlagged(value, base, precision, flags)
    requires !(value == 0 && base == 2 && Precision in flags && Hash in flags)
    ensures CodePrefix(value, base, n, filled, flags)
         == if Hash !in flags && Pointer !in flags then ""
            else if base == 8 then (if filled > n || (value == 0 && Precision !in flags) then "" else "0")
            else if value == 0 then ""
            else PrefixText(base, flags)
  {
  }

  lemma StandardPrefixIs(value: nat, base: nat, precision: nat, flags: Flags)
    requires IsBase(base)
    ensures var n := |PlainDigits(value, base, flags)|;
      StandardPrefix(value, base, precision, flags)
      == if Hash !in flags && Pointer !in flags then ""
         else if base == 8 then (if precision > n || (value == 0 && Precision !in flags) then "" else "0")
         else if value == 0 then ""
         else PrefixText(base, flags)
  {
    FirstDigit(value, base, UpperCase in flags);
  }

  /** With a precision, the zeros come from it. */
  lemma SameWithPrecision(value: nat, negative: bool, base: nat, precision: nat, width: nat, flags: Flags)
    requires IsBase(base) && WellFlagged(value, base, precision, flags) && Precision in flags
    requires !(value == 0 && base == 2 && Hash in flags)
    requires |StandardCore(value, negative, base, precision, width, flags)| <= SIZE
    ensures var d := PlainDigits(value, base, flags);
      var filled := FilledLength(|d|, negative, precision, width, flags);
      && filled <= |StandardCore(value, negative, base, precision, width, flags)|
      && StandardCore(value, negative, base, precision, width, flags)
         == Sign(negative, flags) + CodePrefix(value, base, |d|, filled, flags)
          + Repeat('0', ZerosLeft(value, negative, base, |d|, precision, width, flags)) + d
  {
    var d := PlainDigits(value, base, flags);
    var filled := FilledLength(|d|, negative, precision, width, flags);
    CodePrefixIs(value, base, precision, |d|, filled, flags);
    StandardPrefixIs(value, base, precision, flags);
    assert ZerosLeft(value, negative, base, |d|, precision, width, flags) == Missing(precision, |d|);
    var lead := Sign(negative, flags) + StandardPrefix(value, base, precision, flags);
    assert lead + Repeat('0', 0) + (Repeat('0', Missing(precision, |d|)) + d) == lead + Repeat('0', Missing(precision, |d|)) + d;
  }

  /** Without one, and without zeros for the width, there are none. */
  lemma SameWithoutZeros(value: nat, negative: bool, base: nat, precision: nat, width: nat, flags: Flags)
    requires IsBase(base) && WellFlagged(value, base, precision, flags) && Precision !in flags
    requires !(ZeroPad in flags && Left !in flags)
    requires |StandardCore(value, negative, base, precision, width, flags)| <= SIZE
    ensures var d := PlainDigits(value, base, flags);
      var filled := FilledLength(|d|, negative, precision, width, flags);
      && filled <= |StandardCore(value, negative, base, precision, width, flags)|
      && StandardCore(value, negative, base, precision, width, flags)
         == Sign(negative, flags) + CodePrefix(value, base, |d|, filled, flags)
          + Repeat('0', ZerosLeft(value, negative, base, |d|, precision, width, flags)) + d
  {
    var d := PlainDigits(value, base, flags);
    CodePrefixIs(value, base, precision, |d|, |d|, flags);
    StandardPrefixIs(value, base, precision, flags);
    assert Repeat('0', 0) + d == d;
  }

  /** Zeros that fill the width make way for a prefix and a sign. */
  lemma ZerosMakeWay(value: nat, negative: bool, base: nat, precision: nat, width: nat, flags: Flags)
    requires IsBase(base) && WellFlagged(value, base, precision, flags) && Precision !in flags
    requires ZeroPad in flags && Left !in flags
    requires |StandardCore(value, negative, base, precision, width, flags)| <= SIZE
    ensures var n := |PlainDigits(value, base, flags)|;
      var filled := FilledLength(n, negative, precision, width, flags);
      var code, standard := CodePrefix(value, base, n, filled, flags), StandardPrefix(value, base, precision, flags);
      var fill := Missing(width, |Sign(negative, flags)| + |standard| + n);
      && ZerosLeft(value, negative, base, n, precision, width, flags) == fill + |standard| - |code|
      && (code == standard || (code == "" && standard == "0"))
      && filled <= |Sign(negative, flags)| + |standard| + fill + n
  {
    var n := |PlainDigits(value, base, flags)|;
    CodePrefixIs(value, base, precision, n, FilledLength(n, negative, precision, width, flags), flags);
    StandardPrefixIs(value, base, precision, flags);
  }

  lemma SameText(sign: Text, code: Text, standard: Text, zeros: nat, fill: nat, d: Text)
    requires code == standard || (code == "" && standard == "0")
    requires zeros == fill + |standard| - |code|
    ensures sign + standard + Repeat('0', fill) + d == sign + code + Repeat('0', zeros) + d
  {
    if code != standard {
      assert standard + Repeat('0', fill) == Repeat('0', zeros);
      assert sign + standard + Repeat('0', fill) == sign + (standard + Repeat('0', fill));
      assert sign + code == sign;
    }
  }

  lemma SameWithZeros(value: nat, negative: bool, base: nat, precision: nat, width: nat, flags: Flags)
    requires IsBase(base) && WellFlagged(value, base, precision, flags) && Precision !in flags
    requires ZeroPad in flags && Left !in flags
    requires |StandardCore(value, negative, base, precision, width, flags)| <= SIZE
    ensures var d := PlainDigits(value, base, flags);
      var filled := FilledLength(|d|, negative, precision, width, flags);
      && filled <= |StandardCore(value, negative, base, precision, width, flags)|
      && StandardCore(value, negative, base, precision, width, flags)
         == Sign(negative, flags) + CodePrefix(value, base, |d|, filled, flags)
          + Repeat('0', ZerosLeft(value, negative, base, |d|, precision, width, flags)) + d
  {
    var d := PlainDigits(value, base, flags);
    var sign, standard := Sign(negative, flags), StandardPrefix(value, base, precision, flags);
    var fill := Missing(width, |sign| + |standard| + |d|);
    ZerosMakeWay(value, negative, base, precision, width, flags);
    SameText(sign, CodePrefix(value, base, |d|, FilledLength(|d|, negative, precision, width, flags), flags), standard,
             ZerosLeft(value, negative, base, |d|, precision, width, flags), fill, d);
    assert Repeat('0', 0) + d == d;
  }

  lemma StandardIs(value: nat, negative: bool, base: nat, precision: nat, width: nat, flags: Flags)
    requires IsBase(base) && WellFlagged(value, base, precision, flags)
    requires |StandardCore(value, negative, base, precision, width, flags)| <= SIZE
    requires !(value == 0 && base == 2 && Precision in flags && Hash in flags)
    ensures var d := PlainDigits(value, base, flags);
      var filled := FilledLength(|d|, negative, precision, width, flags);
      && StandardCore(value, negative, base, precision, width, flags)
         == Sign(negative, flags) + CodePrefix(value, base, |d|, filled, flags)
          + Repeat('0', ZerosLeft(value, negative, base, |d|, precision, width, flags)) + d
  {
    if Precision in flags {
      SameWithPrecision(value, negative, base, precision, width, flags);
    } else if ZeroPad in flags && Left !in flags {
      SameWithZeros(value, negative, base, precision, width, flags);
    } else {
      SameWithoutZeros(value, negative, base, precision, width, flags);
    }
  }

  /** Where everything fits everything is placed. */
  lemma AllPlaced(t: Text, zeros: nat, prefix: Text, sign: Text)
    requires |prefix| <= 2 && |t| + zeros + |prefix| + |sign| <= SIZE
    ensures PlacedPrefix(prefix, |t| + zeros) == prefix && PlacedSign(sign, |t| + zeros + |prefix|) == sign
  {
  }

  /** An integer that fits is printed as the standard says. */
  lemma FitsPrinted(value: nat, negative: bool, base: nat, precision: nat, width: nat, flags: Flags)
    requires IsBase(base) && WellFlagged(value, base, precision, flags)
    requires |StandardCore(value, negative, base, precision, width, flags)| <= SIZE
    requires !(value == 0 && base == 2 && Precision in flags && Hash in flags)
    ensures Core(value, negative, base, precision, width, flags) == StandardCore(value, negative, base, precision, width, flags)
  {
    var t, sign := Started(value, base, flags), Sign(negative, flags);
    StandardIs(value, negative, base, precision, width, flags);
    StartedReversed(value, base, flags);
    var filled := FilledLength(|t|, negative, precision, width, flags);
    var zeros := ZerosLeft(value, negative, base, |t|, precision, width, flags);
    var prefix := CodePrefix(value, base, |t|, filled, flags);
    AllPlaced(t, zeros, prefix, sign);
    FinishedTurned(value, t, negative, base, precision, width, flags, filled, zeros, prefix, prefix);
  }

  lemma StandardZero(negative: bool, precision: nat, width: nat, flags: Flags)
    requires WellFlagged(0, 2, precision, flags) && Precision in flags
    ensures StandardCore(0, negative, 2, precision, width, flags) == Sign(negative, flags) + Repeat('0', precision)
  {
    var sign := Sign(negative, flags);
    assert sign + "" + Repeat('0', 0) + (Repeat('0', precision) + "") == sign + Repeat('0', precision);
  }

  lemma PrefixedZeros(precision: nat, width: nat, g: Flags)
    requires Precision in g && Hash in g && precision <= SIZE
    ensures var b := WithPrefix(Repeat('0', precision), 0, 2, precision, width, g);
      if precision < SIZE then |b| > precision && b[precision] == 'b' else b == Repeat('0', SIZE)
  {
    assert Repeat('0', precision)[..precision] == Repeat('0', precision);
  }

  /** The binary zero: its buffer holds the letter of the prefix behind the zeros, where there is room. */
  lemma BinaryZero(negative: bool, precision: nat, width: nat, flags: Flags)
    requires WellFlagged(0, 2, precision, flags) && Precision in flags && Hash in flags && precision <= SIZE
    ensures var b := Finished("", negative, 2, precision, width, StartFlags(0, 2, flags));
      if precision < SIZE then |b| > precision && b[precision] == 'b' else b == Repeat('0', SIZE)
  {
    FilledIs("", negative, precision, width, flags);
    assert "" + Repeat('0', precision) == Repeat('0', precision);
    PrefixedZeros(precision, FillWidth(negative, width, flags), flags);
  }

  lemma BinaryZeroPrinted(negative: bool, precision: nat, width: nat, flags: Flags)
    requires WellFlagged(0, 2, precision, flags) && Precision in flags && Hash in flags
    requires |StandardCore(0, negative, 2, precision, width, flags)| <= SIZE && precision <= SIZE
    ensures Core(0, negative, 2, precision, width, flags) == StandardCore(0, negative, 2, precision, width, flags)
       <==> precision == SIZE
  {
    BinaryZero(negative, precision, width, flags);
    StandardZero(negative, precision, width, flags);
    var b := Finished("", negative, 2, precision, width, StartFlags(0, 2, flags));
    var sign := Sign(negative, flags);
    ReversedRepeat('0', precision);
    SignPut("", negative, flags);
    ReversedConcat(sign, Repeat('0', precision));
    ReversedTwice(b);
  }

  /** print_integer prints what the standard says if and only if that fits its 32 characters, but for a binary zero
      with '#' and a precision below 32. */
  lemma PrintsStandard(value: nat, negative: bool, base: nat, precision: nat, width: nat, flags: Flags)
    requires IsBase(base) && WellFlagged(value, base, precision, flags)
    ensures Core(value, negative, base, precision, width, flags) == StandardCore(value, negative, base, precision, width, flags)
       <==> |StandardCore(value, negative, base, precision, width, flags)| <= SIZE && !PrefixedZero(value, base, precision, flags)
  {
    var standard := StandardCore(value, negative, base, precision, width, flags);
    if |standard| > SIZE {
      assert |Core(value, negative, base, precision, width, flags)| <= SIZE;
    } else if value == 0 && base == 2 && Precision in flags && Hash in flags {
      assert |PreciseDigits(value, base, precision, flags)| >= precision;
      BinaryZeroPrinted(negative, precision, width, flags);
    } else {
      FitsPrinted(value, negative, base, precision, width, flags);
    }
  }
}
