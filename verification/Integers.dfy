/**
 Integers in text: print_integer, which builds a field backwards in 32 characters, against the field that the C
 standard describes.
 */
module Integers {
  import opened Output

  /** PRINTF_INTEGER_BUFFER_SIZE. */
  const SIZE := 32

  predicate IsBase(base: nat) { base == 2 || base == 8 || base == 10 || base == 16 }

  function DigitChar(d: nat, upper: bool): (c: char)
    requires d < 16
  {
    if d < 10 then '0' + d as char else (if upper then 'A' else 'a') + (d - 10) as char
  }

  // ---- The buffer, lowest digit first ----

  /** The low digits of value, as many as there is room for. */
  function LowDigits(value: nat, base: nat, upper: bool, room: nat): (t: Text)
    requires IsBase(base)
    ensures |t| <= room
    decreases room
  {
    if value == 0 || room == 0 then ""
    else [DigitChar(value % base, upper)] + LowDigits(value / base, base, upper, room - 1)
  }

  function Started(value: nat, base: nat, flags: Flags): (t: Text)
    requires IsBase(base)
    ensures |t| <= SIZE
  {
    if value == 0 then (if Precision in flags then "" else "0") else LowDigits(value, base, UpperCase in flags, SIZE)
  }

  /** No prefix on zero, except on a binary zero with a precision. */
  function StartFlags(value: nat, base: nat, flags: Flags): Flags {
    if value == 0 && (Precision !in flags || base == 16) then flags - {Hash} else flags
  }

  /** The width that zeros may fill, less the place of a sign. */
  function FillWidth(negative: bool, width: nat, flags: Flags): (w: nat)
    ensures w <= width
  {
    if Left !in flags && width > 0 && ZeroPad in flags && (negative || Plus in flags || Space in flags) then width - 1
    else width
  }

  function ZerosTo(t: Text, n: nat): (r: Text)
    requires |t| <= SIZE
    ensures |t| <= |r| <= SIZE && r[..|t|] == t
  {
    t + Repeat('0', Missing(Least(n, SIZE), |t|))
  }

  function Filled(t: Text, negative: bool, precision: nat, width: nat, flags: Flags): (r: Text)
    requires |t| <= SIZE
    ensures |t| <= |r| <= SIZE && r[..|t|] == t
  {
    var z := if Left !in flags && ZeroPad in flags then ZerosTo(t, FillWidth(negative, width, flags)) else t;
    ZerosTo(z, precision)
  }

  /** Zeros in front of an octal number already tell its base. */
  function FillFlags(length: nat, filled: nat, base: nat, flags: Flags): Flags {
    if base == 8 && filled > length then flags - {Hash} else flags
  }

  /** How many filled-in zeros make way for a prefix. */
  function TakenBack(length: nat, filled: nat, base: nat, precision: nat, width: nat, flags: Flags): (n: nat)
    requires length <= filled
    ensures n <= filled - length
  {
    if Precision in flags || filled == 0 || (filled != precision && filled != width) || filled == length then 0
    else if (base == 16 || base == 2) && filled - length >= 2 then 2
    else 1
  }

  function Put(t: Text, c: char): (r: Text)
    requires |t| <= SIZE
    ensures |r| <= SIZE
  {
    if |t| < SIZE then t + [c] else t
  }

  /** The letter of a prefix. */
  function WithLetter(t: Text, base: nat, flags: Flags): (r: Text)
    requires |t| <= SIZE
    ensures |r| <= SIZE
  {
    if base == 16 then Put(t, if UpperCase in flags then 'X' else 'x')
    else if base == 2 then Put(t, 'b')
    else t
  }

  function WithSign(t: Text, negative: bool, flags: Flags): (r: Text)
    requires |t| <= SIZE
    ensures |r| <= SIZE
  {
    if negative then Put(t, '-') else if Plus in flags then Put(t, '+') else if Space in flags then Put(t, ' ') else t
  }

  function WithPrefix(t: Text, length: nat, base: nat, precision: nat, width: nat, flags: Flags): (r: Text)
    requires length <= |t| <= SIZE
    ensures |r| <= SIZE
  {
    if Hash in flags || Pointer in flags then
      var kept := t[..|t| - TakenBack(length, |t|, base, precision, width, flags)];
      Put(WithLetter(kept, base, flags), '0')
    else t
  }

  /** The finished buffer. */
  function Finished(t: Text, negative: bool, base: nat, precision: nat, width: nat, flags: Flags): (r: Text)
    requires |t| <= SIZE
    ensures |r| <= SIZE
  {
    var filled := Filled(t, negative, precision, width, flags);
    var prefixed := WithPrefix(filled, |t|, base, precision, FillWidth(negative, width, flags), FillFlags(|t|, |filled|, base, flags));
    WithSign(prefixed, negative, FillFlags(|t|, |filled|, base, flags))
  }

  /** The characters of an integer, before it is set in its width. */
  function Core(value: nat, negative: bool, base: nat, precision: nat, width: nat, flags: Flags): (t: Text)
    requires IsBase(base)
  {
    Reversed(Finished(Started(value, base, flags), negative, base, precision, width, StartFlags(value, base, flags)))
  }

  function Field(value: nat, negative: bool, base: nat, precision: nat, width: nat, flags: Flags): Text
    requires IsBase(base)
  {
    Padded(Core(value, negative, base, precision, width, flags), FillWidth(negative, width, flags), flags)
  }

  // ---- The code ----

  /** buf[len++] = c where there is room. */
  method Append(buf: array<char>, len: nat, c: char) returns (len': nat)
    requires buf.Length == SIZE && len <= SIZE
    modifies buf
    ensures len' <= SIZE && buf[..len'] == Put(old(buf[..len]), c)
  {
    len' := len;
    if len < SIZE {
      buf[len] := c;
      len' := len + 1;
    }
  }

  /** A padding loop: zeros up to a length, within the buffer. */
  method AppendZeros(buf: array<char>, len: nat, limit: nat) returns (len': nat)
    requires buf.Length == SIZE && len <= SIZE
    modifies buf
    ensures len' <= SIZE && buf[..len'] == ZerosTo(old(buf[..len]), limit)
  {
    len' := len;
    ghost var t := buf[..len];
    assert t == t + Repeat('0', 0);
    while len' < limit && len' < SIZE
      invariant len <= len' <= SIZE && (len' > len ==> len' <= limit) && buf[..len'] == t + Repeat('0', len' - len)
    {
      buf[len'] := '0';
      len' := len' + 1;
      assert Repeat('0', len' - 1 - len) + ['0'] == Repeat('0', len' - len);
      assert buf[..len'] == buf[..len' - 1] + ['0'];
    }
  }

  /** print_integer_finalization on the first `length` characters of buf. */
  method Finalize(out: Gadget, buf: array<char>, length: nat, negative: bool, base: nat, precision: nat, w: nat, f: Flags)
    requires out.Valid() && buf.Length == SIZE && length <= SIZE && buf != out.buffer
    modifies out, out.buffer, buf
    ensures out.Valid()
    ensures out.text == old(out.text)
      + Padded(Reversed(Finished(old(buf[..length]), negative, base, precision, w, f)), FillWidth(negative, w, f), f)
  {
    ghost var t := buf[..length];
    var len, width := Fill(buf, length, negative, precision, w, f);
    ghost var filled := buf[..len];
    var flags := f;
    if base == 8 && len > length {
      flags := flags - {Hash};
    }
    len := Prefix(buf, len, length, base, precision, width, flags);
    if negative {
      len := Append(buf, len, '-');
    } else if Plus in flags {
      len := Append(buf, len, '+');
    } else if Space in flags {
      len := Append(buf, len, ' ');
    }
    assert buf[..len] == Finished(t, negative, base, precision, w, f);
    PaddedSame(Reversed(buf[..len]), width, flags, f);
    out.OutRev(buf[..len], width, flags);
  }

  /** Dropping the prefix flag does not change the padding. */
  lemma PaddedSame(core: Text, width: nat, flags: Flags, f: Flags)
    requires flags == f || flags == f - {Hash}
    ensures Padded(core, width, flags) == Padded(core, width, f)
  {
  }

  /** Zeros to the width, then to the precision. */
  method Fill(buf: array<char>, length: nat, negative: bool, precision: nat, w: nat, flags: Flags)
    returns (len: nat, width: nat)
    requires buf.Length == SIZE && length <= SIZE
    modifies buf
    ensures len <= SIZE && buf[..len] == Filled(old(buf[..length]), negative, precision, w, flags)
    ensures width == FillWidth(negative, w, flags)
  {
    len, width := length, w;
    if Left !in flags {
      if width > 0 && ZeroPad in flags && (negative || Plus in flags || Space in flags) {
        width := width - 1;
      }
      if ZeroPad in flags {
        len := AppendZeros(buf, len, width);
      }
    }
    len := AppendZeros(buf, len, precision);
  }

  /** The prefix, in place of zeros where the number fills its width. */
  method Prefix(buf: array<char>, filled: nat, length: nat, base: nat, precision: nat, width: nat, flags: Flags)
    returns (len: nat)
    requires buf.Length == SIZE && length <= filled <= SIZE
    modifies buf
    ensures len <= SIZE && buf[..len] == WithPrefix(old(buf[..filled]), length, base, precision, width, flags)
  {
    len := filled;
    if Hash !in flags && Pointer !in flags {
      return;
    }
    if Precision !in flags && len > 0 && (len == precision || len == width) {
      len := MakeWay(len, length, base);
    }
    assert buf[..len] == old(buf[..filled])[..filled - TakenBack(length, filled, base, precision, width, flags)];
    len := AppendLetter(buf, len, base, flags);
    len := Append(buf, len, '0');
  }

  /** One zero makes way for an octal prefix, two for the others. */
  method MakeWay(filled: nat, length: nat, base: nat) returns (len: nat)
    requires 0 < filled && length <= filled
    ensures len == filled - (if filled == length then 0 else if (base == 16 || base == 2) && filled - length >= 2 then 2 else 1)
  {
    len := filled;
    if length < len {
      len := len - 1;
    }
    if len > 0 && (base == 16 || base == 2) && length < len {
      len := len - 1;
    }
  }

  method AppendLetter(buf: array<char>, len: nat, base: nat, flags: Flags) returns (len': nat)
    requires buf.Length == SIZE && len <= SIZE
    modifies buf
    ensures len' <= SIZE && buf[..len'] == WithLetter(old(buf[..len]), base, flags)
  {
    len' := len;
    if base == 16 && UpperCase !in flags {
      len' := Append(buf, len, 'x');
    } else if base == 16 {
      len' := Append(buf, len, 'X');
    } else if base == 2 {
      len' := Append(buf, len, 'b');
    }
  }

  /** print_integer. */
  method PrintInteger(out: Gadget, v: nat, negative: bool, base: nat, precision: nat, width: nat, f: Flags)
    requires out.Valid() && IsBase(base)
    modifies out, out.buffer
    ensures out.Valid()
    ensures out.text == old(out.text) + Field(v, negative, base, precision, width, f)
  {
    var buf := new char[SIZE];
    var len, value, flags := 0, v, f;
    if value == 0 {
      if Precision !in flags {
        buf[len] := '0';
        len := len + 1;
        flags := flags - {Hash};
      } else if base == 16 {
        flags := flags - {Hash};
      }
    } else {
      len, value := WriteDigits(buf, value, base, UpperCase in flags);
    }
    assert buf[..len] == Started(v, base, f);
    assert flags == StartFlags(v, base, f);
    Finalize(out, buf, len, negative, base, precision, width, flags);
  }

  /** The digits of a value other than 0, lowest first, until the value or the room runs out. */
  method WriteDigits(buf: array<char>, v: nat, base: nat, upper: bool) returns (len: nat, value: nat)
    requires IsBase(base) && v > 0
    modifies buf
    ensures len <= buf.Length && buf[..len] == LowDigits(v, base, upper, buf.Length)
  {
    len, value := 0, v;
    assert buf[..0] + LowDigits(v, base, upper, buf.Length) == LowDigits(v, base, upper, buf.Length);
    while value > 0 && len < buf.Length
      invariant len <= buf.Length
      invariant buf[..len] + LowDigits(value, base, upper, buf.Length - len) == LowDigits(v, base, upper, buf.Length)
      decreases buf.Length - len
    {
      DigitMoved(buf[..len], value, base, upper, buf.Length - len);
      value := WriteDigit(buf, len, value, base, upper);
      len := len + 1;
    }
    assert LowDigits(value, base, upper, buf.Length - len) == "";
    assert buf[..len] + "" == buf[..len];
  }

  /** One digit, and what is left of the value. */
  method WriteDigit(buf: array<char>, len: nat, v: nat, base: nat, upper: bool) returns (value: nat)
    requires IsBase(base) && len < buf.Length
    modifies buf
    ensures buf[..len + 1] == old(buf[..len]) + [DigitChar(v % base, upper)] && value == v / base
  {
    buf[len] := DigitChar(v % base, upper);
    value := v / base;
  }

  lemma DigitMoved(written: Text, v: nat, base: nat, upper: bool, room: nat)
    requires IsBase(base) && v > 0 && room > 0
    ensures written + [DigitChar(v % base, upper)] + LowDigits(v / base, base, upper, room - 1)
         == written + LowDigits(v, base, upper, room)
  {
    LowestDigit(v, base, upper, room);
  }

  lemma LowestDigit(value: nat, base: nat, upper: bool, room: nat)
    requires IsBase(base) && value > 0 && room > 0
    ensures LowDigits(value, base, upper, room) == [DigitChar(value % base, upper)] + LowDigits(value / base, base, upper, room - 1)
  {
  }
}
