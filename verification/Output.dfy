/**
 The output gadget of printf.c: a buffer that keeps the characters that fit, or a function that is handed them one by
 one, and a position that counts them all.
 */
module Output {

  type Text = seq<char>

  const NUL: char := '\0'

  /** Flag bits of a conversion. */
  datatype Modifier =
    | ZeroPad | Left | Plus | Space | Hash | UpperCase
    | Char | Short | Long | LongLong | Precision | Pointer | Signed

  type Flags = set<Modifier>

  function Repeat(c: char, n: nat): (t: Text)
    ensures |t| == n && forall i :: 0 <= i < n ==> t[i] == c
  {
    seq(n, _ => c)
  }

  function Reversed(t: Text): (r: Text)
    ensures |r| == |t|
  {
    if t == [] then [] else Reversed(t[1..]) + [t[0]]
  }

  lemma {:induction false} ReversedConcat(a: Text, b: Text)
    ensures Reversed(a + b) == Reversed(b) + Reversed(a)
  {
    if a == [] {
      assert a + b == b;
    } else {
      ReversedConcat(a[1..], b);
      assert (a + b)[1..] == a[1..] + b;
    }
  }

  lemma {:induction false} ReversedRepeat(c: char, n: nat)
    ensures Reversed(Repeat(c, n)) == Repeat(c, n)
    decreases n
  {
    if n > 0 {
      ReversedRepeat(c, n - 1);
      assert Repeat(c, n)[1..] == Repeat(c, n - 1);
    }
  }

  function Most(a: int, b: int): int { if a < b then b else a }

  function Least(a: int, b: int): int { if a < b then a else b }

  function Missing(width: nat, length: nat): nat { if length < width then width - length else 0 }

  /** A field in its width: blanks behind it, blanks before it, or none where zeros already fill it. */
  function Padded(core: Text, width: nat, flags: Flags): Text {
    if Left in flags then core + Repeat(' ', Missing(width, |core|))
    else if ZeroPad in flags then core
    else Repeat(' ', Missing(width, |core|)) + core
  }

  /** A buffer that held `before` once the text has gone through a gadget of capacity m. */
  function Kept(before: Text, text: Text, m: nat): (r: Text)
    requires m <= |before|
    ensures |r| == |before|
  {
    var n := Least(|text|, m);
    text[..n] + before[n..]
  }

  class Gadget {
    /** Whether there is a function to call; then there is no buffer. */
    const callsFunction: bool
    const buffer: array<char>
    const maxChars: nat
    var pos: nat
    /** The characters the function was called with. */
    var sent: Text
    /** All that has been put out, and what the buffer held before. */
    ghost var text: Text
    ghost const before: Text

    ghost predicate Valid()
      reads this, buffer
    {
      && pos == |text| && buffer.Length == |before|
      && if callsFunction then buffer[..] == before && sent == text[..Least(|text|, maxChars)]
         else maxChars <= |before| && buffer[..] == Kept(before, text, maxChars) && sent == ""
    }

    /** buffer_gadget: a size beyond INT_MAX counts as INT_MAX. */
    constructor (buffer: array<char>, size: nat)
      requires size <= buffer.Length
      ensures Valid() && text == [] && this.buffer == buffer && before == buffer[..] && !callsFunction
      ensures maxChars == Least(size, INT_MAX)
    {
      callsFunction := false;
      this.buffer := buffer;
      maxChars := if size > INT_MAX then INT_MAX else size;
      pos, sent := 0, "";
      text := [];
      before := buffer[..];
    }

    /** function_gadget. */
    constructor ForFunction()
      ensures Valid() && text == [] && callsFunction && maxChars == INT_MAX && fresh(buffer)
    {
      callsFunction := true;
      buffer := new char[0];
      maxChars := INT_MAX;
      pos, sent := 0, "";
      text := [];
      before := [];
    }

    /** putchar_via_gadget. */
    method PutChar(c: char)
      requires Valid()
      modifies this, buffer
      ensures Valid() && text == old(text) + [c]
    {
      var writePos := pos;
      pos := pos + 1;
      text := text + [c];
      if writePos >= maxChars {
        assert text[..maxChars] == old(text)[..maxChars];
        return;
      }
      if callsFunction {
        sent := sent + [c];
        assert text[..pos] == text;
        return;
      }
      buffer[writePos] := c;
      assert text[..pos] == text;
    }

    /** n times the same character. */
    method PutMany(c: char, n: nat)
      requires Valid()
      modifies this, buffer
      ensures Valid() && text == old(text) + Repeat(c, n)
    {
      for i := 0 to n
        invariant Valid() && text == old(text) + Repeat(c, i)
      {
        PutChar(c);
        assert Repeat(c, i) + [c] == Repeat(c, i + 1);
      }
    }

    /** append_termination_with_gadget: the terminator goes behind the text, or on the last place. */
    method AppendTermination()
      requires Valid()
      modifies buffer
      ensures buffer[..] == if callsFunction then before else Terminated(before, text, maxChars)
    {
      if callsFunction || maxChars == 0 {
        return;
      }
      var nullCharPos := if pos < maxChars then pos else maxChars - 1;
      buffer[nullCharPos] := NUL;
      TerminatedAfterKept(before, text, maxChars);
    }

    /** out_rev_: a text held backwards, in its width. */
    method OutRev(buf: Text, width: nat, flags: Flags)
      requires Valid()
      modifies this, buffer
      ensures Valid() && text == old(text) + Padded(Reversed(buf), width, flags)
    {
      var startPos := pos;
      assert text == text + Repeat(' ', 0);
      if Left !in flags && ZeroPad !in flags {
        PutMany(' ', Missing(width, |buf|));
      }
      ghost var lead := text;
      var len := |buf|;
      while len > 0
        invariant 0 <= len <= |buf| && Valid() && text == lead + Reversed(buf[len..])
      {
        len := len - 1;
        PutChar(buf[len]);
        assert buf[len..][1..] == buf[len + 1..];
      }
      assert buf[0..] == buf;
      if Left in flags {
        ghost var body := text;
        ghost var n := 0;
        assert body == body + Repeat(' ', 0);
        while pos - startPos < width
          invariant Valid() && text == body + Repeat(' ', n) && pos == startPos + |buf| + n
          invariant n <= Missing(width, |buf|)
        {
          PutChar(' ');
          assert Repeat(' ', n) + [' '] == Repeat(' ', n + 1);
          n := n + 1;
        }
      }
    }
  }

  const INT_MAX: int := 0x7fff_ffff

  /** The characters that fit before the terminator, the terminator, and the rest of the buffer as it was. */
  function Terminated(before: Text, text: Text, m: nat): (r: Text)
    requires m <= |before|
    ensures |r| == |before|
  {
    if m == 0 then before
    else
      var k := Least(|text|, m - 1);
      text[..k] + [NUL] + before[k + 1..]
  }

  lemma TerminatedAfterKept(before: Text, text: Text, m: nat)
    requires 0 < m <= |before|
    ensures Kept(before, text, m)[Least(|text|, m - 1) := NUL] == Terminated(before, text, m)
  {
  }
}
