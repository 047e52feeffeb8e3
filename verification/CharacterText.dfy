/**
 What characters put on the screen: single bytes in either character set, and code points in UTF-8.
 */
module CharacterText {
  import opened ControlText
  import opened MotionText
  import opened Parsers
  import opened Screens
  import opened Utf8

  // ---- One character ----

  /** Character c at the cursor in the current colours, and the cursor behind it. */
  function Typed(s: Screen, c: Byte): Screen
    requires s.Valid() && s.x < s.cols && s.y < s.rows
  {
    s.(view := s.view[s.y := s.view[s.y][s.x := Cell(c, s.fg, s.bg)]], x := s.x + 1)
  }

  /** The same with a wrap pending: first the next row, where the region moves up if the cursor was on its last row;
      never a row beyond the number of columns. */
  function TypedBelow(s: Screen, c: Byte): Screen
    requires s.Valid()
  {
    var view := if s.y + 1 == s.bottom then RolledUp(s) else s.view;
    var below := if s.y + 1 == s.bottom then s.y else s.y + 1;
    var y := if below >= s.cols then s.cols - 1 else below;
    s.(view := if y < s.rows then view[y := view[y][0 := Cell(c, s.fg, s.bg)]] else view, x := 1, y := y)
  }

  lemma PutIsTyped(s: Screen, c: Byte)
    requires s.Valid() && s.x < s.cols && s.y < s.rows
    ensures RawPut(s, c) == Typed(s, c)
  {
  }

  lemma PutIsTypedBelow(s: Screen, c: Byte)
    requires s.Valid() && s.x >= s.cols && s.scrollEnabled
    ensures RawPut(s, c) == TypedBelow(s, c)
  {
    RollsUp(s);
  }

  /** Bytes that print one character each. */
  predicate Prints(c: Byte) {
    0x1c <= c <= 0x7e || 0x80 <= c < 0xc0 || 0xf8 <= c || 1 <= c <= 6 || (0x10 <= c <= 0x19 && c != 0x18)
  }

  /** What they print: the byte itself if it is ASCII, its line drawing in that character set, otherwise a block. */
  function Drawn(k: Tables, p: Parser, c: Byte): Byte
    requires k.Valid() && p.currentCharset <= 1
  {
    if (if p.currentCharset == 0 then p.g0Special else p.g1Special).On? && k.decSpecial(c) != -1 then k.decSpecial(c)
    else if 0x20 <= c <= 0x7e then c else 0xfe
  }

  lemma PrintPut(k: Tables, t: Term, c: Byte)
    requires k.Valid() && t.Valid() && AtRest(t) && Prints(c)
    ensures PutAll(k, t, [c]) == Print(k, t, c) && Glyph(k, t, c) == Drawn(k, t.p, c)
  {
    OnePut(k, t, c);
    assert t.(p := t.p.(unicodeRemaining := 0)) == t;
  }

  /** The row with a character typed: over the old one, or before it, which drops the last one. */
  function TypedRow(row: Row, x: nat, c: Cell, insert: bool): Row
    requires x < |row|
  {
    if insert then row[..x] + [c] + row[x..|row| - 1] else row[x := c]
  }

  lemma OpenedThenTyped(row: Row, x: nat, c: Cell)
    requires x < |row|
    ensures OpenedAt(row, x)[x := c] == TypedRow(row, x, c, true)
  {
  }

  lemma PrintedAt(k: Tables, t: Term, s: Screen, c: Byte, row: Row)
    requires k.Valid() && t.Valid() && s == t.s && s.x < s.cols && s.y < s.rows
    requires row == TypedRow(s.view[s.y], s.x, Cell(Glyph(k, t, c), s.fg, s.bg), t.p.insertMode.On?)
    ensures Print(k, t, c) == t.(s := s.(view := s.view[s.y := row], x := s.x + 1))
  {
    if t.p.insertMode.On? {
      var gap := s.(view := s.view[s.y := OpenedAt(s.view[s.y], s.x)]);
      OpenedThenTyped(s.view[s.y], s.x, Cell(Glyph(k, t, c), s.fg, s.bg));
      PutIsTyped(gap, Glyph(k, t, c));
    } else {
      PutIsTyped(s, Glyph(k, t, c));
    }
  }

  /** A character where no wrap is pending: in its cell, the others of the row in their places or moved to the right. */
  lemma CharacterWritten(k: Tables, t: Term, c: Byte)
    requires k.Valid() && t.Valid() && AtRest(t) && Prints(c) && t.s.x < t.s.cols && t.s.y < t.s.rows
    ensures var s := t.s;
      PutAll(k, t, [c]) == t.(s := s.(x := s.x + 1,
        view := s.view[s.y := TypedRow(s.view[s.y], s.x, Cell(Drawn(k, t.p, c), s.fg, s.bg), t.p.insertMode.On?)]))
  {
    PrintPut(k, t, c);
    PrintedAt(k, t, t.s, c, TypedRow(t.s.view[t.s.y], t.s.x, Cell(Drawn(k, t.p, c), t.s.fg, t.s.bg), t.p.insertMode.On?));
  }

  lemma NothingOpened(s: Screen, y: nat)
    requires s.Valid() && y < s.rows
    ensures s.(view := s.view[y := OpenedAt(s.view[y], s.cols - 1)]) == s
  {
    assert OpenedAt(s.view[y], s.cols - 1) == s.view[y];
    assert s.view[y := s.view[y]] == s.view;
  }

  lemma PrintedBelow(k: Tables, t: Term, c: Byte, g: Byte)
    requires k.Valid() && t.Valid() && t.s.x >= t.s.cols && g == Glyph(k, t, c)
    ensures Print(k, t, c) == t.(s := RawPut(t.s, g))
  {
    NothingOpened(t.s, t.s.CursorY());
  }

  /** A character where one is: at the beginning of the next row, insert mode or not. */
  lemma WrapWritten(k: Tables, t: Term, c: Byte)
    requires k.Valid() && t.Valid() && AtRest(t) && Prints(c) && t.s.x >= t.s.cols
    ensures PutAll(k, t, [c]) == t.(s := TypedBelow(t.s, Drawn(k, t.p, c)))
  {
    hide TypedBelow, Print;
    PrintPut(k, t, c);
    PrintedBelow(k, t, c, Drawn(k, t.p, c));
    PutIsTypedBelow(t.s, Drawn(k, t.p, c));
  }

  // ---- Character sets ----

  lemma SelectorPut(k: Tables, t: Term, open: Byte)
    requires k.Valid() && t.Valid() && AtRest(t) && (open == 0x28 || open == 0x29)
    ensures PutAll(k, t, [ESC, open]) == t.(p := t.p.(escapeOffset := 1, gSelect := open - 0x27))
  {
    EscapePut(k, t, open);
  }

  function Designated(c: Byte, before: Flag): Flag {
    if c as char == '0' then On else if c as char == 'B' then Off else before
  }

  /** ESC ( 0 makes G0 the line drawing set, ESC ( B the default one; ESC ) the same for G1; any other byte leaves it. */
  lemma CharsetWritten(k: Tables, t: Term, open: Byte, c: Byte)
    requires k.Valid() && t.Valid() && AtRest(t) && (open == 0x28 || open == 0x29) && 0x20 <= c < 0x7f
    ensures PutAll(k, t, [ESC, open, c]) == t.(p := t.p.(escapeOffset := 1,
      g0Special := if open == 0x28 then Designated(c, t.p.g0Special) else t.p.g0Special,
      g1Special := if open == 0x29 then Designated(c, t.p.g1Special) else t.p.g1Special))
  {
    var u := t.(p := t.p.(escapeOffset := 1, gSelect := open - 0x27));
    SelectorPut(k, t, open);
    PutAllAppend(k, t, [ESC, open], [c]);
    OnePut(k, u, c);
    assert [ESC, open] + [c] == [ESC, open, c];
    assert u.(p := u.p.(unicodeRemaining := 0)) == u;
  }

  /** SO and SI choose between G1 and G0. */
  lemma ShiftWritten(k: Tables, t: Term)
    requires k.Valid() && t.Valid() && AtRest(t)
    ensures PutAll(k, t, [0x0e]) == t.(p := t.p.(currentCharset := 1))
    ensures PutAll(k, t, [0x0f]) == t.(p := t.p.(currentCharset := 0))
  {
    OnePut(k, t, 0x0e);
    OnePut(k, t, 0x0f);
    assert t.(p := t.p.(unicodeRemaining := 0)) == t;
  }

  // ---- UTF-8 ----

  /** What a code point puts on the screen where no wrap is pending: its glyph; without one a block as wide as it is. */
  function CodePointTyped(k: Tables, s: Screen, p: nat): Screen
    requires k.Valid() && s.Valid() && s.scrollEnabled && s.x < s.cols && s.y < s.rows
  {
    if k.cp437(p) != -1 then Typed(s, k.cp437(p))
    else if k.width(p) == 0 then s
    else if k.width(p) == 1 then Typed(s, 0xfe)
    else if s.x + 1 < s.cols then Typed(Typed(s, 0xfe), 0x20)
    else TypedBelow(Typed(s, 0xfe), 0x20)
  }

  lemma PrintsCodePoint(k: Tables, u: Term, p: nat)
    requires k.Valid() && u.Valid() && u.s.x < u.s.cols && u.s.y < u.s.rows
    ensures PrintCodePoint(k, u, p) == u.(s := CodePointTyped(k, u.s, p))
  {
    if k.cp437(p) != -1 {
      PutIsTyped(u.s, k.cp437(p));
    } else {
      WideTyped(u.s);
      assert RawPutMany(RawPut(u.s, REPLACEMENT), SPACE, 0) == RawPut(u.s, REPLACEMENT);
    }
  }

  lemma WideTyped(s: Screen)
    requires s.Valid() && s.scrollEnabled && s.x < s.cols && s.y < s.rows
    ensures RawPut(s, REPLACEMENT) == Typed(s, 0xfe)
    ensures RawPutMany(RawPut(s, REPLACEMENT), SPACE, 1)
         == if s.x + 1 < s.cols then Typed(Typed(s, 0xfe), 0x20) else TypedBelow(Typed(s, 0xfe), 0x20)
  {
    var r := RawPut(s, REPLACEMENT);
    PutIsTyped(s, REPLACEMENT);
    assert RawPutMany(r, SPACE, 1) == RawPut(RawPutMany(r, SPACE, 0), SPACE) == RawPut(r, SPACE);
    if s.x + 1 < s.cols {
      PutIsTyped(r, SPACE);
    } else {
      PutIsTypedBelow(r, SPACE);
    }
  }

  /** The bytes of a code point outside ASCII, on an idle decoder in any mode of the parser: its glyph appears at the
      cursor, and nothing changes besides but the two fields of the decoder. */
  lemma EncodedPrinted(k: Tables, t: Term, p: nat)
    requires k.Valid() && t.Valid() && Idle(t) && 0x80 <= p <= 0x10ffff && t.s.x < t.s.cols && t.s.y < t.s.rows
    ensures PutAll(k, t, Encode(p))
         == t.(s := CodePointTyped(k, t.s, p), p := t.p.(unicodeRemaining := 0, codePoint := p))
  {
    DecodesEncoded(k, t, p);
    PrintsCodePoint(k, Decoding(t, 0, p), p);
  }

  /** Some encodings, byte by byte. */
  lemma EncodingExamples()
    ensures Encode(0xe9) == [0xc3, 0xa9] && Encode(0x2588) == [0xe2, 0x96, 0x88] && Encode(0x1f600) == [0xf0, 0x9f, 0x98, 0x80]
  {
  }

  // ---- Operating system commands ----

  /** Inside an operating system command, n bytes after its ESC. */
  function InCommand(t: Term, n: nat): Term {
    t.(p := t.p.(escape := On, osc := On, oscEscape := Off, escapeOffset := n))
  }

  lemma CommandPut(k: Tables, t: Term, n: nat, c: Byte)
    requires k.Valid() && t.Valid() && AtRest(t) && n + 1 < 0x1_0000_0000_0000_0000
    requires 0x20 <= c < 0xc0 || c == 7
    ensures InCommand(t, n).Valid()
    ensures Put(k, InCommand(t, n), c)
         == if c == 7 then t.(p := t.p.(oscEscape := Off, escapeOffset := n + 1)) else InCommand(t, n + 1)
  {
    var u := InCommand(t, n);
    assert u.(p := u.p.(unicodeRemaining := 0)) == u;
  }

  lemma {:induction false} CommandRead(k: Tables, t: Term, text: seq<Byte>)
    requires k.Valid() && t.Valid() && AtRest(t) && |text| < 0xffff_ffff_ffff_fff0
    requires forall i :: 0 <= i < |text| ==> 0x20 <= text[i] < 0xc0
    ensures InCommand(t, 1).Valid() && PutAll(k, InCommand(t, 1), text) == InCommand(t, 1 + |text|)
    decreases |text|
  {
    if text != [] {
      var n := |text| - 1;
      CommandRead(k, t, text[..n]);
      PutAllAppend(k, InCommand(t, 1), text[..n], [text[n]]);
      OnePut(k, InCommand(t, 1 + n), text[n]);
      CommandPut(k, t, 1 + n, text[n]);
      assert text[..n] + [text[n]] == text;
    }
  }

  /** ESC ] text BEL does nothing, if no byte of the text begins a character outside ASCII. */
  lemma CommandSwallowed(k: Tables, t: Term, text: seq<Byte>)
    requires k.Valid() && t.Valid() && AtRest(t) && |text| < 0xffff_ffff_ffff_fff0
    requires forall i :: 0 <= i < |text| ==> 0x20 <= text[i] < 0xc0
    ensures PutAll(k, t, [ESC, 0x5d] + text + [7]) == t.(p := t.p.(oscEscape := Off, escapeOffset := 2 + |text|))
  {
    CommandOpened(k, t);
    CommandRead(k, t, text);
    PutAllAppend(k, t, [ESC, 0x5d], text);
    PutAllAppend(k, t, [ESC, 0x5d] + text, [7]);
    OnePut(k, InCommand(t, 1 + |text|), 7);
    CommandPut(k, t, 1 + |text|, 7);
  }

  lemma CommandOpened(k: Tables, t: Term)
    requires k.Valid() && t.Valid() && AtRest(t)
    ensures PutAll(k, t, [ESC, 0x5d]) == InCommand(t, 1)
  {
    var u := t.(p := t.p.(escapeOffset := 0, escape := On));
    PutEscape(k, t);
    TwoPut(k, t, ESC, 0x5d);
    assert u.(p := u.p.(unicodeRemaining := 0)) == u;
  }

  lemma CommandEscape(k: Tables, t: Term, n: nat)
    requires k.Valid() && t.Valid() && AtRest(t) && n + 2 < 0x1_0000_0000_0000_0000
    ensures InCommand(t, n).Valid() && InCommand(t, n + 1).(p := InCommand(t, n + 1).p.(oscEscape := On)).Valid()
    ensures Put(k, InCommand(t, n), ESC) == InCommand(t, n + 1).(p := InCommand(t, n + 1).p.(oscEscape := On))
    ensures Put(k, InCommand(t, n + 1).(p := InCommand(t, n + 1).p.(oscEscape := On)), 0x5c)
         == t.(p := t.p.(oscEscape := Off, escapeOffset := n + 2))
  {
    var u := InCommand(t, n);
    var w := InCommand(t, n + 1).(p := InCommand(t, n + 1).p.(oscEscape := On));
    assert u.(p := u.p.(unicodeRemaining := 0)) == u && w.(p := w.p.(unicodeRemaining := 0)) == w;
  }

  /** ESC \ ends it as well. */
  lemma CommandTerminated(k: Tables, t: Term, text: seq<Byte>)
    requires k.Valid() && t.Valid() && AtRest(t) && |text| < 0xffff_ffff_ffff_fff0
    requires forall i :: 0 <= i < |text| ==> 0x20 <= text[i] < 0xc0
    ensures PutAll(k, t, [ESC, 0x5d] + text + [ESC, 0x5c]) == t.(p := t.p.(oscEscape := Off, escapeOffset := 3 + |text|))
  {
    CommandOpened(k, t);
    CommandRead(k, t, text);
    PutAllAppend(k, t, [ESC, 0x5d], text);
    PutAllAppend(k, t, [ESC, 0x5d] + text, [ESC, 0x5c]);
    TwoPut(k, InCommand(t, 1 + |text|), ESC, 0x5c);
    CommandEscape(k, t, 1 + |text|);
  }

  /** A character outside ASCII is printed in the middle of it. */
  lemma CommandPrints(k: Tables, t: Term, p: nat)
    requires k.Valid() && t.Valid() && AtRest(t) && 0x80 <= p <= 0x10ffff && t.s.x < t.s.cols && t.s.y < t.s.rows
    ensures PutAll(k, t, [ESC, 0x5d] + Encode(p)).s == CodePointTyped(k, t.s, p)
  {
    CommandOpened(k, t);
    CommandRead(k, t, []);
    PutAllAppend(k, t, [ESC, 0x5d], Encode(p));
    EncodedPrinted(k, InCommand(t, 1), p);
  }
}
