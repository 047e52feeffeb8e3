/**
 The terminal (flanterm/flanterm.c): parser fields updated byte by byte, over a framebuffer backend.

 Every method is proved to do what its function in module `Parsers` says.  `Write` adds the flush, and
 so turns the step function into a statement about the picture on the framebuffer.
 */
module Terminals {
  import opened Arithmetic
  import opened Bits
  import opened Screens
  import opened Pictures
  import opened Parsers
  import opened Backends
  import CsiEdits

  class Terminal {
    const fb: Backend
    const k: Tables

    /** esc_values */
    const escValues: array<int>
    /** The other parser fields of the context; the screen's are in the backend. */
    var p: Parser

    ghost function Abs(): Term
      reads this, escValues, fb
    {
      Term(fb.Abs(), escValues[..], p)
    }

    /** The parser and the cache are in order. */
    ghost predicate Ready()
      reads this, escValues, fb, fb.grid, fb.queue, fb.slot
    {
      k.Valid() && escValues != fb.slot && fb.Consistent() && Abs().Valid()
    }

    /** And the framebuffer shows what was last drawn. */
    ghost predicate Valid()
      reads this, escValues, fb, fb.grid, fb.queue, fb.slot, fb.framebuffer
    {
      Ready() && fb.PictureKept()
    }

    /** The rest of flanterm_fb_init: a parser at rest over a freshly drawn backend. */
    constructor (fb: Backend, k: Tables)
      requires k.Valid() && fb.Valid() && fb.rows < TWO_32 && fb.cols < TWO_32
      requires fb.Abs().Valid() && fb.scrollEnabled
      ensures this.fb == fb && this.k == k && fresh(escValues)
      ensures Abs() == InitialTerm(fb.Abs())
      ensures Valid()
    {
      this.fb, this.k := fb, k;
      escValues := new int[MAX_ESC_VALUES](_ => 0);
      p := InitialParser();
      new;
      assert escValues[..] == seq(MAX_ESC_VALUES, _ => 0);
    }

    /** A control sequence's final byte. */
    method RunSequence(c: Byte)
      requires Ready()
      modifies this`p, fb`queueI, fb`view, fb.queue, fb.slot, fb`cursorX, fb`cursorY, fb`textFg, fb`textBg,
        fb`scrollTop, fb`scrollBottom, fb`scrollEnabled
      ensures Abs() == Csi(k, old(Abs()), c)
      ensures Ready()
    {
      if c as char == 'm' {
        SgrSequence();
        return;
      }
      if c as char == 's' || c as char == 'u' {
        SavedCursor(c);
        return;
      }
      if c as char == 'h' || c as char == 'l' {
        ToggleMode(c);
        return;
      }
      ScreenSequence(c);
    }

    /** CSI s and CSI u. */
    method SavedCursor(c: Byte)
      requires Ready() && (c as char == 's' || c as char == 'u')
      modifies this`p, fb`cursorX, fb`cursorY
      ensures Abs() == Csi(k, old(Abs()), c)
      ensures Ready()
    {
      if c as char == 's' {
        var x, y := fb.GetCursorPos();
        p := p.(savedCursorX := x, savedCursorY := y);
        return;
      }
      fb.SetCursorPos(p.savedCursorX, p.savedCursorY);
    }

    /** A sequence that edits the screen runs with scrolling suppressed.  The source suppresses it around the
        other sequences too, where it has no effect. */
    method ScreenSequence(c: Byte)
      requires Ready()
      modifies fb`queueI, fb`view, fb.queue, fb.slot, fb`cursorX, fb`cursorY, fb`scrollTop, fb`scrollBottom, fb`scrollEnabled
      ensures Ready()
      ensures Abs() == old(Abs()).(s :=
        CsiScreen(old(Abs()).s.(scrollEnabled := false), c, escValues[..], p.escValuesI).(scrollEnabled := true))
    {
      var r := fb.scrollEnabled;
      fb.scrollEnabled := false;
      var x, y := fb.GetCursorPos();
      CsiEdits.Dispatch(fb, c, escValues[..], p.escValuesI, x, y);
      fb.scrollEnabled := r;
    }

    /** CSI h and CSI l. */
    method ToggleMode(c: Byte)
      requires Ready() && (c as char == 'h' || c as char == 'l')
      modifies this`p
      ensures Abs() == Csi(k, old(Abs()), c)
      ensures Ready()
    {
      if p.escValuesI == 0 {
        return;
      }
      var on := c as char == 'h';
      if escValues[0] == 4 {
        p := p.(insertMode := FlagOf(on));
      }
    }

    /** CSI m. */
    method SgrSequence()
      requires Ready()
      modifies this`p, fb`textFg, fb`textBg
      ensures Abs() == Csi(k, old(Abs()), 0x6d)
      ensures Ready()
    {
      ApplySgr();
    }

    /** Select graphic rendition, value by value. */
    method ApplySgr()
      requires k.Valid() && p.a.Valid() && CsiValues(escValues[..]) && p.escValuesI <= MAX_ESC_VALUES
      modifies this`p, fb`textFg, fb`textBg
      ensures Pen(p.a, fb.textFg, fb.textBg) == Sgr(k, old(Pen(p.a, fb.textFg, fb.textBg)), escValues[..], old(p.escValuesI))
      ensures p == old(p).(a := p.a)
    {
      var q := Pen(p.a, fb.textFg, fb.textBg);
      ghost var v, q0 := escValues[..], q;
      if p.escValuesI == 0 {
        q := SgrOne(k, q, 0);
      }
      var i := 0;
      while i < p.escValuesI
        invariant q.a.Valid()
        invariant Sgr(k, q0, v, p.escValuesI) == SgrFrom(k, q, v, p.escValuesI, i)
        decreases p.escValuesI - i
      {
        if escValues[i] == 38 || escValues[i] == 48 {
          var foreground := escValues[i] == 38;
          i := i + 1;
          if i >= p.escValuesI {
            break;
          }
          if escValues[i] == 2 {
            if i + 3 >= p.escValuesI {
              break;
            }
            var colour := k.rgb(escValues[i + 1], escValues[i + 2], escValues[i + 3]);
            q := if foreground then q.(fg := colour) else q.(bg := colour);
            i := i + 3;
          } else if escValues[i] == 5 {
            if i + 1 >= p.escValuesI {
              break;
            }
            q := Extended(k, q, foreground, escValues[i + 1]);
            i := i + 1;
          }
        } else {
          q := SgrOne(k, q, escValues[i]);
        }
        i := i + 1;
      }
      p := p.(a := q.a);
      fb.textFg, fb.textBg := q.fg, q.bg;
    }

    /** CSI ? ... */
    method DecPrivateParse(c: Byte)
      requires Ready()
      modifies this`p, fb`cursorEnabled
      ensures Abs() == DecPrivate(old(Abs()), c)
      ensures Ready()
    {
      p := p.(decPrivate := Off);
      if p.escValuesI == 0 || (c as char != 'h' && c as char != 'l') {
        return;
      }
      if escValues[0] == 25 {
        fb.cursorEnabled := c as char == 'h';
        return;
      }
    }

    /** One byte inside a control sequence. */
    method ControlSequenceParse(c: Byte)
      requires Ready()
      modifies this`p, escValues, fb`queueI, fb`view, fb.queue, fb.slot, fb`cursorX, fb`cursorY, fb`textFg, fb`textBg,
        fb`savedFg, fb`savedBg, fb`savedX, fb`savedY, fb`scrollTop, fb`scrollBottom, fb`scrollEnabled, fb`cursorEnabled
      ensures Abs() == ControlSequence(k, old(Abs()), c)
      ensures Ready()
    {
      if p.escapeOffset == 2 && c as char == '[' {
        p := p.(discardNext := On, controlSequence := Off, escape := Off);
        return;
      }
      if p.escapeOffset == 2 && c as char == '?' {
        p := p.(decPrivate := On);
        return;
      }
      if '0' <= c as char <= '9' {
        if p.escValuesI == MAX_ESC_VALUES {
          return;
        }
        p := p.(rrr := On);
        escValues[p.escValuesI] := (escValues[p.escValuesI] * 10 + (c - 0x30)) % TWO_32;
        return;
      }
      if c as char == ';' {
        NextValue();
        return;
      }
      FinishSequence(c);
    }

    /** A semicolon. */
    method NextValue()
      requires Ready()
      modifies this`p, escValues
      ensures Abs() == ControlSequence(k, old(Abs()), 0x3b)
      ensures Ready()
    {
      if p.rrr.On? {
        p := p.(escValuesI := p.escValuesI + 1, rrr := Off);
        return;
      }
      if p.escValuesI == MAX_ESC_VALUES {
        return;
      }
      escValues[p.escValuesI] := 0;
      p := p.(escValuesI := p.escValuesI + 1);
    }

    /** A final byte. */
    method FinishSequence(c: Byte)
      requires Ready()
      modifies this`p, escValues, fb`queueI, fb`view, fb.queue, fb.slot, fb`cursorX, fb`cursorY, fb`textFg, fb`textBg,
        fb`savedFg, fb`savedBg, fb`savedX, fb`savedY, fb`scrollTop, fb`scrollBottom, fb`scrollEnabled, fb`cursorEnabled
      ensures Abs() == FinalByte(k, old(Abs()), c)
      ensures Ready()
    {
      CloseValue();
      FillDefaults(match c as char case 'J' | 'K' | 'q' => 0 case _ => 1);
      if p.decPrivate.On? {
        DecPrivateParse(c);
        p := p.(controlSequence := Off, escape := Off);
        return;
      }
      RunSequence(c);
      p := p.(controlSequence := Off, escape := Off);
    }

    /** The value being read is complete. */
    method CloseValue()
      requires Ready()
      modifies this`p
      ensures Abs() == ValueClosed(old(Abs()))
      ensures Ready()
    {
      if p.rrr.On? {
        p := p.(escValuesI := p.escValuesI + 1, rrr := Off);
      }
    }

    method FillDefaults(escDefault: int)
      requires Ready() && 0 <= escDefault <= 1
      modifies escValues
      ensures Abs() == old(Abs()).(v := Defaulted(old(escValues[..]), p.escValuesI, escDefault))
      ensures Ready()
    {
      for i := p.escValuesI to MAX_ESC_VALUES
        invariant forall j :: 0 <= j < MAX_ESC_VALUES ==>
          escValues[j] == if p.escValuesI <= j < i then escDefault else old(escValues[j])
      {
        escValues[i] := escDefault;
      }
      assert escValues[..] == Defaulted(old(escValues[..]), p.escValuesI, escDefault);
    }

    method OscByte(c: Byte)
      requires Ready()
      modifies this`p
      ensures Abs() == OscParse(old(Abs()), c)
      ensures Ready()
    {
      if (p.oscEscape.On? && c as char == '\\') || c == 0x07 {
        p := p.(oscEscape := Off, osc := Off, escape := Off);
        return;
      }
      p := p.(oscEscape := FlagOf(c == 0x1b));
    }

    method ContextReinit()
      requires Ready()
      modifies this`p, fb`cursorEnabled, fb`scrollEnabled, fb`scrollTop, fb`scrollBottom
      ensures Abs() == Reinit(old(Abs()))
      ensures Ready()
    {
      p := p.(autoflush := On, onlcr := On, controlSequence := Off, escape := Off, osc := Off, oscEscape := Off,
              rrr := Off, discardNext := Off, decPrivate := Off, insertMode := Off,
              a := Attributes(false, false, false, NO_COLOUR, NO_COLOUR),
              unicodeRemaining := 0, gSelect := 0, g0Special := Off, g1Special := On, currentCharset := 0,
              escapeOffset := 0, escValuesI := 0, savedCursorX := 0, savedCursorY := 0);
      fb.cursorEnabled, fb.scrollEnabled, fb.scrollTop, fb.scrollBottom := true, true, 0, fb.rows;
    }

    method Save()
      requires Ready()
      modifies this`p, fb`savedFg, fb`savedBg, fb`savedX, fb`savedY
      ensures Abs() == Parsers.SaveState(old(Abs()))
      ensures Ready()
    {
      fb.SaveState();
      p := p.(savedA := p.a, savedCharset := p.currentCharset);
    }

    method Restore()
      requires Ready()
      modifies this`p, fb`textFg, fb`textBg, fb`cursorX, fb`cursorY
      ensures Abs() == Parsers.RestoreState(old(Abs()))
      ensures Ready()
    {
      p := p.(a := p.savedA, currentCharset := p.savedCharset);
      fb.RestoreState();
    }

    /** Line feed to column `toX`. */
    method Feed(toX: nat)
      requires Ready() && toX < TWO_64
      modifies fb`queueI, fb`view, fb.queue, fb.slot, fb`cursorX, fb`cursorY
      ensures Abs() == old(Abs()).(s := LineFeed(old(Abs()).s, toX))
      ensures Ready()
    {
      var _, y := fb.GetCursorPos();
      if y == fb.scrollBottom - 1 {
        fb.Scroll();
        fb.SetCursorPos(toX, y);
        return;
      }
      fb.SetCursorPos(toX, y + 1);
    }

    method ReverseFeed()
      requires Ready()
      modifies fb`queueI, fb`view, fb.queue, fb.slot, fb`cursorX, fb`cursorY
      ensures Abs() == old(Abs()).(s := ReverseLineFeed(old(Abs()).s))
      ensures Ready()
    {
      var _, y := fb.GetCursorPos();
      if y == fb.scrollTop {
        fb.RevScroll();
        fb.SetCursorPos(0, y);
        return;
      }
      fb.SetCursorPos(0, Wrap64(y as int - 1));
    }

    /** One byte after ESC. */
    method EscapeByte(c: Byte)
      requires Ready()
      modifies this`p, escValues, fb`queueI, fb`view, fb.queue, fb.slot, fb`cursorX, fb`cursorY, fb`textFg, fb`textBg,
        fb`savedFg, fb`savedBg, fb`savedX, fb`savedY, fb`scrollTop, fb`scrollBottom, fb`scrollEnabled, fb`cursorEnabled
      ensures Abs() == EscapeParse(k, old(Abs()), c)
      ensures Ready()
    {
      Count();
      CountedByte(c);
    }

    method Count()
      requires Ready()
      modifies this`p
      ensures Abs() == Counted(old(Abs()))
      ensures Ready()
    {
      p := p.(escapeOffset := Wrap64(p.escapeOffset + 1));
    }

    method CountedByte(c: Byte)
      requires Ready()
      modifies this`p, escValues, fb`queueI, fb`view, fb.queue, fb.slot, fb`cursorX, fb`cursorY, fb`textFg, fb`textBg,
        fb`savedFg, fb`savedBg, fb`savedX, fb`savedY, fb`scrollTop, fb`scrollBottom, fb`scrollEnabled, fb`cursorEnabled
      ensures Abs() == EscapeCounted(k, old(Abs()), c)
      ensures Ready()
    {
      if p.osc.On? {
        OscByte(c);
        return;
      }
      if p.controlSequence.On? {
        ControlSequenceParse(c);
        return;
      }
      if c as char == ']' {
        p := p.(oscEscape := Off, osc := On);
        return;
      }
      if c as char == '[' {
        StartSequence();
        return;
      }
      EscapeFinalByte(c);
      p := p.(escape := Off);
    }

    method StartSequence()
      requires Ready()
      modifies this`p, escValues
      ensures Abs() == old(Abs()).(v := seq(MAX_ESC_VALUES, _ => 0),
        p := old(p).(escValuesI := 0, rrr := Off, controlSequence := On))
      ensures Ready()
    {
      for i := 0 to MAX_ESC_VALUES
        invariant p == old(p) && forall j :: 0 <= j < i ==> escValues[j] == 0
      {
        escValues[i] := 0;
      }
      assert escValues[..] == seq(MAX_ESC_VALUES, _ => 0);
      p := p.(escValuesI := 0, rrr := Off, controlSequence := On);
      assert Abs().v == seq(MAX_ESC_VALUES, _ => 0);
    }

    method EscapeFinalByte(c: Byte)
      requires Ready()
      modifies this`p, fb`queueI, fb`view, fb.queue, fb.slot, fb`cursorX, fb`cursorY, fb`textFg, fb`textBg,
        fb`savedFg, fb`savedBg, fb`savedX, fb`savedY, fb`scrollTop, fb`scrollBottom, fb`scrollEnabled, fb`cursorEnabled
      ensures Abs() == EscapeFinal(old(Abs()), c)
      ensures Ready()
    {
      match c as char {
        case '7' => Save(); return;
        case '8' => Restore(); return;
        case 'c' =>
          ContextReinit();
          fb.Clear(true);
          return;
        case 'D' =>
          var x, _ := fb.GetCursorPos();
          Feed(x);
          return;
        case 'E' => Feed(0); return;
        case 'M' => ReverseFeed(); return;
        case '(' | ')' => p := p.(gSelect := c - 0x27); return;
        case _ => return;
      }
    }

    /** A control character. */
    method Control(c: Byte)
      requires Ready() && IsControl(c)
      modifies this`p, fb`queueI, fb`view, fb.queue, fb.slot, fb`cursorX, fb`cursorY
      ensures Abs() == ControlChar(old(Abs()), c)
      ensures Ready()
    {
      var x, y := fb.GetCursorPos();
      match c {
        case 0x1b => p := p.(escapeOffset := 0, escape := On); return;
        case 0x09 =>
          if x / TAB_SIZE + 1 >= fb.cols {
            fb.SetCursorPos(fb.cols - 1, y);
            return;
          }
          fb.SetCursorPos((x / TAB_SIZE + 1) * TAB_SIZE, y);
          return;
        case 0x0a | 0x0b | 0x0c => Feed(if p.onlcr.On? then 0 else x); return;
        case 0x08 => fb.SetCursorPos(Wrap64(x as int - 1), y); return;
        case 0x0d => fb.SetCursorPos(0, y); return;
        case 14 => p := p.(currentCharset := 1); return;
        case 15 => p := p.(currentCharset := 0); return;
        case _ => return;
      }
    }

    /** A printable byte. */
    method PrintByte(c: Byte)
      requires Ready()
      modifies fb`queueI, fb`view, fb.queue, fb.slot, fb`cursorX, fb`cursorY
      ensures Abs() == Print(k, old(Abs()), c)
      ensures Ready()
    {
      var x, y := fb.GetCursorPos();
      var special := if p.currentCharset == 0 then p.g0Special.On? else p.g1Special.On?;
      var glyph := if special && k.decSpecial(c) != -1 then k.decSpecial(c)
                   else if 0x20 <= c <= 0x7e then c else REPLACEMENT;
      if p.insertMode.On? {
        CsiEdits.OpenGap(fb, x, y);
        fb.RawPutchar(glyph);
        return;
      }
      fb.RawPutchar(glyph);
    }

    /** A decoded code point. */
    method PrintUnicode()
      requires Ready()
      modifies fb`queueI, fb`view, fb.queue, fb.slot, fb`cursorX, fb`cursorY
      ensures Abs() == PrintCodePoint(k, old(Abs()), p.codePoint)
      ensures Ready()
    {
      var cc := k.cp437(p.codePoint);
      if cc == -1 {
        var replacementWidth := k.width(p.codePoint);
        if replacementWidth == 0 {
          return;
        }
        fb.RawPutchar(REPLACEMENT);
        CsiEdits.PutMany(fb, SPACE, replacementWidth - 1);
        return;
      }
      fb.RawPutchar(cc);
    }

    /** flanterm_putchar. */
    method Putchar(c: Byte)
      requires Ready()
      modifies this`p, escValues, fb`queueI, fb`view, fb.queue, fb.slot, fb`cursorX, fb`cursorY, fb`textFg, fb`textBg,
        fb`savedFg, fb`savedBg, fb`savedX, fb`savedY, fb`scrollTop, fb`scrollBottom, fb`scrollEnabled, fb`cursorEnabled
      ensures Abs() == Put(k, old(Abs()), c)
      ensures Ready()
    {
      if p.discardNext.On? || c == 0x18 || c == 0x1a {
        p := p.(discardNext := Off, escape := Off, controlSequence := Off, unicodeRemaining := 0,
                osc := Off, oscEscape := Off, gSelect := 0);
        return;
      }
      if p.unicodeRemaining != 0 {
        if IsContinuation(c) {
          Continue(c);
          return;
        }
      }
      p := p.(unicodeRemaining := 0);
      Fresh(c);
    }

    /** A byte that does not continue a UTF-8 sequence. */
    method Fresh(c: Byte)
      requires Ready()
      modifies this`p, escValues, fb`queueI, fb`view, fb.queue, fb.slot, fb`cursorX, fb`cursorY, fb`textFg, fb`textBg,
        fb`savedFg, fb`savedBg, fb`savedX, fb`savedY, fb`scrollTop, fb`scrollBottom, fb`scrollEnabled, fb`cursorEnabled
      ensures Abs() == FreshByte(k, old(Abs()), c)
      ensures Ready()
    {
      if 0xc0 <= c <= 0xf7 {
        Lead(c);
        return;
      }
      if p.escape.On? {
        EscapeByte(c);
        return;
      }
      if p.gSelect > 0 {
        Charset(c);
        return;
      }
      if IsControl(c) {
        Control(c);
        return;
      }
      PrintByte(c);
    }

    method Continue(c: Byte)
      requires Ready() && p.unicodeRemaining > 0
      modifies this`p, fb`queueI, fb`view, fb.queue, fb.slot, fb`cursorX, fb`cursorY
      ensures Abs() == ContinuationByte(k, old(Abs()), c)
      ensures Ready()
    {
      p := p.(unicodeRemaining := p.unicodeRemaining - 1);
      p := p.(codePoint := BitOr(p.codePoint, (c % 0x40) * Pow2(6 * p.unicodeRemaining)));
      if p.unicodeRemaining != 0 {
        return;
      }
      PrintUnicode();
    }

    method Lead(c: Byte)
      requires Ready() && 0xc0 <= c <= 0xf7
      modifies this`p
      ensures Abs() == LeadByte(old(Abs()), c)
      ensures Ready()
    {
      if c <= 0xdf {
        p := p.(unicodeRemaining := 1, codePoint := (c % 0x20) * 0x40);
      } else if c <= 0xef {
        p := p.(unicodeRemaining := 2, codePoint := (c % 0x10) * 0x1000);
      } else {
        p := p.(unicodeRemaining := 3, codePoint := (c % 0x08) * 0x40000);
      }
    }

    method Charset(c: Byte)
      requires Ready() && p.gSelect > 0
      modifies this`p
      ensures Abs() == SelectCharset(old(Abs()), c)
      ensures Ready()
    {
      p := p.(gSelect := p.gSelect - 1);
      var slot := p.gSelect;
      p := p.(gSelect := 0);
      if c as char != 'B' && c as char != '0' {
        return;
      }
      if slot == 0 {
        p := p.(g0Special := FlagOf(c as char == '0'));
        return;
      }
      p := p.(g1Special := FlagOf(c as char == '0'));
    }

    /** The loop of flanterm_write, which draws nothing. */
    method PutBytes(buf: seq<Byte>)
      requires Ready()
      modifies this`p, escValues, fb`queueI, fb`view, fb.queue, fb.slot, fb`cursorX, fb`cursorY, fb`textFg, fb`textBg,
        fb`savedFg, fb`savedBg, fb`savedX, fb`savedY, fb`scrollTop, fb`scrollBottom, fb`scrollEnabled, fb`cursorEnabled
      ensures Abs() == PutAll(k, old(Abs()), buf)
      ensures Ready()
    {
      ghost var t := Abs();
      for i := 0 to |buf|
        invariant Ready() && PutAll(k, Abs(), buf[i..]) == PutAll(k, t, buf)
      {
        Putchar(buf[i]);
        assert buf[i..][1..] == buf[i + 1..];
      }
    }

    /** flanterm_write: the bytes in order, then a flush.  With p.autoflush on, the framebuffer is the naive repaint
        of the screen that the bytes describe, whatever had been written before and however it was cut up. */
    method Write(buf: seq<Byte>)
      requires Valid()
      modifies this, escValues, fb, fb.queue, fb.slot, fb.grid, fb.framebuffer
      ensures Abs() == PutAll(k, old(Abs()), buf)
      ensures Valid()
      ensures p.autoflush.On? ==> fb.Displays(WithCursor(fb.Abs()))
      ensures fb.PaddingKept()
    {
      PutBytes(buf);
      if p.autoflush.On? {
        fb.DoubleBufferFlush();
      }
    }

    /** Writing a stream in pieces ends in the state, and the picture, of writing it at once. */
    method WritePieces(pieces: seq<seq<Byte>>)
      requires Valid()
      modifies this, escValues, fb, fb.queue, fb.slot, fb.grid, fb.framebuffer
      ensures Abs() == PutAll(k, old(Abs()), Joined(pieces))
      ensures Valid()
      ensures pieces != [] && p.autoflush.On? ==> fb.Displays(WithCursor(fb.Abs()))
      ensures fb.PaddingKept()
    {
      ghost var t := Abs();
      for i := 0 to |pieces|
        invariant Valid() && PutAll(k, Abs(), Joined(pieces[i..])) == PutAll(k, t, Joined(pieces))
        invariant i > 0 && p.autoflush.On? ==> fb.Displays(WithCursor(fb.Abs()))
        invariant fb.PaddingKept()
      {
        assert pieces[i..][1..] == pieces[i + 1..];
        PutAllAppend(k, Abs(), pieces[i], Joined(pieces[i + 1..]));
        Write(pieces[i]);
      }
    }
  }

  ghost function Joined(pieces: seq<seq<Byte>>): seq<Byte> {
    if pieces == [] then [] else pieces[0] + Joined(pieces[1..])
  }
}
