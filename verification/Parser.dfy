/**
 The byte-driven terminal (flanterm/flanterm.c) as a step function on values.

 `Put` says what one byte does to the parser state and the logical screen.  It is the specification
 of class `Terminal`; what the terminal is FOR (text flow, row edits, UTF-8, safe indices, independence
 of write boundaries) is proved about it in the modules that follow.
 */
module Parsers {
  import opened Arithmetic
  import opened Bits
  import opened Screens

  const MAX_ESC_VALUES := 16
  const TAB_SIZE := 8
  const REPLACEMENT: Byte := 0xfe

  /** Stands for `(size_t)-1`, "no colour chosen". */
  const NO_COLOUR: int := -1

  /** Data the terminal is built with: colours, and the Unicode tables. */
  datatype Tables = Tables(
    ansi: seq<Colour>, bright: seq<Colour>,
    defaultFg: Colour, defaultFgBright: Colour, defaultBgBright: Colour,
    rgb: (int, int, int) -> Colour, palette: int -> Colour,
    cp437: int -> int, width: int -> int, decSpecial: int -> int)
  {
    ghost predicate Valid() {
      && |ansi| == 8 && |bright| == 8
      && (forall p :: -1 <= cp437(p) < 256)
      && (forall p :: 0 <= width(p) <= 2)
      && (forall c :: -1 <= decSpecial(c) < 256)
    }
  }

  /** Graphic rendition. */
  datatype Attributes = Attributes(bold: bool, bgBold: bool, reverse: bool, primary: int, background: int) {
    predicate Valid() {
      -1 <= primary <= 7 && -1 <= background <= 7
    }
  }

  datatype Pen = Pen(a: Attributes, fg: Colour, bg: Colour) {
    function Swapped(): Pen {
      Pen(a, bg, fg)
    }
  }

  /** A flag of the parser.  (Not a bool: the verifier would split cases on every flag of every record.) */
  datatype Flag = Off | On

  function FlagOf(b: bool): Flag {
    if b then On else Off
  }

  /** The scalar fields of the terminal context that the parser keeps between bytes. */
  datatype Parser = Parser(
    escape: Flag, controlSequence: Flag, osc: Flag, oscEscape: Flag,
    rrr: Flag, discardNext: Flag, decPrivate: Flag, insertMode: Flag, autoflush: Flag, onlcr: Flag,
    codePoint: nat, unicodeRemaining: nat,
    gSelect: nat, g0Special: Flag, g1Special: Flag, currentCharset: nat,
    escapeOffset: nat, escValuesI: nat,
    savedCursorX: nat, savedCursorY: nat,
    a: Attributes, savedA: Attributes, savedCharset: nat)
  {
    ghost predicate InRange() {
      && escValuesI <= MAX_ESC_VALUES && (rrr.On? ==> escValuesI < MAX_ESC_VALUES)
      && unicodeRemaining <= 3 && gSelect <= 2 && currentCharset <= 1 && savedCharset <= 1
      && a.Valid() && savedA.Valid()
      && savedCursorX < TWO_64 && savedCursorY < TWO_64
    }
  }

  /** Screen, control-sequence values and parser fields. */
  datatype Term = Term(s: Screen, v: seq<int>, p: Parser) {

    /** What holds between any two bytes. */
    ghost predicate Valid() {
      && s.Valid() && s.scrollEnabled && s.rows < TWO_32 && s.cols < TWO_32
      && CsiValues(v) && p.InRange()
    }

    function CurrentPen(): Pen {
      Pen(p.a, s.fg, s.bg)
    }

    function WithPen(q: Pen): Term {
      this.(p := p.(a := q.a), s := s.(fg := q.fg, bg := q.bg))
    }
  }

  // ---- SGR ----

  /** One SGR value other than the extended colours 38 and 48. */
  function SgrOne(k: Tables, q: Pen, v: int): (r: Pen)
    requires k.Valid() && q.a.Valid()
    ensures r.a.Valid()
  {
    var a := q.a;
    if v == 0 then
      Pen(Attributes(false, false, false, NO_COLOUR, NO_COLOUR), k.defaultFg, TRANSPARENT)
    else if v == 1 then
      var colour := if a.primary != NO_COLOUR then k.bright[a.primary]
                    else if !a.reverse then k.defaultFgBright else k.defaultBgBright;
      if !a.reverse then q.(a := a.(bold := true), fg := colour) else q.(a := a.(bold := true), bg := colour)
    else if v == 5 then
      var colour := if a.background != NO_COLOUR then k.bright[a.background]
                    else if !a.reverse then k.defaultBgBright else k.defaultFgBright;
      if !a.reverse then q.(a := a.(bgBold := true), bg := colour) else q.(a := a.(bgBold := true), fg := colour)
    else if v == 22 then
      var colour := if a.primary != NO_COLOUR then k.ansi[a.primary]
                    else if !a.reverse then k.defaultFg else TRANSPARENT;
      if !a.reverse then q.(a := a.(bold := false), fg := colour) else q.(a := a.(bold := false), bg := colour)
    else if v == 25 then
      var colour := if a.background != NO_COLOUR then k.ansi[a.background]
                    else if !a.reverse then TRANSPARENT else k.defaultFg;
      if !a.reverse then q.(a := a.(bgBold := false), bg := colour) else q.(a := a.(bgBold := false), fg := colour)
    else if 30 <= v <= 37 then
      Chosen(k, q.(a := a.(primary := v - 30)), !a.reverse, v - 30)
    else if 40 <= v <= 47 then
      Chosen(k, q.(a := a.(background := v - 40)), a.reverse, v - 40)
    else if 90 <= v <= 97 then
      var r := q.(a := a.(primary := v - 90));
      if !a.reverse then r.(fg := k.bright[v - 90]) else r.(bg := k.bright[v - 90])
    else if 100 <= v <= 107 then
      var r := q.(a := a.(background := v - 100));
      if a.reverse then r.(fg := k.bright[v - 100]) else r.(bg := k.bright[v - 100])
    else if v == 39 then
      var r := q.(a := a.(primary := NO_COLOUR));
      var colour := if !a.bold then k.defaultFg else k.defaultFgBright;
      if !a.reverse then r.(fg := colour) else r.(bg := colour)
    else if v == 49 then
      var r := q.(a := a.(background := NO_COLOUR));
      var colour := if !a.bgBold then TRANSPARENT else k.defaultBgBright;
      if !a.reverse then r.(bg := colour) else r.(fg := colour)
    else if v == 7 then
      if !a.reverse then q.(a := a.(reverse := true)).Swapped() else q
    else if v == 27 then
      if a.reverse then q.(a := a.(reverse := false)).Swapped() else q
    else q
  }

  /** Colour `i` as the foreground or the background, bright when that side is bold. */
  function Chosen(k: Tables, q: Pen, foreground: bool, i: int): Pen
    requires k.Valid() && 0 <= i < 8
  {
    if foreground then
      q.(fg := if (q.a.bold && !q.a.reverse) || (q.a.bgBold && q.a.reverse) then k.bright[i] else k.ansi[i])
    else
      q.(bg := if (q.a.bold && q.a.reverse) || (q.a.bgBold && !q.a.reverse) then k.bright[i] else k.ansi[i])
  }

  /** Entry `col` of the 256-colour palette. */
  function Extended(k: Tables, q: Pen, fg: bool, col: int): Pen
    requires k.Valid() && 0 <= col
  {
    if col >= 256 then q
    else
      var colour := if col < 8 then k.ansi[col] else if col < 16 then k.bright[col - 8] else k.palette(col - 16);
      if fg then q.(fg := colour) else q.(bg := colour)
  }

  /** The values i, i + 1, ... of an SGR sequence of n values, left to right. */
  function SgrFrom(k: Tables, q: Pen, v: seq<int>, n: nat, i: nat): (r: Pen)
    requires k.Valid() && q.a.Valid() && n <= |v| && forall j :: 0 <= j < |v| ==> 0 <= v[j]
    ensures r.a.Valid()
    decreases n - i
  {
    if i >= n then q
    else if v[i] != 38 && v[i] != 48 then SgrFrom(k, SgrOne(k, q, v[i]), v, n, i + 1)
    else if i + 1 >= n then q
    else if v[i + 1] == 2 then
      if i + 4 >= n then q
      else
        var colour := k.rgb(v[i + 2], v[i + 3], v[i + 4]);
        SgrFrom(k, if v[i] == 38 then q.(fg := colour) else q.(bg := colour), v, n, i + 5)
    else if v[i + 1] == 5 then
      if i + 2 >= n then q
      else SgrFrom(k, Extended(k, q, v[i] == 38, v[i + 2]), v, n, i + 3)
    else SgrFrom(k, q, v, n, i + 2)
  }

  function Sgr(k: Tables, q: Pen, v: seq<int>, n: nat): (r: Pen)
    requires k.Valid() && q.a.Valid() && n <= |v| && forall j :: 0 <= j < |v| ==> 0 <= v[j]
    ensures r.a.Valid()
  {
    if n == 0 then SgrOne(k, q, 0) else SgrFrom(k, q, v, n, 0)
  }

  // ---- Control sequences ----

  /** Unset values take the default of the final byte. */
  function Defaulted(v: seq<int>, n: nat, d: int): (w: seq<int>)
    requires n <= |v|
    ensures |w| == |v|
    ensures forall i :: 0 <= i < |v| ==> w[i] == if i < n then v[i] else d
  {
    v[..n] + seq(|v| - n, _ => d)
  }

  /** Vertical motion stops at the scrolling region's edge when it crosses it. */
  function MovedUp(s: Screen, y: nat, n: nat): (r: nat)
    requires n <= y
  {
    var dest := y - n;
    var inRegion := (s.top >= dest && s.top <= y) || (s.bottom >= dest && s.bottom <= y);
    if inRegion && dest < s.top then s.top else dest
  }

  function MovedDown(s: Screen, y: nat, n: nat): (r: nat)
    requires 1 <= s.bottom
  {
    var dest := y + n;
    var inRegion := (s.top >= y && s.top <= dest) || (s.bottom >= y && s.bottom <= dest);
    if inRegion && dest >= s.bottom then s.bottom - 1 else dest
  }

  function Min(a: int, b: int): int {
    if a > b then b else a
  }

  /** 32-bit predecessor, clamped below `limit`: the coordinate named by a 1-based parameter. */
  function OneBased(v: int, limit: nat): (r: nat)
    requires 0 <= v < TWO_32 && 1 <= limit
    ensures r < limit
  {
    Min((v - 1) % TWO_32, limit - 1)
  }

  /** The same for CUP, whose parameter 0 means 1. */
  function OneBasedOrZero(v: int, limit: nat): (r: nat)
    requires 0 <= v && 1 <= limit
    ensures r < limit
  {
    Min(if v != 0 then v - 1 else v, limit - 1)
  }

  function ScrollUpMany(s: Screen, n: nat): (r: Screen)
    requires s.Valid()
    ensures r.Valid() && SameSetup(s, r)
  {
    if n == 0 then s else ScrollUp(ScrollUpMany(s, n - 1))
  }

  function ScrollDownMany(s: Screen, n: nat): (r: Screen)
    requires s.Shaped() && s.top < s.rows && 1 <= s.bottom <= s.rows
    ensures r.Shaped() && SameSetup(s, r)
  {
    if n == 0 then s else ScrollDown(ScrollDownMany(s, n - 1))
  }

  /** CSI L opens its lines at the cursor row by moving the top margin there for the while. */
  function InsertLines(s: Screen, y: nat, n: nat): (r: Screen)
    requires s.Valid() && y < s.rows
    ensures r.Valid() && SameSetup(s, r)
  {
    ScrollDownMany(s.(top := y), Min(n, s.rows)).(top := s.top)
  }

  /** Number of cells from (x, y) to the end of the screen. */
  function CellsFrom(s: Screen, x: nat, y: nat): nat
    requires x < s.cols && y < s.rows
  {
    var rowsRemaining: nat, colsDiff: nat := s.rows - (y + 1), s.cols - (x + 1);
    rowsRemaining * s.cols + colsDiff + 1
  }

  /** CSI J. */
  function EraseDisplay(s: Screen, x: nat, y: nat, mode: int): (r: Screen)
    requires s.Valid() && x < s.cols < TWO_32 && y < s.rows < TWO_32
    ensures r.Valid() && SameSetup(s, r)
  {
    if mode == 0 then SetCursor(RawPutMany(s, SPACE, CellsFrom(s, x, y)), x, y)
    else if mode == 1 then
      SetCursor(RawPutMany(SetCursor(s, 0, 0), SPACE, y * s.cols + x + 1), x, y)
    else if mode == 2 || mode == 3 then Clear(s, false)
    else s
  }

  /** CSI K. */
  function EraseLine(s: Screen, x: nat, y: nat, mode: int): (r: Screen)
    requires s.Valid() && x < s.cols < TWO_32 && y < s.rows < TWO_32
    ensures r.Valid() && SameSetup(s, r)
  {
    if mode == 0 then SetCursor(RawPutMany(s, SPACE, s.cols - x), x, y)
    else if mode == 1 then RawPutMany(SetCursor(s, 0, y), SPACE, x)
    else if mode == 2 then SetCursor(RawPutMany(SetCursor(s, 0, y), SPACE, s.cols), x, y)
    else s
  }

  /** CSI X. */
  function EraseChars(s: Screen, x: nat, y: nat, n: nat): (r: Screen)
    requires s.Valid() && x < s.cols < TWO_32 && y < s.rows < TWO_32
    ensures r.Valid() && SameSetup(s, r)
  {
    SetCursor(RawPutMany(s, SPACE, Min(n, s.cols)), x, y)
  }

  /** CSI P: the row moves left, then as many blanks are printed at the line's end. */
  function DeleteChars(s: Screen, x: nat, y: nat, n: nat): (r: Screen)
    requires s.Valid() && x < s.cols < TWO_32 && y < s.rows < TWO_32
    ensures r.Valid() && SameSetup(s, r)
  {
    EraseChars(AtTail(Shortened(s, x, y, n), y, n), x, y, n)
  }

  /** The cursor n cells before the end of a row, in 64-bit arithmetic. */
  function AtTail(s: Screen, y: nat, n: nat): (r: Screen)
    requires s.Valid() && y < s.rows < TWO_32
    ensures r.Valid() && SameSetup(s, r)
  {
    SetCursor(s, Wrap64(s.cols - n), y)
  }

  function Shortened(s: Screen, x: nat, y: nat, n: nat): (r: Screen)
    requires s.Valid() && y < s.rows
    ensures r.Valid()
  {
    s.(view := s.view[y := MovedLeft(s.view[y], x, n)])
  }

  /** CSI @. */
  function InsertChars(s: Screen, x: nat, y: nat, n: nat): (r: Screen)
    requires s.Valid() && x < s.cols < TWO_32 && y < s.rows < TWO_32
    ensures r.Valid() && SameSetup(s, r)
  {
    SetCursor(s.(view := s.view[y := Inserted(s.view[y], x, n, s.Blank())]), x, y)
  }

  /** CSI r. */
  function SetMargins(s: Screen, v0: int, v1: int, n: nat): (r: Screen)
    requires s.Valid() && 0 <= v0 && 0 <= v1
    ensures r.Valid() && SameSetup(s.(top := r.top, bottom := r.bottom), r)
  {
    var top := if n > 0 then (if v0 == 0 then 1 else v0) - 1 else 0;
    var bottom := if n > 1 then (if v1 == 0 then 1 else v1) else s.rows;
    var bad := top >= s.rows || bottom > s.rows || top >= bottom - 1;
    SetCursor(s.(top := if bad then 0 else top, bottom := if bad then s.rows else bottom), 0, 0)
  }

  /** The final bytes that only move the cursor. */
  predicate IsMotion(c: Byte) {
    var f := c as char;
    'A' <= f <= 'H' || f == 'a' || f == 'd' || f == 'e' || f == '`' || f == 'f'
  }

  predicate CsiValues(v: seq<int>) {
    |v| == MAX_ESC_VALUES && forall i :: 0 <= i < |v| ==> 0 <= v[i] < TWO_32
  }

  /** Column and row a motion names. */
  function MotionX(s: Screen, c: Byte, v: seq<int>): (x: nat)
    requires s.Valid() && s.cols < TWO_32 && CsiValues(v)
    ensures x < TWO_32
  {
    var k := c as char;
    var x := s.CursorX();
    if k == 'E' || k == 'F' then 0
    else if k == 'C' || k == 'a' then x + Min(v[0], s.cols - 1 - x)
    else if k == 'D' then x - Min(v[0], x)
    else if k == 'G' || k == '`' then OneBased(v[0], s.cols)
    else if k == 'H' || k == 'f' then OneBasedOrZero(v[1], s.cols)
    else x
  }

  function MotionY(s: Screen, c: Byte, v: seq<int>): (y: nat)
    requires s.Valid() && s.rows < TWO_32 && CsiValues(v)
    ensures y < TWO_32
  {
    var k := c as char;
    var y := s.CursorY();
    if k == 'A' || k == 'F' then MovedUp(s, y, Min(v[0], y))
    else if k == 'B' || k == 'e' || k == 'E' then MovedDown(s, y, Min(v[0], s.rows - 1 - y))
    else if k == 'd' then OneBased(v[0], s.rows)
    else if k == 'H' || k == 'f' then OneBasedOrZero(v[0], s.rows)
    else y
  }

  /** The control sequences that only touch the screen. */
  function CsiScreen(s: Screen, c: Byte, v: seq<int>, n: nat): (r: Screen)
    requires s.Valid() && s.rows < TWO_32 && s.cols < TWO_32
    requires CsiValues(v)
    ensures r.Valid() && SameSetup(s.(top := r.top, bottom := r.bottom), r)
  {
    var x, y := s.CursorX(), s.CursorY();
    var k := c as char;
    if IsMotion(c) then SetCursor(s, MotionX(s, c, v), MotionY(s, c, v))
    else if k == 'M' then ScrollUpMany(s, Min(v[0], s.rows))
    else if k == 'L' then InsertLines(s, y, v[0])
    else if k == 'J' then EraseDisplay(s, x, y, v[0])
    else if k == '@' then InsertChars(s, x, y, v[0])
    else if k == 'P' then DeleteChars(s, x, y, v[0])
    else if k == 'X' then EraseChars(s, x, y, v[0])
    else if k == 'K' then EraseLine(s, x, y, v[0])
    else if k == 'r' then SetMargins(s, v[0], v[1], n)
    else s
  }

  /** A complete control sequence with final byte c. */
  function Csi(k: Tables, t: Term, c: Byte): (r: Term)
    requires k.Valid() && t.Valid()
    ensures r.Valid()
  {
    var f := c as char;
    var v, n := t.v, t.p.escValuesI;
    var s := CsiScreen(t.s.(scrollEnabled := false), c, v, n).(scrollEnabled := true);
    if f == 'm' then t.WithPen(Sgr(k, t.CurrentPen(), v, n))
    else if f == 's' then t.(p := t.p.(savedCursorX := t.s.CursorX(), savedCursorY := t.s.CursorY()))
    else if f == 'u' then t.(s := SetCursor(t.s, t.p.savedCursorX, t.p.savedCursorY))
    else if (f == 'h' || f == 'l') && n > 0 && v[0] == 4 then t.(p := t.p.(insertMode := FlagOf(f == 'h')))
    else t.(s := s)
  }

  /** CSI ? ... : only the cursor's visibility is understood. */
  function DecPrivate(t: Term, c: Byte): (r: Term)
    requires t.Valid()
    ensures r.Valid()
  {
    var f := c as char;
    var u := t.(p := t.p.(decPrivate := Off));
    if t.p.escValuesI > 0 && (f == 'h' || f == 'l') && t.v[0] == 25
    then u.(s := u.s.(cursorEnabled := f == 'h')) else u
  }

  /** One byte inside a control sequence. */
  function ControlSequence(k: Tables, t: Term, c: Byte): (r: Term)
    requires k.Valid() && t.Valid()
    ensures r.Valid()
  {
    var f := c as char;
    if t.p.escapeOffset == 2 && f == '[' then t.(p := t.p.(discardNext := On, controlSequence := Off, escape := Off))
    else if t.p.escapeOffset == 2 && f == '?' then t.(p := t.p.(decPrivate := On))
    else if '0' <= f <= '9' then
      if t.p.escValuesI == MAX_ESC_VALUES then t
      else t.(p := t.p.(rrr := On), v := t.v[t.p.escValuesI :=
             (t.v[t.p.escValuesI] * 10 + (c - 0x30)) % TWO_32])
    else if f == ';' then
      if t.p.rrr.On? then t.(p := t.p.(rrr := Off, escValuesI := t.p.escValuesI + 1))
      else if t.p.escValuesI == MAX_ESC_VALUES then t
      else t.(v := t.v[t.p.escValuesI := 0], p := t.p.(escValuesI := t.p.escValuesI + 1))
    else FinalByte(k, t, c)
  }

  function ValueClosed(t: Term): (r: Term)
    requires t.Valid()
    ensures r.Valid()
  {
    t.(p := t.p.(rrr := Off, escValuesI := if t.p.rrr.On? then t.p.escValuesI + 1 else t.p.escValuesI))
  }

  /** The sequence is over. */
  function Closed(t: Term): (r: Term)
    requires t.Valid()
    ensures r.Valid()
  {
    t.(p := t.p.(controlSequence := Off, escape := Off))
  }

  /** The final byte closes the last value, fills in the defaults and runs the sequence. */
  function FinalByte(k: Tables, t: Term, c: Byte): (r: Term)
    requires k.Valid() && t.Valid()
    ensures r.Valid()
  {
    var f := c as char;
    var u := ValueClosed(t);
    var d := if f == 'J' || f == 'K' || f == 'q' then 0 else 1;
    var w := u.(v := Defaulted(u.v, u.p.escValuesI, d));
    Closed(if w.p.decPrivate.On? then DecPrivate(w, c) else Csi(k, w, c))
  }

  function OscParse(t: Term, c: Byte): (r: Term)
    requires t.Valid()
    ensures r.Valid()
  {
    if (t.p.oscEscape.On? && c as char == '\\') || c == 0x07 then t.(p := t.p.(oscEscape := Off, osc := Off, escape := Off))
    else t.(p := t.p.(oscEscape := FlagOf(c == 0x1b)))
  }

  /** flanterm_context_reinit. */
  function Reinit(t: Term): (r: Term)
    requires t.Valid()
    ensures r.Valid()
  {
    t.(p := t.p.(autoflush := On, controlSequence := Off, escape := Off, osc := Off, oscEscape := Off, rrr := Off,
       discardNext := Off, decPrivate := Off, insertMode := Off, onlcr := On,
       unicodeRemaining := 0, gSelect := 0, g0Special := Off, g1Special := On, currentCharset := 0,
       escapeOffset := 0, escValuesI := 0, savedCursorX := 0, savedCursorY := 0,
       a := Attributes(false, false, false, NO_COLOUR, NO_COLOUR)),
       s := t.s.(cursorEnabled := true, scrollEnabled := true, top := 0, bottom := t.s.rows))
  }

  function InitialParser(): Parser {
    Parser(Off, Off, Off, Off, Off, Off, Off, Off, On, On, 0, 0, 0, Off, On, 0, 0, 0, 0, 0,
           Attributes(false, false, false, NO_COLOUR, NO_COLOUR), Attributes(false, false, false, 0, 0), 0)
  }

  /** A terminal that has just been created.  Its saved state is zeroed memory, so its saved colours are 0. */
  function InitialTerm(s: Screen): Term {
    Term(s, seq(MAX_ESC_VALUES, _ => 0), InitialParser())
  }

  function SaveState(t: Term): (r: Term)
    requires t.Valid()
    ensures r.Valid()
  {
    t.(s := Saved(t.s), p := t.p.(savedA := t.p.a, savedCharset := t.p.currentCharset))
  }

  function RestoreState(t: Term): (r: Term)
    requires t.Valid()
    ensures r.Valid()
  {
    t.(s := Restored(t.s), p := t.p.(a := t.p.savedA, currentCharset := t.p.savedCharset))
  }

  /** Index: to the next row, scrolling at the region's last row. */
  function LineFeed(s: Screen, x: nat): (r: Screen)
    requires s.Valid() && x < TWO_64 && s.rows < TWO_32
    ensures r.Valid() && SameSetup(s, r)
  {
    var y := s.CursorY();
    if y == s.bottom - 1 then SetCursor(ScrollUp(s), x, y) else SetCursor(s, x, y + 1)
  }

  /** Reverse index; it also returns to column 0. */
  function ReverseLineFeed(s: Screen): (r: Screen)
    requires s.Valid() && s.rows < TWO_32
    ensures r.Valid() && SameSetup(s, r)
  {
    var y := s.CursorY();
    if y == s.top then SetCursor(ScrollDown(s), 0, y) else SetCursor(s, 0, Wrap64(y - 1))
  }

  /** One byte after ESC. */
  function EscapeParse(k: Tables, t: Term, c: Byte): (r: Term)
    requires k.Valid() && t.Valid()
    ensures r.Valid()
  {
    EscapeCounted(k, Counted(t), c)
  }

  function Counted(t: Term): (r: Term)
    requires t.Valid()
    ensures r.Valid()
  {
    t.(p := t.p.(escapeOffset := Wrap64(t.p.escapeOffset + 1)))
  }

  /** The same with its offset counted. */
  function EscapeCounted(k: Tables, t: Term, c: Byte): (r: Term)
    requires k.Valid() && t.Valid()
    ensures r.Valid()
  {
    var f := c as char;
    if t.p.osc.On? then OscParse(t, c)
    else if t.p.controlSequence.On? then ControlSequence(k, t, c)
    else if f == ']' then t.(p := t.p.(oscEscape := Off, osc := On))
    else if f == '[' then
      t.(v := seq(MAX_ESC_VALUES, _ => 0), p := t.p.(escValuesI := 0, rrr := Off, controlSequence := On))
    else (var u := EscapeFinal(t, c); u.(p := u.p.(escape := Off)))
  }

  function EscapeFinal(t: Term, c: Byte): (r: Term)
    requires t.Valid()
    ensures r.Valid()
  {
    var f := c as char;
    if f == '7' then SaveState(t)
    else if f == '8' then RestoreState(t)
    else if f == 'c' then var u := Reinit(t); u.(s := Clear(u.s, true))
    else if f == 'D' then t.(s := LineFeed(t.s, t.s.CursorX()))
    else if f == 'E' then t.(s := LineFeed(t.s, 0))
    else if f == 'M' then t.(s := ReverseLineFeed(t.s))
    else if f == '(' || f == ')' then t.(p := t.p.(gSelect := c - 0x27))
    else t
  }

  // ---- Characters ----

  /** Cursor motion of a control character. */
  function ControlMove(s: Screen, c: Byte, onlcr: Flag): (r: Screen)
    requires s.Valid() && s.rows < TWO_32 && s.cols < TWO_32
    ensures r.Valid() && SameSetup(s, r)
  {
    var x, y := s.CursorX(), s.CursorY();
    if c == 0x09 then
      SetCursor(s, if x / TAB_SIZE + 1 >= s.cols then s.cols - 1 else (x / TAB_SIZE + 1) * TAB_SIZE, y)
    else if 0x0a <= c <= 0x0c then LineFeed(s, if onlcr.On? then 0 else x)
    else if c == 0x08 then SetCursor(s, Wrap64(x - 1), y)
    else if c == 0x0d then SetCursor(s, 0, y)
    else s
  }

  function ControlChar(t: Term, c: Byte): (r: Term)
    requires t.Valid()
    ensures r.Valid()
  {
    if c == 0x1b then t.(p := t.p.(escapeOffset := 0, escape := On))
    else if c == 14 then t.(p := t.p.(currentCharset := 1))
    else if c == 15 then t.(p := t.p.(currentCharset := 0))
    else t.(s := ControlMove(t.s, c, t.p.onlcr))
  }

  predicate IsControl(c: Byte) {
    c == 0x00 || c == 0x7f || 0x07 <= c <= 0x0f || c == 0x1b
  }

  /** The code page 437 character that byte c prints. */
  function Glyph(k: Tables, t: Term, c: Byte): Byte
    requires k.Valid() && t.Valid()
  {
    var special := if t.p.currentCharset == 0 then t.p.g0Special.On? else t.p.g1Special.On?;
    if special && k.decSpecial(c) != -1 then k.decSpecial(c)
    else if 0x20 <= c <= 0x7e then c
    else REPLACEMENT
  }

  /** Prints byte c, first opening a gap in insert mode. */
  function Print(k: Tables, t: Term, c: Byte): (r: Term)
    requires k.Valid() && t.Valid()
    ensures r.Valid()
  {
    var x, y := t.s.CursorX(), t.s.CursorY();
    var s := if t.p.insertMode.On? then t.s.(view := t.s.view[y := OpenedAt(t.s.view[y], x)]) else t.s;
    t.(s := RawPut(s, Glyph(k, t, c)))
  }

  /** Prints a decoded code point: its glyph, or a replacement of the same width. */
  function PrintCodePoint(k: Tables, t: Term, point: nat): (r: Term)
    requires k.Valid() && t.Valid()
    ensures r.Valid()
  {
    if k.cp437(point) != -1 then t.(s := RawPut(t.s, k.cp437(point)))
    else if k.width(point) == 0 then t
    else t.(s := RawPutMany(RawPut(t.s, REPLACEMENT), SPACE, k.width(point) - 1))
  }

  predicate IsContinuation(c: Byte) {
    0x80 <= c < 0xc0
  }

  /** A UTF-8 lead byte starts collecting a code point. */
  function LeadByte(t: Term, c: Byte): (r: Term)
    requires t.Valid() && 0xc0 <= c <= 0xf7
    ensures r.Valid()
  {
    if c <= 0xdf then t.(p := t.p.(unicodeRemaining := 1, codePoint := (c % 0x20) * 0x40))
    else if c <= 0xef then t.(p := t.p.(unicodeRemaining := 2, codePoint := (c % 0x10) * 0x1000))
    else t.(p := t.p.(unicodeRemaining := 3, codePoint := (c % 0x08) * 0x40000))
  }

  /** A continuation byte fills the next six bits from the top; the last one prints. */
  function ContinuationByte(k: Tables, t: Term, c: Byte): (r: Term)
    requires k.Valid() && t.Valid() && t.p.unicodeRemaining > 0
    ensures r.Valid()
  {
    var left := t.p.unicodeRemaining - 1;
    var u := t.(p := t.p.(unicodeRemaining := left, codePoint := BitOr(t.p.codePoint, (c % 0x40) * Pow2(6 * left))));
    if left != 0 then u else PrintCodePoint(k, u, u.p.codePoint)
  }

  /** CAN, SUB, or the byte to be discarded: every partial sequence is forgotten. */
  function Cancelled(t: Term): (r: Term)
    requires t.Valid()
    ensures r.Valid()
  {
    t.(p := t.p.(discardNext := Off, escape := Off, controlSequence := Off, unicodeRemaining := 0,
                 osc := Off, oscEscape := Off, gSelect := 0))
  }

  function SelectCharset(t: Term, c: Byte): (r: Term)
    requires t.Valid() && t.p.gSelect > 0
    ensures r.Valid()
  {
    var f := c as char;
    var u := t.(p := t.p.(gSelect := 0));
    if f != 'B' && f != '0' then u
    else u.(p := u.p.(g0Special := if t.p.gSelect == 1 then FlagOf(f == '0') else t.p.g0Special,
            g1Special := if t.p.gSelect == 1 then t.p.g1Special else FlagOf(f == '0')))
  }

  /** A byte that does not continue a UTF-8 sequence. */
  function FreshByte(k: Tables, t: Term, c: Byte): (r: Term)
    requires k.Valid() && t.Valid()
    ensures r.Valid()
  {
    if 0xc0 <= c <= 0xf7 then LeadByte(t, c)
    else if t.p.escape.On? then EscapeParse(k, t, c)
    else if t.p.gSelect > 0 then SelectCharset(t, c)
    else if IsControl(c) then ControlChar(t, c)
    else Print(k, t, c)
  }

  /** flanterm_putchar. */
  function Put(k: Tables, t: Term, c: Byte): (r: Term)
    requires k.Valid() && t.Valid()
    ensures r.Valid()
  {
    if t.p.discardNext.On? || c == 0x18 || c == 0x1a then Cancelled(t)
    else if t.p.unicodeRemaining > 0 && IsContinuation(c) then ContinuationByte(k, t, c)
    else FreshByte(k, t.(p := t.p.(unicodeRemaining := 0)), c)
  }

  /** A whole stream of bytes. */
  function PutAll(k: Tables, t: Term, bytes: seq<Byte>): (r: Term)
    requires k.Valid() && t.Valid()
    ensures r.Valid()
    decreases |bytes|
  {
    if bytes == [] then t else PutAll(k, Put(k, t, bytes[0]), bytes[1..])
  }

  /** Bytes are processed one at a time, so a stream may be cut anywhere. */
  lemma {:induction false} PutAllAppend(k: Tables, t: Term, a: seq<Byte>, b: seq<Byte>)
    requires k.Valid() && t.Valid()
    ensures PutAll(k, t, a + b) == PutAll(k, PutAll(k, t, a), b)
    decreases |a|
  {
    if a == [] {
      assert a + b == b;
    } else {
      assert (a + b)[1..] == a[1..] + b;
      PutAllAppend(k, Put(k, t, a[0]), a[1..], b);
    }
  }

  // ---- Streams in general ----

  /** Runs a step function over a stream.  Statements about whole streams are proved about an arbitrary step
      function and then used with this one, so that the verifier need not look inside it. */
  ghost function Run(f: (Term, Byte) -> Term, t: Term, bytes: seq<Byte>): Term
    decreases |bytes|
  {
    if bytes == [] then t else Run(f, f(t, bytes[0]), bytes[1..])
  }

  ghost function Step(k: Tables): (Term, Byte) -> Term
    requires k.Valid()
  {
    (t: Term, c: Byte) => if t.Valid() then Put(k, t, c) else t
  }

  lemma {:induction false} PutAllIsRun(k: Tables, t: Term, bytes: seq<Byte>)
    requires k.Valid() && t.Valid()
    ensures PutAll(k, t, bytes) == Run(Step(k), t, bytes)
    decreases |bytes|
  {
    if bytes != [] {
      PutAllIsRun(k, Put(k, t, bytes[0]), bytes[1..]);
    }
  }

  lemma {:induction false} RunAppend(f: (Term, Byte) -> Term, t: Term, a: seq<Byte>, b: seq<Byte>)
    ensures Run(f, t, a + b) == Run(f, Run(f, t, a), b)
    decreases |a|
  {
    if a == [] {
      assert a + b == b;
    } else {
      assert (a + b)[1..] == a[1..] + b;
      RunAppend(f, f(t, a[0]), a[1..], b);
    }
  }

  lemma RunLast(f: (Term, Byte) -> Term, t: Term, a: seq<Byte>, c: Byte)
    ensures Run(f, t, a + [c]) == f(Run(f, t, a), c)
  {
    RunAppend(f, t, a, [c]);
    assert [c][1..] == [];
  }
}
