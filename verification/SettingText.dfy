/**
 What else control sequences and escapes set, from their bytes on: margins, modes, the saved position, colours, and
 everything at once.
 */
module SettingText {
  import opened Arithmetic
  import opened ControlText
  import opened EditText
  import opened MotionText
  import opened Parsers
  import opened Screens

  // ---- Margins ----

  /** Rows top to bottom - 1, or the whole screen where they are no region of two rows at least; the cursor goes home. */
  function WithRegion(s: Screen, top: nat, bottom: nat): Screen {
    if top + 1 < bottom <= s.rows then s.(top := top, bottom := bottom, x := 0, y := 0)
    else s.(top := 0, bottom := s.rows, x := 0, y := 0)
  }

  lemma MarginsSet(s: Screen, v0: int, v1: int, n: nat, top: nat, bottom: nat)
    requires s.Valid() && 0 <= v0 < TWO_32 && 0 <= v1 < TWO_32
    requires top == (if n == 0 || v0 == 0 then 0 else v0 - 1)
    requires bottom == if n <= 1 then s.rows else if v1 == 0 then 1 else v1
    ensures SetMargins(s, v0, v1, n) == WithRegion(s, top, bottom)
  {
  }

  lemma MarginsIs(k: Tables, t: Term, ps: seq<Parameter>, n: nat, w: seq<int>, top: nat, bottom: nat)
    requires k.Valid() && t.Valid() && Plain(t) && ps != [] && |Joined(ps)| < TWO_64 - 4
    requires n == Count(ps) && w == Defaulted(Kept(ps, |ps|), n, 1)
    requires top == (if n == 0 || w[0] == 0 then 0 else w[0] - 1)
    requires bottom == if n <= 1 then t.s.rows else if w[1] == 0 then 1 else w[1]
    ensures PutAll(k, t, [ESC, BRACKET] + Joined(ps) + [0x72]).s == WithRegion(t.s, top, bottom)
  {
    SequenceEdits(k, t, ps, 0x72, n, w, |Joined(ps)| + 2);
    MarginsSet(Quiet(t.s), w[0], w[1], n, top, bottom);
  }

  /** ESC [ a ; b r makes rows a to b the scrolling region, b the last row if it is left out. */
  lemma MarginsWritten(k: Tables, t: Term, a: Parameter, b: Parameter)
    requires k.Valid() && t.Valid() && Plain(t) && |a.Text()| + |b.Text()| < TWO_64 - 5
    ensures PutAll(k, t, [ESC, BRACKET] + (a.Text() + [SEMICOLON] + b.Text()) + [0x72]).s
         == WithRegion(t.s, Place(a), if b.Empty? then t.s.rows else Place(b) + 1)
  {
    assert JoinedTo([a, b], 1) == a.Text() && Joined([a, b]) == a.Text() + [SEMICOLON] + b.Text();
    MarginsIs(k, t, [a, b], Count([a, b]), Pair(a, b), Place(a), if b.Empty? then t.s.rows else Place(b) + 1);
  }

  /** ESC [ a r ends it at the last row. */
  lemma TopMarginWritten(k: Tables, t: Term, p: Parameter)
    requires k.Valid() && t.Valid() && Plain(t) && |p.Text()| < TWO_64 - 4
    ensures PutAll(k, t, [ESC, BRACKET] + p.Text() + [0x72]).s == WithRegion(t.s, Place(p), t.s.rows)
  {
    assert Joined([p]) == p.Text();
    MarginsIs(k, t, [p], Count([p]), Single(p), Place(p), t.s.rows);
  }

  // ---- Sequences that set fields of the parser ----

  /** The parser at the final byte, with all values in place. */
  function Complete(t: Term, w: seq<int>, n: nat, offset: nat): Term {
    t.(v := w, p := t.p.(escape := On, controlSequence := On, escValuesI := n, rrr := Off, escapeOffset := offset))
  }

  lemma FinalInside(k: Tables, t: Term, v: seq<int>, i: nat, rrr: Flag, n: nat, offset: nat, f: Byte, w: seq<int>)
    requires k.Valid() && t.Valid() && AtRest(t) && CsiValues(v) && t.p.decPrivate.Off?
    requires Indexed(i, rrr) && n == (if rrr.On? then i + 1 else i) && w == Defaulted(v, n, Default(f))
    ensures Inside(t, v, i, rrr, offset).Valid() && Complete(t, w, n, offset).Valid()
    ensures FinalByte(k, Inside(t, v, i, rrr, offset), f) == Closed(Csi(k, Complete(t, w, n, offset), f))
  {
    InsideValid(t, v, i, rrr, offset);
  }

  lemma SequenceIs(k: Tables, t: Term, ps: seq<Parameter>, f: Byte, n: nat, w: seq<int>, offset: nat)
    requires k.Valid() && t.Valid() && Plain(t) && ps != [] && |Joined(ps)| < TWO_64 - 4
    requires IsFinal(f) && (Joined(ps) == [] ==> f != BRACKET)
    requires n == Count(ps) && w == Defaulted(Kept(ps, |ps|), n, Default(f)) && offset == |Joined(ps)| + 2
    ensures Complete(t, w, n, offset).Valid()
    ensures PutAll(k, t, [ESC, BRACKET] + Joined(ps) + [f]) == Closed(Csi(k, Complete(t, w, n, offset), f))
  {
    SequenceRuns(k, t, ps, f);
    FinalInside(k, t, Kept(ps, |ps|), Index(|ps|), Reading(ps, |ps|), n, offset, f, w);
  }

  lemma SingleIs(k: Tables, t: Term, p: Parameter, f: Byte, n: nat, w: seq<int>, offset: nat)
    requires k.Valid() && t.Valid() && Plain(t) && |p.Text()| < TWO_64 - 4 && IsFinal(f) && f != BRACKET && Default(f) == 1
    requires n == (if p.Empty? then 0 else 1) && w == Single(p) && offset == |p.Text()| + 2
    ensures Complete(t, w, n, offset).Valid()
    ensures PutAll(k, t, [ESC, BRACKET] + p.Text() + [f]) == Closed(Csi(k, Complete(t, w, n, offset), f))
  {
    assert Joined([p]) == p.Text();
    SequenceIs(k, t, [p], f, n, w, offset);
  }

  /** Everything but the values of the sequence and the fields that say how far it was read. */
  function Rest(t: Term): (Screen, Parser) {
    (t.s, t.p.(escValuesI := 0, rrr := Off, escapeOffset := 0))
  }

  lemma ModeSet(k: Tables, t: Term, w: seq<int>, n: nat, offset: nat, f: Byte, four: bool)
    requires k.Valid() && t.Valid() && Plain(t) && CsiValues(w) && n <= 1 && Complete(t, w, n, offset).Valid()
    requires (f as char == 'h' || f as char == 'l') && four == (n > 0 && w[0] == 4)
    ensures Rest(Closed(Csi(k, Complete(t, w, n, offset), f)))
         == Rest(if four then t.(p := t.p.(insertMode := if f as char == 'h' then On else Off)) else t)
  {
  }

  /** ESC [ 4 h switches insert mode on, ESC [ 4 l off; no other number has an effect. */
  lemma InsertModeWritten(k: Tables, t: Term, p: Parameter, f: Byte)
    requires k.Valid() && t.Valid() && Plain(t) && |p.Text()| < TWO_64 - 4 && (f as char == 'h' || f as char == 'l')
    ensures Rest(PutAll(k, t, [ESC, BRACKET] + p.Text() + [f]))
         == Rest(if p.Given? && p.n % TWO_32 == 4 then t.(p := t.p.(insertMode := if f as char == 'h' then On else Off)) else t)
  {
    var n := if p.Empty? then 0 else 1;
    SingleIs(k, t, p, f, n, Single(p), |p.Text()| + 2);
    ModeSet(k, t, Single(p), n, |p.Text()| + 2, f, p.Given? && p.n % TWO_32 == 4);
  }

  /** ESC [ s keeps the position of the cursor; ESC [ u goes to the position kept last. */
  lemma PositionSaved(k: Tables, t: Term)
    requires k.Valid() && t.Valid() && Plain(t)
    ensures Rest(PutAll(k, t, [ESC, BRACKET] + [] + [0x73]))
         == Rest(t.(p := t.p.(savedCursorX := t.s.CursorX(), savedCursorY := t.s.CursorY())))
  {
    SingleIs(k, t, Empty, 0x73, 0, Single(Empty), 2);
  }

  lemma PositionRestored(k: Tables, t: Term, u: Term)
    requires k.Valid() && t.Valid() && Plain(t) && u.Valid() && Plain(u) && u.s.rows == t.s.rows && u.s.cols == t.s.cols
    requires var r := PutAll(k, t, [ESC, BRACKET] + [] + [0x73]);
      u.p.savedCursorX == r.p.savedCursorX && u.p.savedCursorY == r.p.savedCursorY
    ensures Rest(PutAll(k, u, [ESC, BRACKET] + [] + [0x75])) == Rest(u.(s := u.s.(x := t.s.CursorX(), y := t.s.CursorY())))
  {
    PositionSaved(k, t);
    PositionTaken(k, u, t.s.CursorX(), t.s.CursorY());
  }

  lemma PositionTaken(k: Tables, u: Term, x: nat, y: nat)
    requires k.Valid() && u.Valid() && Plain(u) && u.p.savedCursorX == x < u.s.cols && u.p.savedCursorY == y < u.s.rows
    ensures Rest(PutAll(k, u, [ESC, BRACKET] + [] + [0x75])) == Rest(u.(s := u.s.(x := x, y := y)))
  {
    SingleIs(k, u, Empty, 0x75, 0, Single(Empty), 2);
  }

  // ---- Private sequences ----

  lemma MarkerRead(k: Tables, t: Term, u: Term, ps: seq<Parameter>)
    requires k.Valid() && t.Valid() && AtRest(t) && u == t.(p := t.p.(decPrivate := On))
    ensures u.Valid() && PutAll(k, t, [ESC, BRACKET, MARKER]) == Begun(u, ps, 0, 2)
  {
    PutEscape(k, t);
    PutBracket(k, t);
    InsideValid(t, Kept([], 0), 0, Off, 1);
    PutMarker(k, t);
    TwoPut(k, t, ESC, BRACKET);
    PutAllAppend(k, t, [ESC, BRACKET], [MARKER]);
    OnePut(k, Inside(t, Kept([], 0), 0, Off, 1), MARKER);
    assert [ESC, BRACKET] + [MARKER] == [ESC, BRACKET, MARKER];
    assert Kept(ps, 0) == Kept([], 0);
  }

  lemma MarkedParameters(k: Tables, u: Term, ps: seq<Parameter>, f: Byte)
    requires k.Valid() && u.Valid() && AtRest(u) && ps != [] && |Joined(ps)| < TWO_64 - 5
    ensures Begun(u, ps, 0, 2).Valid() && Read(u, ps, |ps|, |Joined(ps)| + 2).Valid()
    ensures PutAll(k, Begun(u, ps, 0, 2), Joined(ps) + [f]) == Put(k, Read(u, ps, |ps|, |Joined(ps)| + 2), f)
  {
    var start := Begun(u, ps, 0, 2);
    InsideValid(u, Kept(ps, 0), 0, Off, 2);
    InsideValid(u, Kept(ps, |ps|), Index(|ps|), Reading(ps, |ps|), |Joined(ps)| + 2);
    ReadDigit(k, u);
    ReadSemicolon(k, u);
    NumbersRead(Step(k), u, start, ps, |ps|, Joined(ps), 2, |Joined(ps)| + 2);
    RunLast(Step(k), start, Joined(ps), f);
    PutAllIsRun(k, start, Joined(ps) + [f]);
    StepIsPut(k, Read(u, ps, |ps|, |Joined(ps)| + 2), f);
  }

  /** ESC [ ? p1 ; p2 ; ... f: only 25 h and 25 l act, on the cursor. */
  lemma PrivateWritten(k: Tables, t: Term, u: Term, ps: seq<Parameter>, f: Byte, n: nat, w: seq<int>, offset: nat)
    requires k.Valid() && t.Valid() && AtRest(t) && u == t.(p := t.p.(decPrivate := On))
    requires ps != [] && |Joined(ps)| < TWO_64 - 5 && IsFinal(f)
    requires n == Count(ps) && w == Defaulted(Kept(ps, |ps|), n, Default(f)) && offset == |Joined(ps)| + 3
    ensures PutAll(k, t, [ESC, BRACKET, MARKER] + (Joined(ps) + [f]))
         == t.(s := Switched(t.s, f, n, w), v := w,
               p := t.p.(escValuesI := n, rrr := Off, escapeOffset := offset, decPrivate := Off))
  {
    MarkerRead(k, t, u, ps);
    PutAllAppend(k, t, [ESC, BRACKET, MARKER], Joined(ps) + [f]);
    MarkedParameters(k, u, ps, f);
    PutFinal(k, u, Kept(ps, |ps|), Index(|ps|), Reading(ps, |ps|), |Joined(ps)| + 2, f);
    MarkedFinalInside(k, u, Kept(ps, |ps|), Index(|ps|), Reading(ps, |ps|), n, offset, f, w);
  }

  /** ESC [ ? 25 h shows the cursor, ESC [ ? 25 l hides it; no other number has an effect. */
  lemma CursorSwitched(k: Tables, t: Term, p: Parameter, f: Byte)
    requires k.Valid() && t.Valid() && Plain(t) && |p.Text()| < TWO_64 - 5 && (f as char == 'h' || f as char == 'l')
    ensures var shown := if p.Given? && p.n % TWO_32 == 25 then f as char == 'h' else t.s.cursorEnabled;
      Rest(PutAll(k, t, [ESC, BRACKET, MARKER] + (p.Text() + [f]))) == Rest(t.(s := t.s.(cursorEnabled := shown)))
  {
    assert Joined([p]) == p.Text();
    PrivateWritten(k, t, t.(p := t.p.(decPrivate := On)), [p], f, Count([p]), Single(p), |p.Text()| + 3);
  }

  // ---- Sequences that do nothing ----

  lemma BracketPut(k: Tables, t: Term)
    requires k.Valid() && t.Valid() && AtRest(t)
    ensures PutAll(k, t, [ESC, BRACKET, BRACKET]) == t.(v := Kept([], 0), p := t.p.(escValuesI := 0, rrr := Off, escapeOffset := 2,
                                                                                     discardNext := On))
  {
    PutEscape(k, t);
    PutBracket(k, t);
    TwoPut(k, t, ESC, BRACKET);
    PutAllAppend(k, t, [ESC, BRACKET], [BRACKET]);
    PutInside(k, t, Kept([], 0), 0, Off, 1, BRACKET);
    OnePut(k, Inside(t, Kept([], 0), 0, Off, 1), BRACKET);
    assert [ESC, BRACKET] + [BRACKET] == [ESC, BRACKET, BRACKET];
  }

  /** ESC [ [ takes one byte more, whatever it is, and does nothing. */
  lemma DoubleBracketSwallowed(k: Tables, t: Term, c: Byte)
    requires k.Valid() && t.Valid() && AtRest(t)
    ensures Rest(PutAll(k, t, [ESC, BRACKET, BRACKET, c])) == Rest(t.(p := t.p.(oscEscape := Off)))
  {
    BracketPut(k, t);
    PutAllAppend(k, t, [ESC, BRACKET, BRACKET], [c]);
    OnePut(k, PutAll(k, t, [ESC, BRACKET, BRACKET]), c);
    assert [ESC, BRACKET, BRACKET] + [c] == [ESC, BRACKET, BRACKET, c];
  }

  /** NUL, BEL and DEL do nothing either. */
  lemma NothingWritten(k: Tables, t: Term, c: Byte)
    requires k.Valid() && t.Valid() && AtRest(t) && (c == 0 || c == 7 || c == 0x7f)
    ensures PutAll(k, t, [c]) == t
  {
    OnePut(k, t, c);
    assert t.(p := t.p.(unicodeRemaining := 0)) == t;
  }

  // ---- Colours ----

  /** Where the colour of the text goes, and that of the ground behind it: in reverse video the other way round. */
  function OnText(q: Pen, c: Colour): Pen {
    if q.a.reverse then q.(bg := c) else q.(fg := c)
  }

  function OnGround(q: Pen, c: Colour): Pen {
    if q.a.reverse then q.(fg := c) else q.(bg := c)
  }

  /** What one number of ESC [ ... m does to rendition and colours. */
  function Rendered(k: Tables, q: Pen, c: nat): Pen
    requires k.Valid() && q.a.Valid()
  {
    var a := q.a;
    if c == 0 then Pen(Attributes(false, false, false, -1, -1), k.defaultFg, 0xffff_ffff)
    else if 30 <= c <= 37 then OnText(q.(a := a.(primary := c - 30)), if a.bold then k.bright[c - 30] else k.ansi[c - 30])
    else if 90 <= c <= 97 then OnText(q.(a := a.(primary := c - 90)), k.bright[c - 90])
    else if c == 39 then OnText(q.(a := a.(primary := -1)), if a.bold then k.defaultFgBright else k.defaultFg)
    else if 40 <= c <= 47 then OnGround(q.(a := a.(background := c - 40)), if a.bgBold then k.bright[c - 40] else k.ansi[c - 40])
    else if 100 <= c <= 107 then OnGround(q.(a := a.(background := c - 100)), k.bright[c - 100])
    else if c == 49 then OnGround(q.(a := a.(background := -1)), if a.bgBold then k.defaultBgBright else 0xffff_ffff)
    else if c == 1 then
      OnText(q.(a := a.(bold := true)), if a.primary >= 0 then k.bright[a.primary]
                                      else if a.reverse then k.defaultBgBright else k.defaultFgBright)
    else if c == 22 then
      OnText(q.(a := a.(bold := false)), if a.primary >= 0 then k.ansi[a.primary]
                                       else if a.reverse then 0xffff_ffff else k.defaultFg)
    else if c == 5 then
      OnGround(q.(a := a.(bgBold := true)), if a.background >= 0 then k.bright[a.background]
                                          else if a.reverse then k.defaultFgBright else k.defaultBgBright)
    else if c == 25 then
      OnGround(q.(a := a.(bgBold := false)), if a.background >= 0 then k.ansi[a.background]
                                           else if a.reverse then k.defaultFg else 0xffff_ffff)
    else if (c == 7 && !a.reverse) || (c == 27 && a.reverse) then Pen(a.(reverse := c == 7), q.bg, q.fg)
    else q
  }

  lemma RendersOne(k: Tables, q: Pen, c: nat)
    requires k.Valid() && q.a.Valid()
    ensures SgrOne(k, q, c) == Rendered(k, q, c)
  {
  }

  lemma PenSet(k: Tables, t: Term, w: seq<int>, n: nat, offset: nat, q: Pen)
    requires k.Valid() && t.Valid() && Plain(t) && CsiValues(w) && n <= MAX_ESC_VALUES && Complete(t, w, n, offset).Valid()
    requires q == Sgr(k, t.CurrentPen(), w, n)
    ensures Rest(Closed(Csi(k, Complete(t, w, n, offset), 0x6d))) == Rest(t.WithPen(q))
  {
  }

  /** ESC [ n m with any number but 38 and 48, or none, which stands for 0. */
  lemma ColourWritten(k: Tables, t: Term, p: Parameter)
    requires k.Valid() && t.Valid() && Plain(t) && |p.Text()| < TWO_64 - 4
    requires p.Given? ==> p.n % TWO_32 != 38 && p.n % TWO_32 != 48
    ensures Rest(PutAll(k, t, [ESC, BRACKET] + p.Text() + [0x6d]))
         == Rest(t.WithPen(Rendered(k, t.CurrentPen(), if p.Empty? then 0 else p.n % TWO_32)))
  {
    var n, w, c := if p.Empty? then 0 else 1, Single(p), if p.Empty? then 0 else p.n % TWO_32;
    SingleIs(k, t, p, 0x6d, n, w, |p.Text()| + 2);
    RendersOne(k, t.CurrentPen(), c);
    OneRendered(k, t.CurrentPen(), w, n, c);
    PenSet(k, t, w, n, |p.Text()| + 2, Rendered(k, t.CurrentPen(), c));
  }

  lemma OneRendered(k: Tables, q: Pen, w: seq<int>, n: nat, c: nat)
    requires k.Valid() && q.a.Valid() && CsiValues(w) && n <= 1 && c == (if n == 0 then 0 else w[0]) && c != 38 && c != 48
    ensures Sgr(k, q, w, n) == SgrOne(k, q, c)
  {
  }

  /** The effect of the first n numbers, one after the other. */
  function RenderedAll(k: Tables, q: Pen, ps: seq<Parameter>, n: nat): (r: Pen)
    requires k.Valid() && q.a.Valid() && n <= |ps|
    ensures r.a.Valid()
  {
    if n == 0 then q else Rendered(k, RenderedAll(k, q, ps, n - 1), ps[n - 1].Value())
  }

  lemma {:induction false} RendersAll(k: Tables, q: Pen, ps: seq<Parameter>, w: seq<int>, n: nat, i: nat)
    requires k.Valid() && q.a.Valid() && i <= n == |ps| <= |w| && CsiValues(w)
    requires forall j :: 0 <= j < n ==> w[j] == ps[j].Value() && w[j] != 38 && w[j] != 48
    ensures SgrFrom(k, RenderedAll(k, q, ps, i), w, n, i) == RenderedAll(k, q, ps, n)
    decreases n - i
  {
    if i < n {
      RendersOne(k, RenderedAll(k, q, ps, i), w[i]);
      RendersAll(k, q, ps, w, n, i + 1);
    }
  }

  /** ESC [ n1 ; n2 ; ... m with up to sixteen such numbers is one after the other. */
  lemma ColoursInTurn(k: Tables, t: Term, ps: seq<Parameter>)
    requires k.Valid() && t.Valid() && Plain(t) && 1 <= |ps| <= 16 && |Joined(ps)| < TWO_64 - 4
    requires forall i :: 0 <= i < |ps| ==> ps[i].Given? && ps[i].Value() != 38 && ps[i].Value() != 48
    ensures Rest(PutAll(k, t, [ESC, BRACKET] + Joined(ps) + [0x6d]))
         == Rest(t.WithPen(RenderedAll(k, t.CurrentPen(), ps, |ps|)))
  {
    var n, w := |ps|, Defaulted(Kept(ps, |ps|), |ps|, 1);
    SequenceIs(k, t, ps, 0x6d, n, w, |Joined(ps)| + 2);
    RendersAll(k, t.CurrentPen(), ps, w, n, 0);
    PenSet(k, t, w, n, |Joined(ps)| + 2, RenderedAll(k, t.CurrentPen(), ps, n));
  }

  /** Colour c of the 256: the eight, the eight bright ones, and the rest of the palette; none above. */
  function Paletted(k: Tables, before: Colour, c: nat): Colour
    requires k.Valid()
  {
    if c < 8 then k.ansi[c] else if c < 16 then k.bright[c - 8] else if c < 256 then k.palette(c - 16) else before
  }

  /** Colour c for the foreground (38) or the background (48). */
  function Coloured(s: Screen, side: nat, c: Colour): Screen {
    if side == 38 then s.(fg := c) else s.(bg := c)
  }

  /** A sequence of given numbers that ends in one colour. */
  lemma ColoursWritten(k: Tables, t: Term, ps: seq<Parameter>, w: seq<int>, side: nat, c: Colour)
    requires k.Valid() && t.Valid() && Plain(t) && 1 <= |ps| <= 16 && w == Kept(ps, |ps|)
    requires forall i :: 0 <= i < |ps| ==> ps[i].Given? && ps[i].n < TWO_32
    requires var q := t.CurrentPen();
      Sgr(k, q, Defaulted(w, |ps|, 1), |ps|) == if side == 38 then q.(fg := c) else q.(bg := c)
    ensures Rest(PutAll(k, t, [ESC, BRACKET] + Joined(ps) + [0x6d])) == Rest(t.(s := Coloured(t.s, side, c)))
  {
    ShortText(ps, |ps|);
    var n, d, offset := |ps|, Defaulted(w, |ps|, 1), |Joined(ps)| + 2;
    SequenceIs(k, t, ps, 0x6d, n, d, offset);
    PenSet(k, t, d, n, offset, Sgr(k, t.CurrentPen(), d, n));
  }

  /** ESC [ 38 ; 5 ; c m and ESC [ 48 ; 5 ; c m set the foreground and the background, reverse video or not. */
  lemma PaletteWritten(k: Tables, t: Term, side: nat, c: nat)
    requires k.Valid() && t.Valid() && Plain(t) && (side == 38 || side == 48) && c < TWO_32
    ensures Rest(PutAll(k, t, [ESC, BRACKET] + Joined([Given(side), Given(5), Given(c)]) + [0x6d]))
         == Rest(t.(s := Coloured(t.s, side, Paletted(k, if side == 38 then t.s.fg else t.s.bg, c))))
  {
    var ps := [Given(side), Given(5), Given(c)];
    var w := Kept(ps, 3);
    PaletteChosen(k, t.CurrentPen(), Defaulted(w, 3, 1), side, c);
    ColoursWritten(k, t, ps, w, side, Paletted(k, if side == 38 then t.s.fg else t.s.bg, c));
  }

  lemma PaletteChosen(k: Tables, q: Pen, w: seq<int>, side: nat, c: nat)
    requires k.Valid() && q.a.Valid() && CsiValues(w) && w[0] == side && w[1] == 5 && w[2] == c && (side == 38 || side == 48)
    ensures Sgr(k, q, w, 3) == if side == 38 then q.(fg := Paletted(k, q.fg, c)) else q.(bg := Paletted(k, q.bg, c))
  {
    assert SgrFrom(k, Extended(k, q, side == 38, c), w, 3, 3) == Extended(k, q, side == 38, c);
  }

  /** ESC [ 38 ; 2 ; r ; g ; b m and ESC [ 48 ; 2 ; r ; g ; b m. */
  lemma RgbWritten(k: Tables, t: Term, side: nat, r: nat, g: nat, b: nat)
    requires k.Valid() && t.Valid() && Plain(t) && (side == 38 || side == 48) && r < TWO_32 && g < TWO_32 && b < TWO_32
    ensures Rest(PutAll(k, t, [ESC, BRACKET] + Joined([Given(side), Given(2), Given(r), Given(g), Given(b)]) + [0x6d]))
         == Rest(t.(s := Coloured(t.s, side, k.rgb(r, g, b))))
  {
    var ps := [Given(side), Given(2), Given(r), Given(g), Given(b)];
    var w := Kept(ps, 5);
    RgbChosen(k, t.CurrentPen(), Defaulted(w, 5, 1), side, r, g, b);
    ColoursWritten(k, t, ps, w, side, k.rgb(r, g, b));
  }

  lemma RgbChosen(k: Tables, q: Pen, w: seq<int>, side: nat, r: nat, g: nat, b: nat)
    requires k.Valid() && q.a.Valid() && CsiValues(w) && w[0] == side && w[1] == 2 && (side == 38 || side == 48)
    requires w[2] == r && w[3] == g && w[4] == b
    ensures Sgr(k, q, w, 5) == if side == 38 then q.(fg := k.rgb(r, g, b)) else q.(bg := k.rgb(r, g, b))
  {
    var p := if side == 38 then q.(fg := k.rgb(r, g, b)) else q.(bg := k.rgb(r, g, b));
    assert SgrFrom(k, p, w, 5, 5) == p;
  }

  /** Few numbers of 32 bits are short. */
  lemma {:induction false} ShortText(ps: seq<Parameter>, n: nat)
    requires n <= |ps| <= 16 && forall i :: 0 <= i < |ps| ==> ps[i].Given? && ps[i].n < TWO_32
    ensures |JoinedTo(ps, n)| <= n * (TWO_32 + 1)
  {
    if n > 1 {
      ShortText(ps, n - 1);
    }
  }

  /** Bold and reverse video may be asked for in either order if and only if a text colour was chosen or both bright
      defaults are the same colour: in reverse video bold takes the default of the ground for that of the text. */
  lemma BoldAndReverse(k: Tables, q: Pen)
    requires k.Valid() && q.a.Valid() && !q.a.reverse
    ensures (Rendered(k, Rendered(k, q, 7), 1) == Rendered(k, Rendered(k, q, 1), 7))
         == (q.a.primary >= 0 || k.defaultFgBright == k.defaultBgBright)
  {
  }

  // ---- Everything at once ----

  /** ESC c blanks the screen in the present colours, which it keeps, and puts all else but the saved state back to what
      a new terminal has. */
  lemma ResetWritten(k: Tables, t: Term)
    requires k.Valid() && t.Valid() && AtRest(t)
    ensures var r := PutAll(k, t, [ESC, 0x63]);
      && r.s == t.s.(view := seq(t.s.rows, _ => seq(t.s.cols, _ => Cell(0x20, t.s.fg, t.s.bg))), x := 0, y := 0,
                     top := 0, bottom := t.s.rows, cursorEnabled := true)
      && r.p == InitialParser().(codePoint := t.p.codePoint, savedA := t.p.savedA, savedCharset := t.p.savedCharset)
  {
    EscapePut(k, t, 0x63);
    assert BlankRow(t.s.cols, t.s.Blank()) == seq(t.s.cols, _ => Cell(0x20, t.s.fg, t.s.bg));
    assert seq(t.s.rows, _ => BlankRow(t.s.cols, t.s.Blank()))
        == seq(t.s.rows, _ => seq(t.s.cols, _ => Cell(0x20, t.s.fg, t.s.bg)));
  }
}
