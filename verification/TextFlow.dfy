/**
 Plain text on an unbounded roll of paper: what the terminal shows is the end of the roll.

 The reference model never forgets a line and has no scrolling.  It wraps late: a full line is left only
 when the next character needs room.  The theorem holds for every text exactly on terminals that are at
 least as wide as they are high, because the source clamps the row after a wrap against the number of columns.
 */
module TextFlow {
  import opened Arithmetic
  import opened Screens
  import opened Parsers

  datatype Paper = Paper(lines: seq<Row>, line: nat, col: nat)

  const LF: Byte := 0x0a
  const CR: Byte := 0x0d

  predicate IsText(c: Byte) {
    c == LF || c == CR || 0x20 <= c <= 0x7e
  }

  predicate AllText(bytes: seq<Byte>) {
    forall i :: 0 <= i < |bytes| ==> IsText(bytes[i])
  }

  // ---- The reference model ----

  /** To the start of the next line, taking a blank one from the roll at its end. */
  function NextLine(p: Paper, blank: Row): Paper {
    Paper(if p.line + 1 >= |p.lines| then p.lines + [blank] else p.lines, p.line + 1, 0)
  }

  function Type(p: Paper, c: Byte, cols: nat, pen: Cell): Paper {
    var blank := BlankRow(cols, pen);
    if c == LF then NextLine(p, blank)
    else if c == CR then p.(col := 0)
    else
      var q := if p.col >= cols then NextLine(p, blank) else p;
      q.(lines := Poke(q.lines, q.col, q.line, pen.(c := c)), col := q.col + 1)
  }

  function TypeAll(p: Paper, bytes: seq<Byte>, cols: nat, pen: Cell): Paper {
    if bytes == [] then p
    else Type(TypeAll(p, bytes[..|bytes| - 1], cols, pen), bytes[|bytes| - 1], cols, pen)
  }

  // ---- The terminal on text ----

  /** Nothing but text has effect on a parser at rest with the default character set. */
  predicate TextMode(t: Term) {
    && t.p.escape.Off? && t.p.discardNext.Off? && t.p.unicodeRemaining == 0 && t.p.gSelect == 0
    && t.p.insertMode.Off? && t.p.onlcr.On?
    && (if t.p.currentCharset == 0 then t.p.g0Special else t.p.g1Special).Off?
  }

  function TextStep(s: Screen, c: Byte): (r: Screen)
    requires s.Valid() && s.rows < TWO_32
    ensures r.Valid() && SameSetup(s, r)
  {
    if c == LF then LineFeed(s, 0)
    else if c == CR then SetCursor(s, 0, s.CursorY())
    else RawPut(s, c)
  }

  function TextAll(s: Screen, bytes: seq<Byte>): (r: Screen)
    requires s.Valid() && s.rows < TWO_32
    ensures r.Valid() && SameSetup(s, r)
  {
    if bytes == [] then s else TextStep(TextAll(s, bytes[..|bytes| - 1]), bytes[|bytes| - 1])
  }

  /** One byte more, on the terminal and on paper. */
  lemma OneMore(s: Screen, p: Paper, bytes: seq<Byte>, c: Byte, pen: Cell)
    requires s.Valid() && s.rows < TWO_32
    ensures TextAll(s, bytes + [c]) == TextStep(TextAll(s, bytes), c)
    ensures TypeAll(p, bytes + [c], s.cols, pen) == Type(TypeAll(p, bytes, s.cols, pen), c, s.cols, pen)
  {
    assert (bytes + [c])[..|bytes|] == bytes;
  }

  lemma PutText(k: Tables, t: Term, c: Byte)
    requires k.Valid() && t.Valid() && TextMode(t) && IsText(c)
    ensures Put(k, t, c) == t.(s := TextStep(t.s, c))
  {
  }

  lemma {:induction false} RunText(f: (Term, Byte) -> Term, t: Term, bytes: seq<Byte>)
    requires t.Valid() && TextMode(t) && AllText(bytes)
    requires forall s: Screen, c: Byte :: s.Valid() && SameSetup(t.s, s) && IsText(c) ==>
      f(t.(s := s), c) == t.(s := TextStep(s, c))
    ensures Run(f, t, bytes) == t.(s := TextAll(t.s, bytes))
    decreases |bytes|
  {
    if bytes != [] {
      var n := |bytes| - 1;
      assert bytes == bytes[..n] + [bytes[n]];
      RunText(f, t, bytes[..n]);
      RunLast(f, t, bytes[..n], bytes[n]);
    }
  }

  /** On text the terminal changes its screen only, one step per byte. */
  lemma PutAllText(k: Tables, t: Term, bytes: seq<Byte>)
    requires k.Valid() && t.Valid() && TextMode(t) && AllText(bytes)
    ensures PutAll(k, t, bytes) == t.(s := TextAll(t.s, bytes))
  {
    forall s: Screen, c: Byte | s.Valid() && SameSetup(t.s, s) && IsText(c)
      ensures Step(k)(t.(s := s), c) == t.(s := TextStep(s, c))
    {
      PutText(k, t.(s := s), c);
    }
    RunText(Step(k), t, bytes);
    PutAllIsRun(k, t, bytes);
  }

  // ---- The correspondence ----

  /** A terminal ready for text: full-height margins, scrolling on, the cursor on the screen or just past a line. */
  ghost predicate Ready(s: Screen) {
    s.Valid() && s.scrollEnabled && s.top == 0 && s.bottom == s.rows < TWO_32 && s.x <= s.cols && s.y < s.rows
  }

  /** The screen shows the last rows of the paper, with the cursor at the same place. */
  ghost predicate Shows(s: Screen, p: Paper) {
    && |p.lines| >= s.rows && p.line < |p.lines|
    && s.view == p.lines[|p.lines| - s.rows..]
    && s.y == p.line - (|p.lines| - s.rows) && s.x == p.col
  }

  /** A roll that begins with what is on the screen. */
  function PaperOf(s: Screen): Paper {
    Paper(s.view, s.y, s.x)
  }

  /** Scrolling a full-height region is what taking a new line from the roll looks like. */
  lemma ScrollShows(s: Screen, lines: seq<Row>)
    requires Ready(s) && |lines| >= s.rows && s.view == lines[|lines| - s.rows..]
    ensures var longer := lines + [BlankRow(s.cols, s.Blank())];
      ScrollUp(s).view == longer[|longer| - s.rows..]
  {
  }

  /** A new line, where the last row scrolls the screen and the others do not. */
  lemma LineTaken(s: Screen, p: Paper, view: seq<Row>)
    requires Ready(s) && Shows(s, p) && view == if s.y == s.rows - 1 then ScrollUp(s).view else s.view
    ensures var q := NextLine(p, BlankRow(s.cols, s.Blank()));
      && |q.lines| >= s.rows && q.line < |q.lines| && view == q.lines[|q.lines| - s.rows..]
      && q.line - (|q.lines| - s.rows) == (if s.y == s.rows - 1 then s.y else s.y + 1) && q.col == 0
  {
    ScrollShows(s, p.lines);
  }

  lemma LineFeedShows(s: Screen, p: Paper)
    requires Ready(s) && Shows(s, p)
    ensures Ready(LineFeed(s, 0)) && Shows(LineFeed(s, 0), NextLine(p, BlankRow(s.cols, s.Blank())))
  {
    LineTaken(s, p, LineFeed(s, 0).view);
  }

  lemma WrapShows(s: Screen, p: Paper)
    requires Ready(s) && Shows(s, p) && s.rows <= s.cols && s.x >= s.cols
    ensures Ready(Wrapped(s)) && Shows(Wrapped(s), NextLine(p, BlankRow(s.cols, s.Blank())))
  {
    LineTaken(s, p, Wrapped(s).view);
  }

  lemma PokeShows(s: Screen, p: Paper, c: Byte)
    requires Ready(s) && Shows(s, p) && s.x < s.cols
    ensures var ch := s.Blank().(c := c);
      var r := s.(view := Poke(s.view, s.x, s.y, ch), x := s.x + 1);
      Ready(r) && Shows(r, p.(lines := Poke(p.lines, p.col, p.line, ch), col := p.col + 1))
  {
    var before := |p.lines| - s.rows;
    assert p.lines[p.line] == s.view[s.y];
    assert p.lines[p.line := s.view[s.y][s.x := s.Blank().(c := c)]][before..]
        == s.view[s.y := s.view[s.y][s.x := s.Blank().(c := c)]];
  }

  /** A character typed where there is room in the line. */
  lemma TypedInLine(s: Screen, p: Paper, c: Byte, r: Screen, q: Paper)
    requires Ready(s) && Shows(s, p) && s.x < s.cols && 0x20 <= c
    requires r == s.(view := Poke(s.view, s.x, s.y, s.Blank().(c := c)), x := s.x + 1)
    requires q == p.(lines := Poke(p.lines, p.col, p.line, s.Blank().(c := c)), col := p.col + 1)
    ensures Ready(r) && Shows(r, q)
  {
    PokeShows(s, p, c);
  }

  lemma CharacterShows(s: Screen, p: Paper, c: Byte)
    requires Ready(s) && Shows(s, p) && 0x20 <= c <= 0x7e && (s.x < s.cols || s.rows <= s.cols)
    ensures Ready(RawPut(s, c)) && Shows(RawPut(s, c), Type(p, c, s.cols, s.Blank()))
  {
    if s.x >= s.cols {
      var below := NextLine(p, BlankRow(s.cols, s.Blank()));
      WrapShows(s, p);
      TypedInLine(Wrapped(s), below, c, RawPut(s, c), Type(p, c, s.cols, s.Blank()));
    } else {
      TypedInLine(s, p, c, RawPut(s, c), Type(p, c, s.cols, s.Blank()));
    }
  }

  lemma TypeShows(s: Screen, p: Paper, c: Byte)
    requires Ready(s) && Shows(s, p) && IsText(c) && (c == LF || c == CR || s.x < s.cols || s.rows <= s.cols)
    ensures Ready(TextStep(s, c)) && Shows(TextStep(s, c), Type(p, c, s.cols, s.Blank()))
  {
    if c == LF {
      LineFeedShows(s, p);
    } else if c != CR {
      CharacterShows(s, p, c);
    }
  }

  lemma {:induction false} TextShows(s: Screen, bytes: seq<Byte>)
    requires Ready(s) && AllText(bytes) && s.rows <= s.cols
    ensures Ready(TextAll(s, bytes)) && Shows(TextAll(s, bytes), TypeAll(PaperOf(s), bytes, s.cols, s.Blank()))
    decreases |bytes|
  {
    if bytes != [] {
      var n := |bytes| - 1;
      TextShows(s, bytes[..n]);
      TypeShows(TextAll(s, bytes[..n]), TypeAll(PaperOf(s), bytes[..n], s.cols, s.Blank()), bytes[n]);
    }
  }

  // ---- Exactly the terminals that are not higher than wide ----

  ghost predicate FlowsLikePaper(k: Tables, t: Term)
    requires k.Valid() && t.Valid()
  {
    forall bytes: seq<Byte> :: AllText(bytes) ==>
      Shows(PutAll(k, t, bytes).s, TypeAll(PaperOf(t.s), bytes, t.s.cols, t.s.Blank()))
  }

  /** n times the same byte. */
  function Times(n: nat, c: Byte): seq<Byte> {
    seq(n, _ => c)
  }

  /** Line feeds reach the last row and the roll's last line. */
  lemma {:induction false} FeedsToBottom(s: Screen, n: nat)
    requires Ready(s)
    ensures var r, p := TextAll(s, Times(n, LF)), TypeAll(PaperOf(s), Times(n, LF), s.cols, s.Blank());
      Ready(r) && Shows(r, p) && r.y == Min(s.y + n, s.rows - 1) && (n > 0 ==> r.x == 0)
  {
    if n > 0 {
      assert Times(n, LF)[..n - 1] == Times(n - 1, LF);
      FeedsToBottom(s, n - 1);
      TypeShows(TextAll(s, Times(n - 1, LF)), TypeAll(PaperOf(s), Times(n - 1, LF), s.cols, s.Blank()), LF);
    }
  }

  /** Then `n` characters fill the row without leaving it, while there is room. */
  lemma {:induction false} FillsRow(s: Screen, m: nat, n: nat)
    requires Ready(s) && s.rows <= m && n <= s.cols
    ensures var e := Times(m, LF) + Times(n, 0x41);
      var r, p := TextAll(s, e), TypeAll(PaperOf(s), e, s.cols, s.Blank());
      Ready(r) && Shows(r, p) && r.y == s.rows - 1 && r.x == n
  {
    if n == 0 {
      assert Times(m, LF) + Times(0, 0x41) == Times(m, LF);
      FeedsToBottom(s, m);
    } else {
      var d := Times(m, LF) + Times(n - 1, 0x41);
      OneTimeMore(m, n);
      FillsRow(s, m, n - 1);
      OneMore(s, PaperOf(s), d, 0x41, s.Blank());
      CharacterFills(TextAll(s, d), TypeAll(PaperOf(s), d, s.cols, s.Blank()), s.cols, s.Blank());
    }
  }

  lemma OneTimeMore(m: nat, n: nat)
    requires n >= 1
    ensures Times(m, LF) + Times(n, 0x41) == Times(m, LF) + Times(n - 1, 0x41) + [0x41]
    ensures Times(m, LF) + Times(0, 0x41) == Times(m, LF)
  {
  }

  lemma CharacterFills(s: Screen, p: Paper, cols: nat, pen: Cell)
    requires Ready(s) && Shows(s, p) && s.x < s.cols == cols && pen == s.Blank()
    ensures var r := TextStep(s, 0x41);
      Ready(r) && Shows(r, Type(p, 0x41, cols, pen)) && r.y == s.y && r.x == s.x + 1
  {
    TypeShows(s, p, 0x41);
  }

  /** On a terminal higher than wide one character more lands in row cols - 1 instead of the last row. */
  lemma WrapMisplaced(s: Screen, p: Paper, cols: nat, pen: Cell)
    requires Ready(s) && Shows(s, p) && s.rows > s.cols == cols && pen == s.Blank() && s.x == s.cols && s.y == s.rows - 1
    ensures !Shows(TextStep(s, 0x41), Type(p, 0x41, cols, pen))
  {
    var q := Type(p, 0x41, cols, pen);
    assert q.line == |q.lines| - 1;
    assert Wrapped(s).y == s.cols - 1;
  }

  lemma TextMisplaced(s: Screen)
    requires Ready(s) && s.rows > s.cols
    ensures var e := Times(s.rows, LF) + Times(s.cols, 0x41) + [0x41];
      AllText(e) && !Shows(TextAll(s, e), TypeAll(PaperOf(s), e, s.cols, s.Blank()))
  {
    FillsRow(s, s.rows, s.cols);
    TimesAreText(s.rows, s.cols);
    OneMoreMisplaced(s, Times(s.rows, LF) + Times(s.cols, 0x41));
  }

  lemma TimesAreText(m: nat, n: nat)
    ensures AllText(Times(m, LF) + Times(n, 0x41) + [0x41])
  {
  }

  lemma OneMoreMisplaced(s: Screen, d: seq<Byte>)
    requires Ready(s) && s.rows > s.cols
    requires var r := TextAll(s, d);
      Ready(r) && Shows(r, TypeAll(PaperOf(s), d, s.cols, s.Blank())) && r.y == s.rows - 1 && r.x == s.cols
    ensures !Shows(TextAll(s, d + [0x41]), TypeAll(PaperOf(s), d + [0x41], s.cols, s.Blank()))
  {
    OneMore(s, PaperOf(s), d, 0x41, s.Blank());
    WrapMisplaced(TextAll(s, d), TypeAll(PaperOf(s), d, s.cols, s.Blank()), s.cols, s.Blank());
  }

  /** Every text, of any length, ends with the last rows of the paper on the screen and the cursor in its place
      if and only if the terminal has no more rows than columns. */
  lemma FlowsExactlyWhenNotHigherThanWide(k: Tables, t: Term)
    requires k.Valid() && t.Valid() && TextMode(t) && Ready(t.s)
    ensures FlowsLikePaper(k, t) <==> t.s.rows <= t.s.cols
  {
    if t.s.rows <= t.s.cols {
      forall bytes: seq<Byte> | AllText(bytes)
        ensures Shows(PutAll(k, t, bytes).s, TypeAll(PaperOf(t.s), bytes, t.s.cols, t.s.Blank()))
      {
        PutAllText(k, t, bytes);
        TextShows(t.s, bytes);
      }
    } else {
      var e := Times(t.s.rows, LF) + Times(t.s.cols, 0x41) + [0x41];
      TextMisplaced(t.s);
      PutAllText(k, t, e);
    }
  }
}
