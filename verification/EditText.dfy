/**
 The editing control sequences as they are written: ESC [ n f, from the bytes to the edit of the screen.
 */
module EditText {
  import opened Arithmetic
  import opened BlankRuns
  import opened ControlText
  import opened DisplayEdits
  import opened Parsers
  import opened RowEdits
  import opened Screens

  const ICH: Byte := 0x40
  const ED: Byte := 0x4a
  const EL: Byte := 0x4b
  const IL: Byte := 0x4c
  const DL: Byte := 0x4d
  const DCH: Byte := 0x50
  const ECH: Byte := 0x58

  function Sequence(n: nat, f: Byte): seq<Byte> {
    [ESC, BRACKET] + Digits(n) + [f]
  }

  /** The screen once the sequence has been written. */
  function After(k: Tables, t: Term, n: nat, f: Byte): Screen
    requires k.Valid() && t.Valid()
  {
    PutAll(k, t, Sequence(n, f)).s
  }

  /** The values the sequence is run on. */
  function Values(n: nat, f: Byte): (v: seq<int>)
    ensures CsiValues(v) && v[0] == n % TWO_32
  {
    Defaulted(Kept([Given(n)], 1), 1, Default(f))
  }

  /** The screen inside a control sequence. */
  function Quiet(s: Screen): Screen {
    s.(scrollEnabled := false)
  }

  function Loud(s: Screen): Screen {
    s.(scrollEnabled := true)
  }

  /** The terminal is between characters, and no private marker was left set. */
  predicate Plain(t: Term) {
    AtRest(t) && t.p.decPrivate.Off?
  }

  lemma OneNumber(n: nat, f: Byte)
    requires n < TWO_32
    ensures Joined([Given(n)]) == Digits(n) && |Digits(n)| < TWO_64 - 4 && Digits(n) != [] && Count([Given(n)]) == 1
    ensures Sequence(n, f) == [ESC, BRACKET] + Joined([Given(n)]) + [f]
  {
  }

  lemma ScreenEdited(k: Tables, t: Term, n: nat, f: Byte)
    requires k.Valid() && t.Valid() && Plain(t) && n < TWO_32 && IsFinal(f) && !TouchesParser(f)
    ensures Editing(Quiet(t.s)) && After(k, t, n, f) == Loud(CsiScreen(Quiet(t.s), f, Values(n, f), 1))
  {
    OneNumber(n, f);
    ControlText.SequenceEdits(k, t, [Given(n)], f, 1, Values(n, f), |Digits(n)| + 2);
  }

  lemma ScreenIs(k: Tables, t: Term, n: nat, f: Byte, q: Screen, r: Screen)
    requires k.Valid() && t.Valid() && Plain(t) && n < TWO_32 && IsFinal(f) && !TouchesParser(f)
    requires q == Quiet(t.s) && Editing(q) && r == CsiScreen(q, f, Values(n, f), 1)
    ensures After(k, t, n, f) == Loud(r)
  {
    ScreenEdited(k, t, n, f);
  }

  // ---- The dispatch ----

  predicate Edits(f: Byte) {
    f == ICH || f == ED || f == EL || f == IL || f == DCH || f == ECH
  }

  /** What an editing byte does with its number. */
  function Edit(f: Byte, s: Screen, n: nat): Screen
    requires Editing(s)
  {
    var x, y := s.CursorX(), s.CursorY();
    if f == ICH then InsertChars(s, x, y, n)
    else if f == ED then EraseDisplay(s, x, y, n)
    else if f == EL then EraseLine(s, x, y, n)
    else if f == IL then InsertLines(s, y, n)
    else if f == DCH then DeleteChars(s, x, y, n)
    else EraseChars(s, x, y, n)
  }

  lemma Finals(f: Byte)
    requires Edits(f)
    ensures IsFinal(f) && !TouchesParser(f)
  {
  }

  lemma EditIs(f: Byte, s: Screen, v: seq<int>, n: nat, r: Screen)
    requires Edits(f) && Editing(s) && CsiValues(v) && v[0] == n && r == Edit(f, s, n)
    ensures CsiScreen(s, f, v, 1) == r
  {
  }

  lemma QuietEditing(t: Term, q: Screen)
    requires t.Valid() && q == Quiet(t.s)
    ensures Editing(q)
  {
  }

  lemma EditWritten(k: Tables, t: Term, n: nat, f: Byte, q: Screen, r: Screen)
    requires k.Valid() && t.Valid() && Plain(t) && n < TWO_32 && q == Quiet(t.s) && Editing(q)
    requires Edits(f) && r == Edit(f, q, n)
    ensures After(k, t, n, f) == Loud(r)
  {
    Finals(f);
    EditIs(f, q, Values(n, f), n, r);
    ScreenIs(k, t, n, f, q, r);
  }

  // ---- The private marker ----

  /** Where a marker was left set the sequence does nothing. */
  lemma EditSwallowed(k: Tables, t: Term, n: nat, f: Byte)
    requires k.Valid() && t.Valid() && AtRest(t) && t.p.decPrivate.On? && n < TWO_32 && Edits(f)
    ensures After(k, t, n, f) == t.s
  {
    Finals(f);
    OneNumber(n, f);
    SequenceSwallowed(k, t, [Given(n)], f, 1, Values(n, f), |Digits(n)| + 2);
  }

  /** As after ESC [ ? CAN. */
  lemma EditLost(k: Tables, t: Term, n: nat, f: Byte)
    requires k.Valid() && t.Valid() && AtRest(t) && n < TWO_32 && Edits(f)
    ensures PutAll(k, t, [ESC, BRACKET, MARKER, CAN] + Sequence(n, f)).s == t.s
  {
    MarkerLeft(k, t);
    PutAllAppend(k, t, [ESC, BRACKET, MARKER, CAN], Sequence(n, f));
    EditSwallowed(k, PutAll(k, t, [ESC, BRACKET, MARKER, CAN]), n, f);
  }

  // ---- Edits that are always exact ----

  /** ESC [ n @ with 1 <= n < 2^32 inserts min(n, cols - x) blanks at the cursor and drops the tail of the row. */
  lemma InsertWritten(k: Tables, t: Term, n: nat)
    requires k.Valid() && t.Valid() && Plain(t) && 1 <= n < TWO_32
    ensures var s := t.s;
      var x, y := s.CursorX(), s.CursorY();
      var m, row := Min(n, s.cols - x), s.view[y];
      After(k, t, n, ICH) == s.(view := s.view[y := row[..x] + Blanks(m, s.Blank()) + row[x..s.cols - m]], x := x, y := y)
  {
    var q := Quiet(t.s);
    QuietEditing(t, q);
    EditWritten(k, t, n, ICH, q, InsertChars(q, q.CursorX(), q.CursorY(), n));
    InsertExact(q, n);
  }

  /** ESC [ n L with 1 <= n < 2^32 inserts min(n, bottom - y) blank rows at the cursor row, margins and cursor kept. */
  lemma InsertLinesWritten(k: Tables, t: Term, n: nat)
    requires k.Valid() && t.Valid() && Plain(t) && 1 <= n < TWO_32
    ensures var s := t.s;
      var y, blank := s.CursorY(), BlankRow(s.cols, s.Blank());
      After(k, t, n, IL) == s.(view :=
        if y < s.bottom then RowsDown(s.view, y, s.bottom, Min(n, s.bottom - y), blank) else s.view[y := blank])
  {
    var s, q := t.s, Quiet(t.s);
    var y, blank := s.CursorY(), BlankRow(s.cols, s.Blank());
    var view := if y < s.bottom then RowsDown(s.view, y, s.bottom, Min(n, s.bottom - y), blank) else s.view[y := blank];
    hide RowsDown;
    QuietEditing(t, q);
    LinesInserted(q, n, view);
    ViewWritten(k, t, n, IL, q, view);
  }

  /** An edit that changes the cells alone. */
  lemma ViewWritten(k: Tables, t: Term, n: nat, f: Byte, q: Screen, view: seq<Row>)
    requires k.Valid() && t.Valid() && Plain(t) && n < TWO_32 && q == Quiet(t.s) && Editing(q)
    requires Edits(f) && Edit(f, q, n) == q.(view := view)
    ensures After(k, t, n, f) == t.s.(view := view)
  {
    hide Edit;
    EditWritten(k, t, n, f, q, q.(view := view));
  }

  lemma LinesInserted(q: Screen, n: nat, view: seq<Row>)
    requires Editing(q) && 1 <= n
    requires var y, blank := q.CursorY(), BlankRow(q.cols, q.Blank());
      view == if y < q.bottom then RowsDown(q.view, y, q.bottom, Min(n, q.bottom - y), blank) else q.view[y := blank]
    ensures Edit(IL, q, n) == q.(view := view)
  {
    InsertLinesExact(q, n);
  }

  lemma LinesDeleted(q: Screen, w: seq<int>, n: nat, m: nat, r: Screen)
    requires Editing(q) && CsiValues(w) && w[0] == n && m == Min(n, q.bottom - q.top)
    requires r == q.(view := RowsUp(q.view, q.top, q.bottom, m, BlankRow(q.cols, q.Blank())))
    ensures CsiScreen(q, DL, w, 1) == r
  {
    ScrolledUp(q, Min(n, q.rows));
  }

  /** ESC [ n M with 1 <= n < 2^32 moves the whole region up by min(n, bottom - top) rows, wherever the cursor is. */
  lemma DeleteLinesWritten(k: Tables, t: Term, n: nat)
    requires k.Valid() && t.Valid() && Plain(t) && 1 <= n < TWO_32
    ensures var s := t.s;
      After(k, t, n, DL) == s.(view :=
        RowsUp(s.view, s.top, s.bottom, Min(n, s.bottom - s.top), BlankRow(s.cols, s.Blank())))
  {
    var s, q, m := t.s, Quiet(t.s), Min(n, t.s.bottom - t.s.top);
    var r := q.(view := RowsUp(q.view, q.top, q.bottom, m, BlankRow(q.cols, q.Blank())));
    QuietEditing(t, q);
    LinesDeleted(q, Values(n, DL), n, m, r);
    ScreenIs(k, t, n, DL, q, r);
  }

  /** ESC [ 2 J and ESC [ 3 J blank every cell and leave the cursor where it is. */
  lemma EraseAllWritten(k: Tables, t: Term, n: nat)
    requires k.Valid() && t.Valid() && Plain(t) && (n == 2 || n == 3)
    ensures After(k, t, n, ED) == t.s.(view := seq(t.s.rows, _ => seq(t.s.cols, _ => Cell(0x20, t.s.fg, t.s.bg))))
  {
    var q := Quiet(t.s);
    QuietEditing(t, q);
    EditWritten(k, t, n, ED, q, EraseDisplay(q, q.CursorX(), q.CursorY(), n));
    BlankScreen(t.s);
  }

  lemma BlankScreen(s: Screen)
    requires s.Valid()
    ensures seq(s.rows, _ => BlankRow(s.cols, s.Blank())) == seq(s.rows, _ => seq(s.cols, _ => Cell(0x20, s.fg, s.bg)))
  {
    assert BlankRow(s.cols, s.Blank()) == seq(s.cols, _ => Cell(0x20, s.fg, s.bg));
  }

  // ---- Erasing ----

  /** Writing ESC [ n f erases exactly the cells from (x, y) to (x', y'). */
  ghost predicate WrittenErases(k: Tables, t: Term, n: nat, f: Byte, x: int, y: int, x': int, y': int)
    requires k.Valid() && t.Valid()
  {
    Erases(t.s, After(k, t, n, f), x, y, x', y')
  }

  lemma LoudErases(s: Screen, r: Screen, x: int, y: int, x': int, y': int)
    requires s.Shaped() && s.scrollEnabled && SameSetup(Quiet(s), r)
    ensures Erases(s, Loud(r), x, y, x', y') == Erases(Quiet(s), r, x, y, x', y')
  {
  }

  /** It is what the screen function does inside a sequence. */
  lemma WrittenIs(k: Tables, t: Term, n: nat, f: Byte, q: Screen, r: Screen, x: int, y: int, x': int, y': int)
    requires k.Valid() && t.Valid() && q == Quiet(t.s) && SameSetup(q, r) && After(k, t, n, f) == Loud(r)
    ensures WrittenErases(k, t, n, f, x, y, x', y') == Erases(q, r, x, y, x', y')
  {
    LoudErases(t.s, r, x, y, x', y');
  }

  /** The same terminal over a screen of characters that no erasing prints. */
  function Elsewhere(t: Term): (r: Term)
    requires t.Valid()
    ensures r.Valid() && r.s == Over(t.s) && r == t.(s := r.s)
  {
    t.(s := Over(t.s))
  }

  lemma QuietOver(s: Screen)
    requires s.Valid()
    ensures Quiet(Over(s)) == Over(Quiet(s))
  {
  }

  /** ESC [ 2 K erases the cursor's row. */
  lemma EraseRowWritten(k: Tables, t: Term)
    requires k.Valid() && t.Valid() && Plain(t)
    ensures WrittenErases(k, t, 2, EL, 0, t.s.CursorY(), t.s.cols, t.s.CursorY())
  {
    var q := Quiet(t.s);
    var r := EraseLine(q, q.CursorX(), q.CursorY(), 2);
    QuietEditing(t, q);
    EditWritten(k, t, 2, EL, q, r);
    EraseRowExact(q);
    WrittenIs(k, t, 2, EL, q, r, 0, q.CursorY(), q.cols, q.CursorY());
  }

  /** ESC [ 1 K erases what is before the cursor in its row. */
  lemma EraseBeforeWritten(k: Tables, t: Term)
    requires k.Valid() && t.Valid() && Plain(t)
    ensures WrittenErases(k, t, 1, EL, 0, t.s.CursorY(), t.s.CursorX(), t.s.CursorY())
  {
    var q := Quiet(t.s);
    var r := EraseLine(q, q.CursorX(), q.CursorY(), 1);
    QuietEditing(t, q);
    EditWritten(k, t, 1, EL, q, r);
    EraseBeforeExact(q);
    WrittenIs(k, t, 1, EL, q, r, 0, q.CursorY(), q.CursorX(), q.CursorY());
  }

  lemma CharsWritten(k: Tables, t: Term, n: nat, q: Screen, r: Screen, x: nat, y: nat)
    requires k.Valid() && t.Valid() && Plain(t) && 1 <= n < TWO_32 && q == Quiet(t.s)
    requires x == q.CursorX() && y == q.CursorY() && r == EraseChars(q, x, y, n)
    ensures WrittenErases(k, t, n, ECH, x, y, Min(x + n, q.cols), y) == Erases(q, r, x, y, Min(x + n, q.cols), y)
  {
    QuietEditing(t, q);
    EditWritten(k, t, n, ECH, q, r);
    WrittenIs(k, t, n, ECH, q, r, x, y, Min(x + n, q.cols), y);
  }

  lemma CharsExact(k: Tables, t: Term, n: nat, q: Screen, x: nat, y: nat)
    requires k.Valid() && t.Valid() && Plain(t) && 1 <= n < TWO_32 && q == Quiet(t.s) && x == q.CursorX() && y == q.CursorY()
    requires CharsFit(q, n)
    ensures WrittenErases(k, t, n, ECH, x, y, Min(x + n, q.cols), y)
  {
    CharsWritten(k, t, n, q, EraseChars(q, x, y, n), x, y);
    CharsFitting(q, n);
  }

  lemma CharsInexact(k: Tables, t: Term, n: nat, q: Screen, x: nat, y: nat)
    requires k.Valid() && t.Valid() && Plain(t) && 1 <= n < TWO_32 && q == Quiet(t.s) && x == q.CursorX() && y == q.CursorY()
    requires q.view == Marked(q) && !CharsFit(q, n)
    ensures !WrittenErases(k, t, n, ECH, x, y, Min(x + n, q.cols), y)
  {
    CharsWritten(k, t, n, q, EraseChars(q, x, y, n), x, y);
    CharsMisfit(q, n);
  }

  lemma CharsFound(k: Tables, t: Term, n: nat)
    requires k.Valid() && t.Valid() && Plain(t) && 1 <= n < TWO_32 && CharsFit(t.s, n)
    ensures var x, y := t.s.CursorX(), t.s.CursorY(); WrittenErases(k, t, n, ECH, x, y, Min(x + n, t.s.cols), y)
  {
    CharsExact(k, t, n, Quiet(t.s), t.s.CursorX(), t.s.CursorY());
  }

  lemma CharsMissed(k: Tables, t: Term, n: nat)
    requires k.Valid() && t.Valid() && Plain(t) && 1 <= n < TWO_32 && !CharsFit(t.s, n)
    ensures var x, y := t.s.CursorX(), t.s.CursorY();
      !WrittenErases(k, Elsewhere(t), n, ECH, x, y, Min(x + n, t.s.cols), y)
  {
    QuietOver(t.s);
    CharsInexact(k, Elsewhere(t), n, Over(Quiet(t.s)), t.s.CursorX(), t.s.CursorY());
  }

  /** ESC [ n X with 1 <= n < 2^32 erases exactly the n cells from the cursor on, as far as the row goes, whatever the
      cells contain, if they can be printed there without a wrap, or the pending wrap leads back to the only cell within
      reach; otherwise it does not. */
  lemma EraseCharsWritten(k: Tables, t: Term, n: nat)
    requires k.Valid() && t.Valid() && Plain(t) && 1 <= n < TWO_32
    ensures var x, y := t.s.CursorX(), t.s.CursorY();
      if CharsFit(t.s, n)
      then WrittenErases(k, t, n, ECH, x, y, Min(x + n, t.s.cols), y)
      else !WrittenErases(k, Elsewhere(t), n, ECH, x, y, Min(x + n, t.s.cols), y)
  {
    if CharsFit(t.s, n) {
      CharsFound(k, t, n);
    } else {
      CharsMissed(k, t, n);
    }
  }

  lemma RestWritten(k: Tables, t: Term, q: Screen, r: Screen, x: nat, y: nat)
    requires k.Valid() && t.Valid() && Plain(t) && q == Quiet(t.s)
    requires x == q.CursorX() && y == q.CursorY() && r == EraseLine(q, x, y, 0)
    ensures WrittenErases(k, t, 0, EL, x, y, q.cols, y) == Erases(q, r, x, y, q.cols, y)
  {
    QuietEditing(t, q);
    EditWritten(k, t, 0, EL, q, r);
    WrittenIs(k, t, 0, EL, q, r, x, y, q.cols, y);
  }

  lemma RestExact(k: Tables, t: Term, q: Screen, x: nat, y: nat)
    requires k.Valid() && t.Valid() && Plain(t) && q == Quiet(t.s) && x == q.CursorX() && y == q.CursorY()
    requires CharsFit(q, q.cols - q.CursorX())
    ensures WrittenErases(k, t, 0, EL, x, y, q.cols, y)
  {
    RestWritten(k, t, q, EraseLine(q, x, y, 0), x, y);
    RestFitting(q);
  }

  lemma RestInexact(k: Tables, t: Term, q: Screen, x: nat, y: nat)
    requires k.Valid() && t.Valid() && Plain(t) && q == Quiet(t.s) && x == q.CursorX() && y == q.CursorY()
    requires q.view == Marked(q) && !CharsFit(q, q.cols - q.CursorX())
    ensures !WrittenErases(k, t, 0, EL, x, y, q.cols, y)
  {
    RestWritten(k, t, q, EraseLine(q, x, y, 0), x, y);
    RestMisfit(q);
  }

  /** ESC [ 0 K erases exactly the rest of the row if no wrap is pending and the cursor is on the screen, or the wrap
      leads back to its cell; otherwise it does not. */
  lemma EraseRestWritten(k: Tables, t: Term)
    requires k.Valid() && t.Valid() && Plain(t)
    ensures var x, y := t.s.CursorX(), t.s.CursorY();
      if (t.s.x < t.s.cols && t.s.y < t.s.rows) || (t.s.cols == 1 && t.s.x >= 1 && t.s.y == 0 && t.s.bottom > 1)
      then WrittenErases(k, t, 0, EL, x, y, t.s.cols, y)
      else !WrittenErases(k, Elsewhere(t), 0, EL, x, y, t.s.cols, y)
  {
    var x, y, q := t.s.CursorX(), t.s.CursorY(), Quiet(t.s);
    if CharsFit(q, q.cols - q.CursorX()) {
      RestExact(k, t, q, x, y);
    } else {
      QuietOver(t.s);
      RestInexact(k, Elsewhere(t), Over(q), x, y);
    }
  }

  lemma BelowWritten(k: Tables, t: Term, q: Screen, r: Screen, x: nat, y: nat)
    requires k.Valid() && t.Valid() && Plain(t) && q == Quiet(t.s)
    requires x == q.CursorX() && y == q.CursorY() && r == EraseDisplay(q, x, y, 0)
    ensures WrittenErases(k, t, 0, ED, x, y, 0, q.rows) == Erases(q, r, x, y, 0, q.rows)
  {
    QuietEditing(t, q);
    EditWritten(k, t, 0, ED, q, r);
    WrittenIs(k, t, 0, ED, q, r, x, y, 0, q.rows);
  }

  lemma BelowExact(k: Tables, t: Term, q: Screen, x: nat, y: nat)
    requires k.Valid() && t.Valid() && Plain(t) && q == Quiet(t.s) && x == q.CursorX() && y == q.CursorY()
    requires ErasesAfterFrom(q)
    ensures WrittenErases(k, t, 0, ED, x, y, 0, q.rows)
  {
    BelowWritten(k, t, q, EraseDisplay(q, x, y, 0), x, y);
    AfterFromCell(q);
  }

  lemma BelowInexact(k: Tables, t: Term, q: Screen, x: nat, y: nat)
    requires k.Valid() && t.Valid() && Plain(t) && q == Quiet(t.s) && x == q.CursorX() && y == q.CursorY()
    requires q.view == Marked(q) && !ErasesAfterFrom(q)
    ensures !WrittenErases(k, t, 0, ED, x, y, 0, q.rows)
  {
    BelowWritten(k, t, q, EraseDisplay(q, x, y, 0), x, y);
    AfterNotFromCell(q);
  }

  /** ESC [ 0 J erases exactly the cells from the cursor on if no wrap is pending, the cursor is on the screen, and it
      stands on the last row or the bottom margin is that row of a terminal not higher than wide; otherwise it does
      not. */
  lemma EraseAfterWritten(k: Tables, t: Term)
    requires k.Valid() && t.Valid() && Plain(t)
    ensures var x, y := t.s.CursorX(), t.s.CursorY();
      if ErasesAfterFrom(t.s)
      then WrittenErases(k, t, 0, ED, x, y, 0, t.s.rows)
      else !WrittenErases(k, Elsewhere(t), 0, ED, x, y, 0, t.s.rows)
  {
    var x, y, q := t.s.CursorX(), t.s.CursorY(), Quiet(t.s);
    if ErasesAfterFrom(q) {
      BelowExact(k, t, q, x, y);
    } else {
      QuietOver(t.s);
      BelowInexact(k, Elsewhere(t), Over(q), x, y);
    }
  }

  lemma AboveWritten(k: Tables, t: Term, q: Screen, r: Screen, x: nat, y: nat)
    requires k.Valid() && t.Valid() && Plain(t) && q == Quiet(t.s)
    requires x == q.CursorX() && y == q.CursorY() && r == EraseDisplay(q, x, y, 1)
    ensures WrittenErases(k, t, 1, ED, 0, 0, x + 1, y) == Erases(q, r, 0, 0, x + 1, y)
  {
    QuietEditing(t, q);
    EditWritten(k, t, 1, ED, q, r);
    WrittenIs(k, t, 1, ED, q, r, 0, 0, x + 1, y);
  }

  lemma AboveExact(k: Tables, t: Term, q: Screen, x: nat, y: nat)
    requires k.Valid() && t.Valid() && Plain(t) && q == Quiet(t.s) && x == q.CursorX() && y == q.CursorY()
    requires q.CursorY() < q.bottom && q.CursorY() < q.cols
    ensures WrittenErases(k, t, 1, ED, 0, 0, x + 1, y)
  {
    AboveWritten(k, t, q, EraseDisplay(q, x, y, 1), x, y);
    ThroughCell(q);
  }

  lemma AboveInexact(k: Tables, t: Term, q: Screen, x: nat, y: nat)
    requires k.Valid() && t.Valid() && Plain(t) && q == Quiet(t.s) && x == q.CursorX() && y == q.CursorY()
    requires q.view == Marked(q) && !(q.CursorY() < q.bottom && q.CursorY() < q.cols)
    ensures !WrittenErases(k, t, 1, ED, 0, 0, x + 1, y)
  {
    AboveWritten(k, t, q, EraseDisplay(q, x, y, 1), x, y);
    ThroughNotCell(q);
  }

  /** ESC [ 1 J erases exactly the cells through the cursor if the cursor is above the bottom margin and among the first
      `cols` rows; otherwise it does not. */
  lemma EraseThroughWritten(k: Tables, t: Term)
    requires k.Valid() && t.Valid() && Plain(t)
    ensures var x, y := t.s.CursorX(), t.s.CursorY();
      if y < t.s.bottom && y < t.s.cols
      then WrittenErases(k, t, 1, ED, 0, 0, x + 1, y)
      else !WrittenErases(k, Elsewhere(t), 1, ED, 0, 0, x + 1, y)
  {
    var x, y, q := t.s.CursorX(), t.s.CursorY(), Quiet(t.s);
    if q.CursorY() < q.bottom && q.CursorY() < q.cols {
      AboveExact(k, t, q, x, y);
    } else {
      QuietOver(t.s);
      AboveInexact(k, Elsewhere(t), Over(q), x, y);
    }
  }

  // ---- DCH ----

  /** Writing ESC [ n P deletes n cells at the cursor. */
  ghost predicate WrittenDeletes(k: Tables, t: Term, n: nat)
    requires k.Valid() && t.Valid()
  {
    After(k, t, n, DCH) == IdealDelete(t.s, t.s.CursorX(), t.s.CursorY(), n)
  }

  lemma LoudDeletes(s: Screen, r: Screen, x: nat, y: nat, n: nat)
    requires s.Valid() && s.scrollEnabled && SameSetup(Quiet(s), r) && x < s.cols && y < s.rows
    ensures (Loud(r) == IdealDelete(s, x, y, n)) == (r == IdealDelete(Quiet(s), x, y, n))
  {
  }

  lemma DeletesWritten(k: Tables, t: Term, n: nat, q: Screen, r: Screen, x: nat, y: nat)
    requires k.Valid() && t.Valid() && Plain(t) && n < TWO_32 && q == Quiet(t.s)
    requires x == q.CursorX() && y == q.CursorY() && r == DeleteChars(q, x, y, n)
    ensures WrittenDeletes(k, t, n) == (r == IdealDelete(q, x, y, n))
  {
    QuietEditing(t, q);
    EditWritten(k, t, n, DCH, q, r);
    LoudDeletes(t.s, r, x, y, n);
  }

  lemma DeletesExact(k: Tables, t: Term, n: nat, q: Screen, x: nat, y: nat)
    requires k.Valid() && t.Valid() && Plain(t) && 1 <= n < TWO_32 && q == Quiet(t.s)
    requires x == q.CursorX() && y == q.CursorY() && DeleteFits(q, x, y, n)
    ensures WrittenDeletes(k, t, n)
  {
    DeletesWritten(k, t, n, q, DeleteChars(q, x, y, n), x, y);
    DeleteFitting(q, x, y, n);
  }

  lemma DeletesInexact(k: Tables, t: Term, n: nat, q: Screen, x: nat, y: nat)
    requires k.Valid() && t.Valid() && Plain(t) && 1 <= n < TWO_32 && q == Quiet(t.s)
    requires x == q.CursorX() && y == q.CursorY() && !DeleteFits(q, x, y, n) && q.view == Marked(q)
    ensures !WrittenDeletes(k, t, n)
  {
    DeletesWritten(k, t, n, q, DeleteChars(q, x, y, n), x, y);
    DeleteMisfit(q, x, y, n);
  }

  /** ESC [ n P with 1 <= n < 2^32 deletes n cells at the cursor, whatever the cells contain, under the condition of
      `DeleteExactly`; otherwise it does not. */
  lemma DeleteWritten(k: Tables, t: Term, n: nat)
    requires k.Valid() && t.Valid() && Plain(t) && 1 <= n < TWO_32
    ensures if DeleteFits(t.s, t.s.CursorX(), t.s.CursorY(), n) then WrittenDeletes(k, t, n)
            else !WrittenDeletes(k, Elsewhere(t), n)
  {
    var x, y, q := t.s.CursorX(), t.s.CursorY(), Quiet(t.s);
    if DeleteFits(q, x, y, n) {
      DeletesExact(k, t, n, q, x, y);
    } else {
      QuietOver(t.s);
      DeletesInexact(k, Elsewhere(t), n, Over(q), x, y);
    }
  }
}
