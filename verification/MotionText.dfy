/**
 Where the cursor goes: the control sequences, control characters and escapes that move it, from their bytes to the
 position in plain numbers.
 */
module MotionText {
  import opened Arithmetic
  import opened ControlText
  import opened EditText
  import opened Parsers
  import opened Screens

  /** Writing these bytes puts the cursor at (x, y) and leaves everything else that a later byte could see. */
  ghost predicate Moves(k: Tables, t: Term, bytes: seq<Byte>, x: nat, y: nat)
    requires k.Valid() && t.Valid()
  {
    var r := PutAll(k, t, bytes);
    && r.s == t.s.(x := x, y := y)
    && r.p == t.p.(escValuesI := r.p.escValuesI, rrr := r.p.rrr, escapeOffset := r.p.escapeOffset)
  }

  // ---- Control sequences ----

  lemma MotionIs(k: Tables, t: Term, ps: seq<Parameter>, f: Byte, n: nat, w: seq<int>, q: Screen, x: nat, y: nat)
    requires k.Valid() && t.Valid() && Plain(t) && ps != [] && |Joined(ps)| < TWO_64 - 4 && IsMotion(f)
    requires n == Count(ps) && w == Defaulted(Kept(ps, |ps|), n, 1) && q == Quiet(t.s)
    requires x == MotionX(q, f, w) < q.cols && y == MotionY(q, f, w) < q.rows
    ensures Moves(k, t, [ESC, BRACKET] + Joined(ps) + [f], x, y)
  {
    SequenceEdits(k, t, ps, f, n, w, |Joined(ps)| + 2);
    assert CsiScreen(q, f, w, n) == q.(x := x, y := y);
  }

  /** The number that a single parameter names: 1 if it is left out. */
  function Named(p: Parameter): (n: nat)
    ensures n < TWO_32
  {
    if p.Empty? then 1 else p.n % TWO_32
  }

  /** The place, counted from 0, that a parameter counted from 1 names: the first one for 0 and if it is left out. */
  function Place(p: Parameter): (n: nat) {
    if p.Empty? || p.n % TWO_32 == 0 then 0 else p.n % TWO_32 - 1
  }

  /** The value of a single parameter. */
  function Single(p: Parameter): (w: seq<int>)
    ensures CsiValues(w) && w[0] == Named(p)
  {
    Defaulted(Kept([p], 1), Count([p]), 1)
  }

  function AtMost(n: nat, limit: nat): nat {
    if n > limit then limit else n
  }

  lemma SingleMotion(k: Tables, t: Term, p: Parameter, f: Byte, q: Screen, w: seq<int>, x: nat, y: nat)
    requires k.Valid() && t.Valid() && Plain(t) && |p.Text()| < TWO_64 - 4 && IsMotion(f) && q == Quiet(t.s)
    requires w == Single(p) && x == MotionX(q, f, w) < q.cols && y == MotionY(q, f, w) < q.rows
    ensures Moves(k, t, [ESC, BRACKET] + p.Text() + [f], x, y)
  {
    assert Joined([p]) == p.Text();
    MotionIs(k, t, [p], f, Count([p]), w, q, x, y);
  }

  /** The column a horizontal motion leads to. */
  function HorizontalTarget(s: Screen, f: Byte, n: nat): nat
    requires s.Valid()
  {
    if f as char == 'C' || f as char == 'a' then AtMost(s.CursorX() + n, s.cols - 1)
    else if f as char == 'D' then s.CursorX() - AtMost(n, s.CursorX())
    else if n == 0 then s.cols - 1 else AtMost(n - 1, s.cols - 1)
  }

  lemma HorizontalIs(q: Screen, f: Byte, w: seq<int>, n: nat, x: nat)
    requires q.Valid() && q.rows < TWO_32 && q.cols < TWO_32 && CsiValues(w) && w[0] == n && x == HorizontalTarget(q, f, n)
    requires f as char == 'C' || f as char == 'a' || f as char == 'D' || f as char == 'G' || f as char == '`'
    ensures MotionX(q, f, w) == x < q.cols && MotionY(q, f, w) == q.CursorY()
  {
  }

  /** ESC [ n C and a go right, D left, G and ` to a column, none of them off the row.  Column 0 stands for the last. */
  lemma HorizontalWritten(k: Tables, t: Term, p: Parameter, f: Byte)
    requires k.Valid() && t.Valid() && Plain(t) && |p.Text()| < TWO_64 - 4
    requires f as char == 'C' || f as char == 'a' || f as char == 'D' || f as char == 'G' || f as char == '`'
    ensures Moves(k, t, [ESC, BRACKET] + p.Text() + [f], HorizontalTarget(t.s, f, Named(p)), t.s.CursorY())
  {
    QuietIs(t, Quiet(t.s), f, Named(p));
    HorizontalIs(Quiet(t.s), f, Single(p), Named(p), HorizontalTarget(t.s, f, Named(p)));
    SingleMotion(k, t, p, f, Quiet(t.s), Single(p), HorizontalTarget(t.s, f, Named(p)), t.s.CursorY());
  }

  /** Nothing here depends on scrolling. */
  lemma QuietIs(t: Term, q: Screen, f: Byte, n: nat)
    requires t.Valid() && q == Quiet(t.s)
    ensures q.Valid() && q.CursorX() == t.s.CursorX() && q.CursorY() == t.s.CursorY()
    ensures HorizontalTarget(q, f, n) == HorizontalTarget(t.s, f, n) && VerticalTarget(q, f, n) == VerticalTarget(t.s, f, n)
  {
  }

  /** Where n rows up from row y ends: at the top margin from inside the region or below it, else at the first row. */
  function RowAbove(s: Screen, y: nat, n: nat): nat {
    if y < s.top then y - AtMost(n, y) else y - AtMost(n, y - s.top)
  }

  /** Where n rows down ends: at the bottom margin from inside the region, above it, and from the row right below it,
      which is above that row; else at the last row. */
  function RowBelow(s: Screen, y: nat, n: nat): nat
    requires 1 <= s.rows && 1 <= s.bottom
  {
    if y <= s.bottom then AtMost(y + n, s.bottom - 1) else AtMost(y + n, s.rows - 1)
  }

  lemma MovesUp(q: Screen, y: nat, n: nat)
    requires q.Valid() && y < q.rows
    ensures MovedUp(q, y, Min(n, y)) == RowAbove(q, y, n) < q.rows
  {
  }

  lemma MovesDown(q: Screen, y: nat, n: nat)
    requires q.Valid() && y < q.rows
    ensures MovedDown(q, y, Min(n, q.rows - 1 - y)) == RowBelow(q, y, n) < q.rows
  {
  }

  /** The row a vertical motion leads to. */
  function VerticalTarget(s: Screen, f: Byte, n: nat): nat
    requires s.Valid()
  {
    if f as char == 'A' || f as char == 'F' then RowAbove(s, s.CursorY(), n)
    else if f as char == 'd' then (if n == 0 then s.rows - 1 else AtMost(n - 1, s.rows - 1))
    else RowBelow(s, s.CursorY(), n)
  }

  lemma VerticalIs(q: Screen, f: Byte, w: seq<int>, n: nat, y: nat)
    requires q.Valid() && q.rows < TWO_32 && CsiValues(w) && w[0] == n && y == VerticalTarget(q, f, n)
    requires f as char == 'A' || f as char == 'F' || f as char == 'B' || f as char == 'e' || f as char == 'E' || f as char == 'd'
    ensures MotionY(q, f, w) == y < q.rows
  {
    MovesUp(q, q.CursorY(), n);
    MovesDown(q, q.CursorY(), n);
  }

  /** ESC [ n A and F go up, B, e and E down, F and E to the first column, d to a row.  Row 0 stands for the last. */
  lemma VerticalWritten(k: Tables, t: Term, p: Parameter, f: Byte)
    requires k.Valid() && t.Valid() && Plain(t) && |p.Text()| < TWO_64 - 4
    requires f as char == 'A' || f as char == 'F' || f as char == 'B' || f as char == 'e' || f as char == 'E' || f as char == 'd'
    ensures Moves(k, t, [ESC, BRACKET] + p.Text() + [f],
                  if f as char == 'F' || f as char == 'E' then 0 else t.s.CursorX(), VerticalTarget(t.s, f, Named(p)))
  {
    QuietIs(t, Quiet(t.s), f, Named(p));
    VerticalPut(k, t, p, f, Quiet(t.s), if f as char == 'F' || f as char == 'E' then 0 else t.s.CursorX(),
                VerticalTarget(t.s, f, Named(p)));
  }

  lemma VerticalPut(k: Tables, t: Term, p: Parameter, f: Byte, q: Screen, x: nat, y: nat)
    requires k.Valid() && t.Valid() && Plain(t) && |p.Text()| < TWO_64 - 4 && q == Quiet(t.s) && q.Valid()
    requires f as char == 'A' || f as char == 'F' || f as char == 'B' || f as char == 'e' || f as char == 'E' || f as char == 'd'
    requires x == (if f as char == 'F' || f as char == 'E' then 0 else q.CursorX()) && y == VerticalTarget(q, f, Named(p))
    ensures Moves(k, t, [ESC, BRACKET] + p.Text() + [f], x, y)
  {
    VerticalIs(q, f, Single(p), Named(p), y);
    SingleMotion(k, t, p, f, q, Single(p), x, y);
  }

  /** Going down from the row right below the region goes up into it, if there is such a row. */
  lemma DownGoesUp(k: Tables, t: Term, p: Parameter)
    requires k.Valid() && t.Valid() && Plain(t) && |p.Text()| < TWO_64 - 4
    ensures (PutAll(k, t, [ESC, BRACKET] + p.Text() + [0x42]).s.y < t.s.CursorY()) == (t.s.CursorY() == t.s.bottom)
  {
    VerticalWritten(k, t, p, 0x42);
  }

  /** The values of two parameters. */
  function Pair(a: Parameter, b: Parameter): (w: seq<int>)
    ensures CsiValues(w) && w[0] == a.Value() && w[1] == (if b.Empty? then 1 else b.n % TWO_32)
  {
    Defaulted(Kept([a, b], 2), Count([a, b]), 1)
  }

  lemma PositionIs(q: Screen, f: Byte, w: seq<int>, row: nat, col: nat)
    requires q.Valid() && q.rows < TWO_32 && q.cols < TWO_32 && CsiValues(w) && (f as char == 'H' || f as char == 'f')
    requires row == (if w[0] == 0 then 0 else w[0] - 1) && col == if w[1] == 0 then 0 else w[1] - 1
    ensures MotionX(q, f, w) == AtMost(col, q.cols - 1) < q.cols && MotionY(q, f, w) == AtMost(row, q.rows - 1) < q.rows
  {
  }

  /** ESC [ a ; b H and f: row a, column b, counted from 1 and clamped to the screen. */
  lemma PositionWritten(k: Tables, t: Term, a: Parameter, b: Parameter, f: Byte)
    requires k.Valid() && t.Valid() && Plain(t) && |a.Text()| + |b.Text()| < TWO_64 - 5
    requires f as char == 'H' || f as char == 'f'
    ensures Moves(k, t, [ESC, BRACKET] + (a.Text() + [SEMICOLON] + b.Text()) + [f],
                  AtMost(Place(b), t.s.cols - 1), AtMost(Place(a), t.s.rows - 1))
  {
    assert JoinedTo([a, b], 1) == a.Text() && Joined([a, b]) == a.Text() + [SEMICOLON] + b.Text();
    PositionIs(Quiet(t.s), f, Pair(a, b), Place(a), Place(b));
    MotionIs(k, t, [a, b], f, Count([a, b]), Pair(a, b), Quiet(t.s),
             AtMost(Place(b), t.s.cols - 1), AtMost(Place(a), t.s.rows - 1));
  }

  /** With one number, or none, the column is the first. */
  lemma RowWritten(k: Tables, t: Term, p: Parameter, f: Byte)
    requires k.Valid() && t.Valid() && Plain(t) && |p.Text()| < TWO_64 - 4
    requires f as char == 'H' || f as char == 'f'
    ensures Moves(k, t, [ESC, BRACKET] + p.Text() + [f], 0, AtMost(Place(p), t.s.rows - 1))
  {
    SingleAlone(p);
    PositionIs(Quiet(t.s), f, Single(p), Place(p), 0);
    SingleMotion(k, t, p, f, Quiet(t.s), Single(p), 0, AtMost(Place(p), t.s.rows - 1));
  }

  lemma SingleAlone(p: Parameter)
    ensures Single(p)[1] == 1
  {
  }

  // ---- Control characters ----

  lemma OnePut(k: Tables, t: Term, c: Byte)
    requires k.Valid() && t.Valid()
    ensures PutAll(k, t, [c]) == Put(k, t, c)
  {
    assert [c][1..] == [];
  }

  lemma ControlPut(k: Tables, t: Term, c: Byte)
    requires k.Valid() && t.Valid() && AtRest(t) && (c == 0x08 || c == 0x09 || 0x0a <= c <= 0x0d)
    ensures PutAll(k, t, [c]) == t.(s := ControlMove(t.s, c, t.p.onlcr))
  {
    OnePut(k, t, c);
    assert t.(p := t.p.(unicodeRemaining := 0)) == t;
  }

  /** Return goes to the first column, backspace one to the left. */
  lemma BackWritten(k: Tables, t: Term)
    requires k.Valid() && t.Valid() && AtRest(t)
    ensures Moves(k, t, [0x0d], 0, t.s.CursorY())
    ensures Moves(k, t, [0x08], if t.s.CursorX() == 0 then 0 else t.s.CursorX() - 1, t.s.CursorY())
  {
    ControlPut(k, t, 0x0d);
    ControlPut(k, t, 0x08);
  }

  /** The next multiple of 8, on the screen; from 2^31 on a column behind the last one is taken for a negative one. */
  lemma TabWritten(k: Tables, t: Term)
    requires k.Valid() && t.Valid() && AtRest(t)
    ensures var next := t.s.CursorX() / 8 * 8 + 8;
      Moves(k, t, [0x09], if next < t.s.cols then next else if 0x8000_0000 <= next < TWO_32 then 0 else t.s.cols - 1, t.s.CursorY())
  {
    ControlPut(k, t, 0x09);
  }

  // ---- The next row and the one before ----

  /** The region's rows one up, with a blank one at its end. */
  function RolledUp(s: Screen): seq<Row>
    requires s.Valid()
  {
    seq(s.rows, r requires 0 <= r < s.rows =>
      if s.top <= r < s.bottom - 1 then s.view[r + 1]
      else if r == s.bottom - 1 then seq(s.cols, _ => Cell(0x20, s.fg, s.bg)) else s.view[r])
  }

  /** The region's rows one down, with a blank one at its beginning. */
  function RolledDown(s: Screen): seq<Row>
    requires s.Valid()
  {
    seq(s.rows, r requires 0 <= r < s.rows =>
      if s.top < r < s.bottom then s.view[r - 1]
      else if r == s.top then seq(s.cols, _ => Cell(0x20, s.fg, s.bg)) else s.view[r])
  }

  lemma RollsUp(s: Screen)
    requires s.Valid()
    ensures ScrollUp(s) == s.(view := RolledUp(s))
  {
    assert BlankRow(s.cols, s.Blank()) == seq(s.cols, _ => Cell(0x20, s.fg, s.bg));
    assert ScrollUp(s).view == RolledUp(s);
  }

  lemma RollsDown(s: Screen)
    requires s.Valid()
    ensures ScrollDown(s) == s.(view := RolledDown(s))
  {
    assert BlankRow(s.cols, s.Blank()) == seq(s.cols, _ => Cell(0x20, s.fg, s.bg));
    assert ScrollDown(s).view == RolledDown(s);
  }

  /** Column x of the next row: on the region's last row it is the region that moves; elsewhere the cursor stays on the
      screen, at its last row (in the first where the number of rows is taken for a negative one). */
  function NextRow(s: Screen, x: nat): Screen
    requires s.Valid()
  {
    var y := s.CursorY();
    if y == s.bottom - 1 then s.(view := RolledUp(s), x := x, y := y)
    else s.(x := x, y := if y + 1 < s.rows then y + 1 else if s.rows < 0x8000_0000 then s.rows - 1 else 0)
  }

  /** The first column of the row before. */
  function PreviousRow(s: Screen): Screen
    requires s.Valid()
  {
    var y := s.CursorY();
    if y == s.top then s.(view := RolledDown(s), x := 0, y := y) else s.(x := 0, y := if y == 0 then 0 else y - 1)
  }

  lemma FeedsNextRow(s: Screen, x: nat)
    requires s.Valid() && x < s.cols < TWO_32 && s.rows < TWO_32
    ensures LineFeed(s, x) == NextRow(s, x)
  {
    hide ScrollUp, RolledUp;
    RollsUp(s);
  }

  lemma FeedsPreviousRow(s: Screen)
    requires s.Valid() && s.rows < TWO_32
    ensures ReverseLineFeed(s) == PreviousRow(s)
  {
    if s.CursorY() == s.top {
      RollsDown(s);
    } else {
      OneUp(s, s.CursorY());
    }
  }

  lemma OneUp(s: Screen, y: nat)
    requires s.Valid() && s.rows < TWO_32 && y < s.rows
    ensures SetCursor(s, 0, Wrap64(y - 1)) == s.(x := 0, y := if y == 0 then 0 else y - 1)
  {
    assert y == 0 ==> Wrap64(y - 1) == TWO_64 - 1;
  }

  /** Line feed, vertical tab and form feed, for any margins. */
  lemma LineFeedWritten(k: Tables, t: Term, c: Byte)
    requires k.Valid() && t.Valid() && AtRest(t) && 0x0a <= c <= 0x0c
    ensures PutAll(k, t, [c]) == t.(s := NextRow(t.s, if t.p.onlcr.On? then 0 else t.s.CursorX()))
  {
    ControlPut(k, t, c);
    FeedsNextRow(t.s, if t.p.onlcr.On? then 0 else t.s.CursorX());
  }

  lemma TwoPut(k: Tables, t: Term, a: Byte, b: Byte)
    requires k.Valid() && t.Valid()
    ensures PutAll(k, t, [a, b]) == Put(k, Put(k, t, a), b)
  {
    PutAllAppend(k, t, [a], [b]);
    OnePut(k, t, a);
    OnePut(k, Put(k, t, a), b);
    assert [a] + [b] == [a, b];
  }

  /** An escape of one byte. */
  lemma EscapePut(k: Tables, t: Term, c: Byte)
    requires k.Valid() && t.Valid() && AtRest(t) && 0x20 <= c < 0x7f && c as char != '[' && c as char != ']'
    ensures PutAll(k, t, [ESC, c])
         == var u := EscapeFinal(t.(p := t.p.(escapeOffset := 1, escape := On)), c); u.(p := u.p.(escape := Off))
  {
    PutEscape(k, t);
    TwoPut(k, t, ESC, c);
    EscapedPut(k, t, t.(p := t.p.(escapeOffset := 0, escape := On)), c);
  }

  lemma EscapedPut(k: Tables, t: Term, u: Term, c: Byte)
    requires k.Valid() && t.Valid() && AtRest(t) && 0x20 <= c < 0x7f && c as char != '[' && c as char != ']'
    requires u == t.(p := t.p.(escapeOffset := 0, escape := On))
    ensures u.Valid() && t.(p := t.p.(escapeOffset := 1, escape := On)).Valid()
    ensures Put(k, u, c)
         == var w := EscapeFinal(t.(p := t.p.(escapeOffset := 1, escape := On)), c); w.(p := w.p.(escape := Off))
  {
    assert u.(p := u.p.(unicodeRemaining := 0)) == u;
    assert Counted(u) == t.(p := t.p.(escapeOffset := 1, escape := On));
  }

  /** ESC D goes to the next row. */
  lemma IndexWritten(k: Tables, t: Term)
    requires k.Valid() && t.Valid() && AtRest(t)
    ensures PutAll(k, t, [ESC, 0x44]) == t.(s := NextRow(t.s, t.s.CursorX()), p := t.p.(escapeOffset := 1))
  {
    EscapePut(k, t, 0x44);
    FeedsNextRow(t.s, t.s.CursorX());
  }

  /** ESC E to its first column. */
  lemma NextLineWritten(k: Tables, t: Term)
    requires k.Valid() && t.Valid() && AtRest(t)
    ensures PutAll(k, t, [ESC, 0x45]) == t.(s := NextRow(t.s, 0), p := t.p.(escapeOffset := 1))
  {
    EscapePut(k, t, 0x45);
    FeedsNextRow(t.s, 0);
  }

  /** ESC M to the first column of the row before. */
  lemma ReverseIndexWritten(k: Tables, t: Term)
    requires k.Valid() && t.Valid() && AtRest(t)
    ensures PutAll(k, t, [ESC, 0x4d]) == t.(s := PreviousRow(t.s), p := t.p.(escapeOffset := 1))
  {
    EscapePut(k, t, 0x4d);
    FeedsPreviousRow(t.s);
  }

  // ---- Saving and restoring ----

  /** ESC 7 keeps cursor, colours, rendition and character set, and changes nothing else. */
  lemma SaveWritten(k: Tables, t: Term)
    requires k.Valid() && t.Valid() && AtRest(t)
    ensures var r := PutAll(k, t, [ESC, 0x37]);
      && r.s == t.s.(savedX := t.s.x, savedY := t.s.y, savedFg := t.s.fg, savedBg := t.s.bg)
      && r.p == t.p.(escapeOffset := 1, savedA := t.p.a, savedCharset := t.p.currentCharset)
  {
    EscapePut(k, t, 0x37);
  }

  /** Whatever was written in between, ESC 8 gives back what ESC 7 kept last, and changes nothing else. */
  lemma SavedIsRestored(k: Tables, t: Term, u: Term)
    requires k.Valid() && t.Valid() && AtRest(t) && u.Valid() && AtRest(u)
    requires var r := PutAll(k, t, [ESC, 0x37]);
      && u.s.savedX == r.s.savedX && u.s.savedY == r.s.savedY && u.s.savedFg == r.s.savedFg && u.s.savedBg == r.s.savedBg
      && u.p.savedA == r.p.savedA && u.p.savedCharset == r.p.savedCharset
    ensures var r := PutAll(k, u, [ESC, 0x38]);
      && r.s == u.s.(x := t.s.x, y := t.s.y, fg := t.s.fg, bg := t.s.bg)
      && r.p == u.p.(escapeOffset := 1, a := t.p.a, currentCharset := t.p.currentCharset)
  {
    SaveWritten(k, t);
    EscapePut(k, u, 0x38);
  }
}
