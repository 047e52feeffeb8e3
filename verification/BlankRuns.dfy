/**
 Runs of blanks: what an erasing control sequence prints, and where it cannot get to.

 A screen here is one in the middle of a control sequence: scrolling is suppressed.
 */
module BlankRuns {
  import opened Arithmetic
  import opened Screens
  import opened Parsers

  ghost predicate Editing(s: Screen) {
    s.Valid() && !s.scrollEnabled && s.rows < TWO_32 && s.cols < TWO_32
  }

  function Blanks(n: nat, c: Cell): (r: Row)
    ensures |r| == n
  {
    seq(n, _ => c)
  }

  /** A character that no erasing prints. */
  function Marker(s: Screen): Cell {
    Cell(0x41, s.fg, s.bg)
  }

  function Marked(s: Screen): (v: seq<Row>)
    ensures Rectangular(v, s.rows, s.cols)
  {
    seq(s.rows, _ => BlankRow(s.cols, Marker(s)))
  }

  /** The screen with such a character in every cell. */
  function Over(s: Screen): (r: Screen)
    requires s.Valid()
    ensures r.Valid() && r == s.(view := r.view) && r.view == Marked(r)
  {
    s.(view := Marked(s))
  }

  /** Reading order: cell (c, r) comes before position (x, y). */
  predicate Before(c: int, r: int, x: int, y: int) {
    r < y || (r == y && c < x)
  }

  /** `after` is `before` with exactly the cells from (x, y) up to, not including, (x', y') blank. */
  ghost predicate ErasedBetween(before: seq<Row>, after: seq<Row>, blank: Cell, x: int, y: int, x': int, y': int) {
    && |after| == |before|
    && forall r :: 0 <= r < |before| ==> |after[r]| == |before[r]| && forall c :: 0 <= c < |before[r]| ==>
         after[r][c] == if !Before(c, r, x, y) && Before(c, r, x', y') then blank else before[r][c]
  }

  /** What an erasing sequence promises: those cells blank, and the reported cursor where it was. */
  ghost predicate Erases(s: Screen, r: Screen, x: int, y: int, x': int, y': int)
    requires s.Shaped()
  {
    && r == s.(view := r.view, x := s.CursorX(), y := s.CursorY())
    && ErasedBetween(s.view, r.view, s.Blank(), x, y, x', y')
  }

  // ---- Up to a row of blanks ----

  /** Room left in the cursor's row. */
  function Room(s: Screen): nat {
    if s.x < s.cols then s.cols - s.x else 0
  }

  /** The row a wrap leads to: the next one, but none beyond the first `cols`. */
  function RowBelow(s: Screen): nat
    requires 1 <= s.cols
  {
    Min(s.y + 1, s.cols - 1)
  }

  /** Of m blanks printed at the cursor one lands on cell (c, r): in the cursor's row, or, where a wrap is possible,
      at the start of the row that leads to. */
  predicate Lands(s: Screen, m: nat, c: int, r: int)
    requires 1 <= s.cols
  {
    (r == s.y && s.x <= c < s.x + m) || (s.y + 1 < s.bottom && r == RowBelow(s) && c < m - Room(s))
  }

  ghost predicate Landed(s: Screen, m: nat, v: seq<Row>)
    requires s.Shaped()
  {
    && Rectangular(v, s.rows, s.cols)
    && forall r, c :: 0 <= r < s.rows && 0 <= c < s.cols ==>
         v[r][c] == if Lands(s, m, c, r) then s.Blank() else s.view[r][c]
  }

  /** The screen with the cursor behind them. */
  function Behind(s: Screen, m: nat, v: seq<Row>): Screen
    requires 1 <= s.cols
  {
    if m > Room(s) && s.y + 1 < s.bottom then s.(view := v, x := m - Room(s), y := RowBelow(s))
    else s.(view := v, x := s.x + m)
  }

  /** Where the next one is put. */
  function Next(s: Screen, m: nat): (nat, nat)
    requires 1 <= s.cols
  {
    if m >= Room(s) && s.y + 1 < s.bottom then (m - Room(s), RowBelow(s)) else (s.x + m, s.y)
  }

  lemma LandsNext(s: Screen, m: nat, c: nat, r: nat)
    requires m < s.cols && c < s.cols
    ensures Lands(s, m + 1, c, r) <==> Lands(s, m, c, r) || (c, r) == Next(s, m)
  {
  }

  lemma LandedNext(s: Screen, m: nat, v: seq<Row>)
    requires s.Shaped() && m < s.cols && Landed(s, m, v)
    ensures var (x, y) := Next(s, m); Landed(s, m + 1, Poke(v, x, y, s.Blank()))
  {
    var (x, y) := Next(s, m);
    var w := Poke(v, x, y, s.Blank());
    forall r, c | 0 <= r < s.rows && 0 <= c < s.cols
      ensures w[r][c] == if Lands(s, m + 1, c, r) then s.Blank() else s.view[r][c]
    {
      LandsNext(s, m, c, r);
    }
  }

  lemma PutsNext(s: Screen, m: nat, v: seq<Row>)
    requires Editing(s) && m < s.cols && Rectangular(v, s.rows, s.cols)
    ensures var (x, y) := Next(s, m);
      RawPut(Behind(s, m, v), SPACE) == Behind(s, m + 1, Poke(v, x, y, s.Blank()))
  {
  }

  lemma OneMore(s: Screen, m: nat, n: nat, v: seq<Row>) returns (w: seq<Row>)
    requires Editing(s) && m < s.cols && n == m + 1 && Landed(s, m, v)
    ensures RawPut(Behind(s, m, v), SPACE) == Behind(s, n, w) && Landed(s, n, w)
  {
    PutsNext(s, m, v);
    LandedNext(s, m, v);
    var (x, y) := Next(s, m);
    w := Poke(v, x, y, s.Blank());
  }

  /** Where m blanks land and the cursor behind them, for up to a row of them. */
  lemma {:induction false} BlankRun(s: Screen, m: nat) returns (v: seq<Row>)
    requires Editing(s) && m <= s.cols
    ensures RawPutMany(s, SPACE, m) == Behind(s, m, v) && Landed(s, m, v)
  {
    if m == 0 {
      v := s.view;
    } else {
      v := BlankRun(s, m - 1);
      v := OneMore(s, m - 1, m, v);
    }
  }

  // ---- Any number of blanks ----

  /** n blanks from the cursor, room for them above row `limit`, which neither the bottom margin nor the clamp of the
      row against the columns comes before: the cells they cover, in reading order. */
  lemma {:induction false} EraseRun(s: Screen, n: nat, limit: nat) returns (x: nat, y: nat)
    requires Editing(s) && s.x < s.cols && s.y < limit <= s.bottom && limit <= s.cols
    requires s.y * s.cols + s.x + n <= limit * s.cols
    ensures RawPutMany(s, SPACE, n) == s.(view := RawPutMany(s, SPACE, n).view, x := x, y := y)
    ensures y < limit && x <= s.cols && y * s.cols + x == s.y * s.cols + s.x + n && (if n > 0 then x > 0 else x == s.x)
    ensures !Before(x, y, s.x, s.y)
    ensures ErasedBetween(s.view, RawPutMany(s, SPACE, n).view, s.Blank(), s.x, s.y, x, y)
  {
    x, y := s.x, s.y;
    if n > 0 {
      x, y := EraseRun(s, n - 1, limit);
      var u := RawPutMany(s, SPACE, n - 1);
      if x == s.cols {
        NextRowFits(y, limit, s.cols);
        EraseOnNextRow(s.view, u, s.x, s.y);
        x, y := 1, y + 1;
      } else {
        EraseInRow(s.view, u, s.x, s.y);
        x := x + 1;
      }
    }
  }

  /** One blank more, in the cursor's row or at the start of the next one. */
  lemma EraseInRow(before: seq<Row>, u: Screen, x: nat, y: nat)
    requires Editing(u) && u.x < u.cols && u.y < u.bottom && Rectangular(before, u.rows, u.cols)
    requires ErasedBetween(before, u.view, u.Blank(), x, y, u.x, u.y) && !Before(u.x, u.y, x, y)
    ensures var r := RawPut(u, SPACE);
      r == u.(view := r.view, x := u.x + 1) && ErasedBetween(before, r.view, u.Blank(), x, y, u.x + 1, u.y)
  {
  }

  lemma EraseOnNextRow(before: seq<Row>, u: Screen, x: nat, y: nat)
    requires Editing(u) && u.y + 1 < u.cols == u.x && u.y + 1 < u.bottom && Rectangular(before, u.rows, u.cols)
    requires ErasedBetween(before, u.view, u.Blank(), x, y, u.x, u.y) && !Before(u.x, u.y, x, y)
    ensures var r := RawPut(u, SPACE);
      r == u.(view := r.view, x := 1, y := u.y + 1) && ErasedBetween(before, r.view, u.Blank(), x, y, 1, u.y + 1)
  {
    var w := Wrapped(u);
    assert w == u.(x := 0, y := u.y + 1);
    assert ErasedBetween(before, w.view, u.Blank(), x, y, 0, u.y + 1);
  }

  lemma NextRowFits(y: nat, bottom: nat, cols: nat)
    requires 1 <= cols && y * cols + cols < bottom * cols
    ensures y + 1 < bottom && (y + 1) * cols == y * cols + cols
  {
    Multiple(bottom - y - 1, cols);
    assert (bottom - y - 1) * cols == bottom * cols - y * cols - cols;
  }

  // Cells that a run of blanks cannot reach.

  /** Above the bottom margin the cursor stays there. */
  lemma {:induction false} StaysAbove(s: Screen, n: nat)
    requires Editing(s) && s.y < s.bottom
    ensures var r := RawPutMany(s, SPACE, n);
      r.y < s.bottom && forall i :: s.bottom <= i < s.rows ==> r.view[i] == s.view[i]
  {
    if n > 0 {
      StaysAbove(s, n - 1);
    }
  }

  /** On or below the region's last row it stays in its row; past the row's end or below the screen nothing prints. */
  lemma {:induction false} StaysInRow(s: Screen, n: nat)
    requires Editing(s) && s.bottom - 1 <= s.y
    ensures var r := RawPutMany(s, SPACE, n);
      && r.y == s.y && r.x == s.x + n
      && (forall i :: 0 <= i < s.rows && i != s.y ==> r.view[i] == s.view[i])
      && (s.x >= s.cols || s.y >= s.rows ==> r.view == s.view)
  {
    if n > 0 {
      StaysInRow(s, n - 1);
    }
  }

  /** A pending wrap leaves its row for good. */
  lemma {:induction false} LeavesRow(s: Screen, n: nat)
    requires Editing(s) && s.rows <= s.cols && s.x >= s.cols && s.y + 1 < s.bottom
    ensures var r := RawPutMany(s, SPACE, n);
      r.view[s.y] == s.view[s.y] && r.y < s.bottom && (if n > 0 then r.y > s.y else r == s)
  {
    if n > 0 {
      LeavesRow(s, n - 1);
    }
  }

  /** On a terminal higher than wide the clamp keeps the last row out of reach. */
  lemma {:induction false} StaysOffLastRow(s: Screen, n: nat)
    requires Editing(s) && s.rows > s.cols && s.y < s.rows - 1
    ensures var r := RawPutMany(s, SPACE, n);
      r.y < s.rows - 1 && r.view[s.rows - 1] == s.view[s.rows - 1]
  {
    if n > 0 {
      StaysOffLastRow(s, n - 1);
    }
  }

  /** And it keeps a cursor among the first `cols` rows there. */
  lemma {:induction false} StaysAmongCols(s: Screen, n: nat)
    requires Editing(s) && s.y < s.cols
    ensures var r := RawPutMany(s, SPACE, n);
      r.y < s.cols && forall i :: s.cols <= i < s.rows ==> r.view[i] == s.view[i]
  {
    if n > 0 {
      StaysAmongCols(s, n - 1);
    }
  }
}
