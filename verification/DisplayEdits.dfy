/**
 ECMA-48's ED and IL (sections 8.3.39 and 8.3.67) as edits of the display, and exactly when the source performs them.
 */
module DisplayEdits {
  import opened Arithmetic
  import opened BlankRuns
  import opened Parsers
  import opened Screens

  // ---- ED ----

  /** CSI 0 J on this screen erases from the reported cursor to the end, whatever the cells contain. */
  ghost predicate ErasesAfterExactly(s: Screen)
    requires Editing(s)
  {
    forall v: seq<Row> :: Rectangular(v, s.rows, s.cols) ==> AfterAgrees(s.(view := v))
  }

  ghost predicate AfterAgrees(s: Screen)
    requires Editing(s)
  {
    var x, y := s.CursorX(), s.CursorY();
    Erases(s, EraseDisplay(s, x, y, 0), x, y, 0, s.rows)
  }

  /** No wrap is pending, the cursor is on the screen, and it stands on the last row or every row below it can be
      reached: the bottom margin is the last row and the terminal is not higher than wide. */
  predicate ErasesAfterFrom(s: Screen) {
    s.x < s.cols && s.y < s.rows && (s.y == s.rows - 1 || (s.bottom == s.rows && s.rows <= s.cols))
  }

  lemma AfterFromCell(s: Screen)
    requires Editing(s) && ErasesAfterFrom(s)
    ensures AfterAgrees(s)
  {
    CellsFromIs(s, s.x, s.y);
    if s.y == s.rows - 1 {
      AfterInLastRow(s);
    } else {
      AfterInRegion(s);
    }
  }

  lemma CellsFromIs(s: Screen, x: nat, y: nat)
    requires x < s.cols && y < s.rows
    ensures CellsFrom(s, x, y) == s.rows * s.cols - (y * s.cols + x)
    ensures y == s.rows - 1 ==> CellsFrom(s, x, y) == s.cols - x
  {
    assert (s.rows - (y + 1)) * s.cols == s.rows * s.cols - y * s.cols - s.cols;
  }

  lemma AfterInRegion(s: Screen)
    requires Editing(s) && s.rows <= s.cols && s.x < s.cols && s.y < s.rows == s.bottom
    requires CellsFrom(s, s.x, s.y) == s.rows * s.cols - (s.y * s.cols + s.x)
    ensures AfterAgrees(s)
  {
    var n := CellsFrom(s, s.x, s.y);
    var x, y := EraseRun(s, n, s.rows);
    EndOfGrid(x, y, s.rows, s.cols);
    var r := EraseDisplay(s, s.x, s.y, 0);
    assert r == SetCursor(RawPutMany(s, SPACE, n), s.x, s.y);
    assert ErasedBetween(s.view, r.view, s.Blank(), s.x, s.y, s.cols, s.rows - 1);
  }

  lemma AfterInLastRow(s: Screen)
    requires Editing(s) && s.x < s.cols && s.y == s.rows - 1 && CellsFrom(s, s.x, s.y) == s.cols - s.x
    ensures AfterAgrees(s)
  {
    var _ := BlankRun(s, s.cols - s.x);
  }

  lemma EndOfGrid(x: nat, y: nat, rows: nat, cols: nat)
    requires y < rows && x <= cols && y * cols + x == rows * cols && 1 <= cols
    ensures y == rows - 1 && x == cols
  {
    Multiple(rows - 1 - y, cols);
    assert (rows - 1 - y) * cols == rows * cols - y * cols - cols;
  }

  /** From the region's last row or below, or with a wrap pending, the blanks miss the last row or the cursor's cell. */
  lemma AfterStuck(s: Screen)
    requires Editing(s) && s.view == Marked(s) && !ErasesAfterFrom(s) && s.y >= s.bottom - 1
    ensures !AfterAgrees(s)
  {
    var x, y := s.CursorX(), s.CursorY();
    StaysInRow(s, CellsFrom(s, x, y));
    var r := EraseDisplay(s, x, y, 0);
    if s.x >= s.cols || s.y >= s.rows {
      assert r.view[y][x] == Marker(s);
    } else {
      assert r.view[s.rows - 1][0] == Marker(s);
    }
  }

  lemma AfterMisses(s: Screen)
    requires Editing(s) && s.view == Marked(s) && !ErasesAfterFrom(s) && s.y < s.bottom - 1
    requires s.rows > s.cols || s.x < s.cols
    ensures !AfterAgrees(s)
  {
    var x, y := s.CursorX(), s.CursorY();
    var n := CellsFrom(s, x, y);
    if s.rows > s.cols {
      StaysOffLastRow(s, n);
    } else {
      StaysAbove(s, n);
    }
    assert EraseDisplay(s, x, y, 0).view[s.rows - 1][0] == Marker(s);
  }

  lemma AfterWrapped(s: Screen)
    requires Editing(s) && s.view == Marked(s) && s.y < s.bottom - 1 && s.rows <= s.cols <= s.x
    ensures !AfterAgrees(s)
  {
    var x, y := s.CursorX(), s.CursorY();
    LeavesRow(s, CellsFrom(s, x, y));
    assert EraseDisplay(s, x, y, 0).view[y][x] == Marker(s);
  }

  lemma AfterNotFromCell(s: Screen)
    requires Editing(s) && s.view == Marked(s) && !ErasesAfterFrom(s)
    ensures !AfterAgrees(s)
  {
    if s.y >= s.bottom - 1 {
      AfterStuck(s);
    } else if s.rows > s.cols || s.x < s.cols {
      AfterMisses(s);
    } else {
      AfterWrapped(s);
    }
  }

  /** CSI 0 J erases exactly the cells from the cursor on if and only if no wrap is pending, the cursor is on the
      screen, and it stands on the last row or the bottom margin is that row of a terminal not higher than wide. */
  lemma EraseAfterExactly(s: Screen)
    requires Editing(s)
    ensures ErasesAfterExactly(s) == ErasesAfterFrom(s)
  {
    if ErasesAfterFrom(s) {
      forall v: seq<Row> | Rectangular(v, s.rows, s.cols) ensures AfterAgrees(s.(view := v)) {
        AfterFromCell(s.(view := v));
      }
    } else {
      AfterNotFromCell(Over(s));
      assert !AfterAgrees(s.(view := Over(s).view));
    }
  }

  /** CSI 1 J on this screen erases from the start through the reported cursor, whatever the cells contain. */
  ghost predicate ErasesThroughExactly(s: Screen)
    requires Editing(s)
  {
    forall v: seq<Row> :: Rectangular(v, s.rows, s.cols) ==> ThroughAgrees(s.(view := v))
  }

  ghost predicate ThroughAgrees(s: Screen)
    requires Editing(s)
  {
    var x, y := s.CursorX(), s.CursorY();
    Erases(s, EraseDisplay(s, x, y, 1), 0, 0, x + 1, y)
  }

  lemma ThroughIs(s: Screen, x: nat, y: nat, n: nat)
    requires Editing(s) && x < s.cols && y < s.rows && n == y * s.cols + x + 1
    ensures EraseDisplay(s, x, y, 1) == SetCursor(RawPutMany(SetCursor(s, 0, 0), SPACE, n), x, y)
  {
  }

  lemma ThroughCell(s: Screen)
    requires Editing(s) && s.CursorY() < s.bottom && s.CursorY() < s.cols
    ensures ThroughAgrees(s)
  {
    var x, y := s.CursorX(), s.CursorY();
    NotNegative(y, s.cols);
    var n := y * s.cols + x + 1;
    ThroughIs(s, x, y, n);
    RunThrough(SetCursor(s, 0, 0), x, y, n);
  }

  lemma RunThrough(s: Screen, x: nat, y: nat, n: nat)
    requires Editing(s) && s.x == s.y == 0 && x < s.cols && y < s.bottom && y < s.cols && n == y * s.cols + x + 1
    ensures var r := RawPutMany(s, SPACE, n);
      r == s.(view := r.view, x := r.x, y := r.y) && ErasedBetween(s.view, r.view, s.Blank(), 0, 0, x + 1, y)
  {
    RoomThrough(x, y, y + 1, s.cols);
    var x', y' := EraseRun(s, n, y + 1);
    SamePosition(x', y', x + 1, y, s.cols);
  }

  lemma RoomThrough(x: nat, y: nat, limit: nat, cols: nat)
    requires x < cols && limit == y + 1
    ensures y * cols + x + 1 <= limit * cols
  {
    Distributed(y, 1, cols);
  }

  /** Two positions behind a cell that are equally far from the start are the same. */
  lemma SamePosition(x: nat, y: nat, x': nat, y': nat, cols: nat)
    requires 0 < x <= cols && 0 < x' <= cols && y * cols + x == y' * cols + x'
    ensures x == x' && y == y'
  {
    Multiple(y - y', cols);
    assert (y - y') * cols == x' - x;
  }

  lemma ThroughNotCell(s: Screen)
    requires Editing(s) && s.view == Marked(s) && (s.CursorY() >= s.bottom || s.CursorY() >= s.cols)
    ensures !ThroughAgrees(s)
  {
    var x, y := s.CursorX(), s.CursorY();
    NotNegative(y, s.cols);
    var n := y * s.cols + x + 1;
    NotReached(SetCursor(s, 0, 0), n, x, y);
    ThroughIs(s, x, y, n);
    assert EraseDisplay(s, x, y, 1).view[y][x] == Marker(s);
  }

  lemma NotReached(s: Screen, n: nat, x: nat, y: nat)
    requires Editing(s) && s.x == s.y == 0 && x < s.cols && y < s.rows && (y >= s.bottom || y >= s.cols)
    ensures RawPutMany(s, SPACE, n).view[y][x] == s.view[y][x]
  {
    if y >= s.bottom {
      StaysAbove(s, n);
    } else {
      StaysAmongCols(s, n);
    }
  }

  /** CSI 1 J erases exactly the cells through the cursor if and only if the cursor is above the bottom margin and
      among the first `cols` rows. */
  lemma EraseThroughExactly(s: Screen)
    requires Editing(s)
    ensures ErasesThroughExactly(s) == (s.CursorY() < s.bottom && s.CursorY() < s.cols)
  {
    if s.CursorY() < s.bottom && s.CursorY() < s.cols {
      forall v: seq<Row> | Rectangular(v, s.rows, s.cols) ensures ThroughAgrees(s.(view := v)) {
        ThroughCell(s.(view := v));
      }
    } else {
      ThroughNotCell(Over(s));
      assert !ThroughAgrees(s.(view := Over(s).view));
    }
  }

  // ---- IL and the scrolling commands ----

  function BlankRows(m: nat, blank: Row): (r: seq<Row>)
    ensures |r| == m && forall i :: 0 <= i < m ==> r[i] == blank
  {
    seq(m, _ => blank)
  }

  /** The rows with m blank ones inserted at `top`, or appended at the region's end, and as many dropped. */
  function RowsDown(v: seq<Row>, top: nat, bottom: nat, m: nat, blank: Row): seq<Row>
    requires top <= bottom <= |v| && m <= bottom - top
  {
    v[..top] + (BlankRows(m, blank) + v[top..bottom - m]) + v[bottom..]
  }

  function RowsUp(v: seq<Row>, top: nat, bottom: nat, m: nat, blank: Row): seq<Row>
    requires top <= bottom <= |v| && m <= bottom - top
  {
    v[..top] + (v[top + m..bottom] + BlankRows(m, blank)) + v[bottom..]
  }

  /** Taking three parts apart. */
  lemma Parts(a: seq<Row>, b: seq<Row>, c: seq<Row>, top: nat, bottom: nat)
    requires |a| == top < bottom && |b| == bottom - top
    ensures var u := a + b + c;
      && u[..top] == a && u[bottom..] == c
      && u[top..bottom - 1] == b[..|b| - 1] && u[top + 1..bottom] == b[1..]
  {
  }

  lemma Regrouped(a: seq<Row>, b: seq<Row>, c: seq<Row>, d: seq<Row>)
    ensures a + b + c + d == a + (b + c) + d
  {
  }

  lemma RowsDownStep(v: seq<Row>, top: nat, bottom: nat, m: nat, blank: Row)
    requires top < bottom <= |v| && m <= bottom - top
    ensures var u := RowsDown(v, top, bottom, m, blank);
      u[..top] + [blank] + u[top..bottom - 1] + u[bottom..] == RowsDown(v, top, bottom, Min(m + 1, bottom - top), blank)
  {
    var region, n := BlankRows(m, blank) + v[top..bottom - m], Min(m + 1, bottom - top);
    Parts(v[..top], region, v[bottom..], top, bottom);
    Regrouped(v[..top], [blank], region[..|region| - 1], v[bottom..]);
    assert [blank] + region[..|region| - 1] == BlankRows(n, blank) + v[top..bottom - n];
  }

  lemma RowsUpStep(v: seq<Row>, top: nat, bottom: nat, m: nat, blank: Row)
    requires top < bottom <= |v| && m <= bottom - top
    ensures var u := RowsUp(v, top, bottom, m, blank);
      u[..top] + u[top + 1..bottom] + [blank] + u[bottom..] == RowsUp(v, top, bottom, Min(m + 1, bottom - top), blank)
  {
    var region, n := v[top + m..bottom] + BlankRows(m, blank), Min(m + 1, bottom - top);
    Parts(v[..top], region, v[bottom..], top, bottom);
    Regrouped(v[..top], region[1..], [blank], v[bottom..]);
    assert region[1..] + [blank] == v[top + n..bottom] + BlankRows(n, blank);
  }

  /** The screen after m scrolls of the region, in one step. */
  ghost function DownBy(s: Screen, m: nat): Screen
    requires s.Shaped() && s.top < s.bottom <= s.rows && m <= s.bottom - s.top
  {
    s.(view := RowsDown(s.view, s.top, s.bottom, m, BlankRow(s.cols, s.Blank())))
  }

  ghost function UpBy(s: Screen, m: nat): Screen
    requires s.Shaped() && s.top < s.bottom <= s.rows && m <= s.bottom - s.top
  {
    s.(view := RowsUp(s.view, s.top, s.bottom, m, BlankRow(s.cols, s.Blank())))
  }

  lemma DownOnce(s: Screen, m: nat, n: nat)
    requires s.Shaped() && s.top < s.bottom <= s.rows && m <= s.bottom - s.top
    requires n == Min(m + 1, s.bottom - s.top)
    ensures DownBy(s, m).Shaped() && ScrollDown(DownBy(s, m)) == DownBy(s, n)
  {
    RowsDownStep(s.view, s.top, s.bottom, m, BlankRow(s.cols, s.Blank()));
  }

  lemma UpOnce(s: Screen, m: nat, n: nat)
    requires s.Valid() && m <= s.bottom - s.top
    requires n == Min(m + 1, s.bottom - s.top)
    ensures UpBy(s, m).Valid() && ScrollUp(UpBy(s, m)) == UpBy(s, n)
  {
    RowsUpStep(s.view, s.top, s.bottom, m, BlankRow(s.cols, s.Blank()));
  }

  lemma NoRows(s: Screen)
    requires s.Shaped() && s.top < s.bottom <= s.rows
    ensures DownBy(s, 0) == s && UpBy(s, 0) == s
  {
    assert RowsDown(s.view, s.top, s.bottom, 0, BlankRow(s.cols, s.Blank())) == s.view;
    assert RowsUp(s.view, s.top, s.bottom, 0, BlankRow(s.cols, s.Blank())) == s.view;
  }

  /** n reverse scrolls, or n scrolls, of the region. */
  lemma {:induction false} ScrolledDown(s: Screen, n: nat)
    requires s.Shaped() && s.top < s.bottom <= s.rows
    ensures ScrollDownMany(s, n) == DownBy(s, Min(n, s.bottom - s.top))
  {
    if n == 0 {
      NoRows(s);
    } else {
      var m := Min(n - 1, s.bottom - s.top);
      ScrolledDown(s, n - 1);
      DownOnce(s, m, Min(n, s.bottom - s.top));
    }
  }

  lemma {:induction false} ScrolledUp(s: Screen, n: nat)
    requires s.Valid()
    ensures ScrollUpMany(s, n) == UpBy(s, Min(n, s.bottom - s.top))
  {
    if n == 0 {
      NoRows(s);
    } else {
      var m := Min(n - 1, s.bottom - s.top);
      ScrolledUp(s, n - 1);
      UpOnce(s, m, Min(n, s.bottom - s.top));
    }
  }

  /** CSI n L inserts min(n, bottom - y) blank rows at the cursor row, pushing rows out at the bottom margin; the
      margins and the cursor stay.  With the cursor below the region its row alone is blanked. */
  lemma InsertLinesExact(s: Screen, n: nat)
    requires Editing(s) && 1 <= n
    ensures var y, blank := s.CursorY(), BlankRow(s.cols, s.Blank());
      InsertLines(s, y, n) == s.(view :=
        if y < s.bottom then RowsDown(s.view, y, s.bottom, Min(n, s.bottom - y), blank) else s.view[y := blank])
  {
    var y := s.CursorY();
    if y < s.bottom {
      ScrolledDown(s.(top := y), Min(n, s.rows));
    } else {
      BlankedAgain(s.(top := y), Min(n, s.rows));
    }
  }

  lemma {:induction false} BlankedAgain(s: Screen, n: nat)
    requires s.Shaped() && 1 <= s.bottom <= s.top < s.rows && 1 <= n
    ensures ScrollDownMany(s, n) == s.(view := s.view[s.top := BlankRow(s.cols, s.Blank())])
  {
    if n > 1 {
      BlankedAgain(s, n - 1);
    }
  }
}
