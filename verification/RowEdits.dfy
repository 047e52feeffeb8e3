/**
 What the editing control sequences are for: ECMA-48's ICH, DCH, ECH and EL (sections 8.3.64, 8.3.26, 8.3.38 and
 8.3.41) as edits of one row, and exactly when the source performs them.
 */
module RowEdits {
  import opened Arithmetic
  import opened BlankRuns
  import opened Parsers
  import opened Screens

  // ---- ICH ----

  /** CSI n @ with n >= 1 inserts n blanks at the reported cursor and drops the tail; nothing else changes and the
      reported cursor stays. */
  lemma InsertExact(s: Screen, n: nat)
    requires Editing(s) && 1 <= n
    ensures var x, y := s.CursorX(), s.CursorY();
      var m, row, r := Min(n, s.cols - x), s.view[y], InsertChars(s, x, y, n);
      && r.view == s.view[y := row[..x] + Blanks(m, s.Blank()) + row[x..s.cols - m]]
      && r == s.(view := r.view, x := x, y := y)
  {
    var x, y := s.CursorX(), s.CursorY();
    var m, row := Min(n, s.cols - x), s.view[y];
    assert Inserted(row, x, n, s.Blank()) == row[..x] + Blanks(m, s.Blank()) + row[x..s.cols - m];
  }

  // ---- DCH ----

  /** The row with n cells deleted at x and blanks at its end. */
  function Deleted(row: Row, x: nat, n: nat, blank: Cell): (r: Row)
    requires x <= |row|
    ensures |r| == |row|
  {
    var m := Min(n, |row| - x);
    row[..x] + row[x + m..] + Blanks(m, blank)
  }

  function IdealDelete(s: Screen, x: nat, y: nat, n: nat): (r: Screen)
    requires s.Valid() && x < s.cols && y < s.rows
    ensures r.Valid()
  {
    s.(view := s.view[y := Deleted(s.view[y], x, n, s.Blank())], x := x, y := y)
  }

  /** The first column that CSI n P blanks: cols - n, or what that wraps to below zero. */
  function DeleteFrom(s: Screen, n: nat): (r: nat)
    requires s.Valid() && s.cols < TWO_32 && n < TWO_32
    ensures r < s.cols || (n == 0 && r == s.cols - 1)
  {
    Clamp(Wrap64(s.cols - n), s.cols)
  }

  lemma DeleteStart(s: Screen, n: nat)
    requires s.Valid() && s.cols < TWO_32 && n < TWO_32
    ensures 1 <= n <= s.cols ==> DeleteFrom(s, n) == s.cols - n
    ensures s.cols < n <= s.cols + 0x8000_0000 ==> DeleteFrom(s, n) == 0
    ensures s.cols + 0x8000_0000 < n ==> DeleteFrom(s, n) == s.cols - 1
  {
    if s.cols < n {
      assert Wrap64(s.cols - n) == TWO_64 + s.cols - n;
      assert (TWO_64 + s.cols - n) % TWO_32 == TWO_32 + s.cols - n;
    }
  }

  /** The screen that CSI n P prints its blanks on. */
  function Moved(s: Screen, x: nat, y: nat, n: nat): (r: Screen)
    requires Editing(s) && x < s.cols && y < s.rows && n < TWO_32
    ensures r.Valid()
  {
    s.(view := s.view[y := MovedLeft(s.view[y], x, n)], x := DeleteFrom(s, n), y := y)
  }

  /** CSI n P is the row moved left with min(n, cols) blanks printed from `DeleteFrom` on. */
  lemma DeleteShape(s: Screen, x: nat, y: nat, n: nat)
    requires Editing(s) && x < s.cols && y < s.rows && n < TWO_32
    ensures var r := DeleteChars(s, x, y, n);
      r == s.(view := r.view, x := x, y := y) && Landed(Moved(s, x, y, n), Min(n, s.cols), r.view)
  {
    var _ := BlankRun(Moved(s, x, y, n), Min(n, s.cols));
  }

  /** CSI n P on this screen deletes n cells at the cursor, whatever the cells contain. */
  ghost predicate DeletesExactly(s: Screen, x: nat, y: nat, n: nat)
    requires Editing(s) && x < s.cols && y < s.rows && n < TWO_32
  {
    forall v: seq<Row> :: Rectangular(v, s.rows, s.cols) ==> DeleteAgrees(s.(view := v), x, y, n)
  }

  ghost predicate DeleteAgrees(s: Screen, x: nat, y: nat, n: nat)
    requires Editing(s) && x < s.cols && y < s.rows && n < TWO_32
  {
    DeleteChars(s, x, y, n) == IdealDelete(s, x, y, n)
  }

  /** The blanks land on the row's tail and nowhere else. */
  ghost predicate LandsOnTail(s: Screen, x: nat, y: nat, n: nat)
    requires Editing(s) && x < s.cols && y < s.rows && n < TWO_32
  {
    forall r, c :: 0 <= r < s.rows && 0 <= c < s.cols ==>
      (Lands(Moved(s, x, y, n), Min(n, s.cols), c, r) <==> r == y && c >= s.cols - Min(n, s.cols - x))
  }

  lemma TailSuffices(s: Screen, x: nat, y: nat, n: nat)
    requires Editing(s) && x < s.cols && y < s.rows && n < TWO_32 && LandsOnTail(s, x, y, n)
    ensures DeleteAgrees(s, x, y, n)
  {
    DeleteShape(s, x, y, n);
    var r, i := DeleteChars(s, x, y, n).view, IdealDelete(s, x, y, n).view;
    forall k | 0 <= k < s.rows ensures r[k] == i[k] {
      assert forall c :: 0 <= c < s.cols ==> r[k][c] == i[k][c];
    }
  }

  lemma TailNeeded(s: Screen, x: nat, y: nat, n: nat, c: nat, r: nat)
    requires Editing(s) && x < s.cols && y < s.rows && n < TWO_32 && s.view == Marked(s) && r < s.rows && c < s.cols
    requires Lands(Moved(s, x, y, n), Min(n, s.cols), c, r) != (r == y && c >= s.cols - Min(n, s.cols - x))
    ensures !DeleteAgrees(s, x, y, n)
  {
    DeleteShape(s, x, y, n);
    assert DeleteChars(s, x, y, n).view[r][c] != IdealDelete(s, x, y, n).view[r][c];
  }

  /** When the blanks of CSI n P land on the tail alone.  Up to cols + 2^31 they end with the row; above that they start
      in the last column and run on where a wrap leads. */
  predicate DeleteFits(s: Screen, x: nat, y: nat, n: nat) {
    if n <= s.cols + 0x8000_0000 then
      x + n <= s.cols || x == 0
    else
      s.cols == 1 || (y + 1 >= s.bottom && x == s.cols - 1) || (y + 1 < s.bottom && y == s.cols - 1 && x == 0)
  }

  lemma DeleteFitting(s: Screen, x: nat, y: nat, n: nat)
    requires Editing(s) && x < s.cols && y < s.rows && 1 <= n < TWO_32 && DeleteFits(s, x, y, n)
    ensures DeleteAgrees(s, x, y, n)
  {
    DeleteStart(s, n);
    TailSuffices(s, x, y, n);
  }

  lemma NearMisfit(s: Screen, x: nat, y: nat, n: nat)
    requires Editing(s) && x < s.cols && y < s.rows && 1 <= n <= s.cols + 0x8000_0000 && n < TWO_32
    requires s.view == Marked(s) && !DeleteFits(s, x, y, n)
    ensures !DeleteAgrees(s, x, y, n)
  {
    DeleteStart(s, n);
    TailNeeded(s, x, y, n, DeleteFrom(s, n), y);
  }

  lemma FarMisfit(s: Screen, x: nat, y: nat, n: nat)
    requires Editing(s) && x < s.cols && y < s.rows && s.cols + 0x8000_0000 < n < TWO_32
    requires s.view == Marked(s) && !DeleteFits(s, x, y, n)
    ensures !DeleteAgrees(s, x, y, n)
  {
    DeleteStart(s, n);
    if y + 1 >= s.bottom {
      TailNeeded(s, x, y, n, x, y);
    } else {
      TailNeeded(s, x, y, n, 0, RowBelow(s.(y := y)));
    }
  }

  lemma DeleteMisfit(s: Screen, x: nat, y: nat, n: nat)
    requires Editing(s) && x < s.cols && y < s.rows && 1 <= n < TWO_32
    requires s.view == Marked(s) && !DeleteFits(s, x, y, n)
    ensures !DeleteAgrees(s, x, y, n)
  {
    if n <= s.cols + 0x8000_0000 {
      NearMisfit(s, x, y, n);
    } else {
      FarMisfit(s, x, y, n);
    }
  }

  /** CSI n P deletes n cells at the cursor exactly when all of them lie in the row or the cursor is in the first
      column; otherwise it also blanks cells to the left of the cursor.  Parameters above cols + 2^31 start in the last
      column, and run on into the next row. */
  lemma DeleteExactly(s: Screen, x: nat, y: nat, n: nat)
    requires Editing(s) && x < s.cols && y < s.rows && 1 <= n < TWO_32
    ensures DeletesExactly(s, x, y, n) == DeleteFits(s, x, y, n)
  {
    if DeleteFits(s, x, y, n) {
      DeletesWhenFitting(s, x, y, n);
    } else {
      DeletesNot(s, x, y, n);
    }
  }

  lemma DeletesWhenFitting(s: Screen, x: nat, y: nat, n: nat)
    requires Editing(s) && x < s.cols && y < s.rows && 1 <= n < TWO_32 && DeleteFits(s, x, y, n)
    ensures DeletesExactly(s, x, y, n)
  {
    forall v: seq<Row> | Rectangular(v, s.rows, s.cols) ensures DeleteAgrees(s.(view := v), x, y, n) {
      DeleteFitting(s.(view := v), x, y, n);
    }
  }

  lemma DeletesNot(s: Screen, x: nat, y: nat, n: nat)
    requires Editing(s) && x < s.cols && y < s.rows && 1 <= n < TWO_32 && !DeleteFits(s, x, y, n)
    ensures !DeletesExactly(s, x, y, n)
  {
    DeleteMisfit(Over(s), x, y, n);
    assert !DeleteAgrees(s.(view := Over(s).view), x, y, n);
  }

  // ---- ECH and EL ----

  /** CSI n X on this screen blanks n cells from the reported cursor on, as far as the row goes, whatever the cells
      contain. */
  ghost predicate ErasesCharsExactly(s: Screen, n: nat)
    requires Editing(s)
  {
    forall v: seq<Row> :: Rectangular(v, s.rows, s.cols) ==> CharsAgree(s.(view := v), n)
  }

  ghost predicate CharsAgree(s: Screen, n: nat)
    requires Editing(s)
  {
    var x, y := s.CursorX(), s.CursorY();
    Erases(s, EraseChars(s, x, y, n), x, y, Min(x + n, s.cols), y)
  }

  lemma CharsShape(s: Screen, n: nat)
    requires Editing(s)
    ensures var r := EraseChars(s, s.CursorX(), s.CursorY(), n);
      r == s.(view := r.view, x := s.CursorX(), y := s.CursorY()) && Landed(s, Min(n, s.cols), r.view)
  {
    var _ := BlankRun(s, Min(n, s.cols));
  }

  /** Where the blanks of CSI n X land on those cells alone: on a cursor without a pending wrap in the region's last row
      or below, or with the cells in its row; and on the first row of a single column, where a wrap leads back. */
  predicate CharsFit(s: Screen, n: nat) {
    || (s.x < s.cols && s.y < s.rows && (s.x + n <= s.cols || s.x == 0 || s.y + 1 >= s.bottom))
    || (s.cols == 1 && s.x >= 1 && s.y == 0 && s.bottom > 1)
  }

  lemma CharsFitting(s: Screen, n: nat)
    requires Editing(s) && 1 <= n && CharsFit(s, n)
    ensures CharsAgree(s, n)
  {
    CharsShape(s, n);
  }

  lemma CharsMisfit(s: Screen, n: nat)
    requires Editing(s) && 1 <= n && s.view == Marked(s) && !CharsFit(s, n)
    ensures !CharsAgree(s, n)
  {
    var x, y := s.CursorX(), s.CursorY();
    CharsShape(s, n);
    var v := EraseChars(s, x, y, n).view;
    if s.y + 1 < s.bottom {
      assert v[RowBelow(s)][0] == s.Blank();
    } else {
      assert v[y][x] == Marker(s);
    }
  }

  /** CSI n X with n >= 1 erases exactly the n cells from the cursor on, as far as the row goes, if and only if no wrap
      is pending, the cursor is on the screen, and the cells lie in the row, fill it, or cannot wrap; or the wrap that
      is pending leads back to the only column of the only row within reach. */
  lemma EraseCharsExactly(s: Screen, n: nat)
    requires Editing(s) && 1 <= n
    ensures ErasesCharsExactly(s, n) == CharsFit(s, n)
  {
    if CharsFit(s, n) {
      forall v: seq<Row> | Rectangular(v, s.rows, s.cols) ensures CharsAgree(s.(view := v), n) {
        CharsFitting(s.(view := v), n);
      }
    } else {
      CharsMisfit(Over(s), n);
      assert !CharsAgree(s.(view := Over(s).view), n);
    }
  }

  /** CSI 0 K on this screen erases from the reported cursor to the end of its row, whatever the cells contain. */
  ghost predicate ErasesRestExactly(s: Screen)
    requires Editing(s)
  {
    forall v: seq<Row> :: Rectangular(v, s.rows, s.cols) ==> RestAgrees(s.(view := v))
  }

  ghost predicate RestAgrees(s: Screen)
    requires Editing(s)
  {
    var x, y := s.CursorX(), s.CursorY();
    Erases(s, EraseLine(s, x, y, 0), x, y, s.cols, y)
  }

  lemma RestIsChars(s: Screen)
    requires Editing(s)
    ensures RestAgrees(s) <==> CharsAgree(s, s.cols - s.CursorX())
  {
  }

  lemma RestFitting(s: Screen)
    requires Editing(s) && CharsFit(s, s.cols - s.CursorX())
    ensures RestAgrees(s)
  {
    RestIsChars(s);
    CharsFitting(s, s.cols - s.CursorX());
  }

  lemma RestMisfit(s: Screen)
    requires Editing(s) && s.view == Marked(s) && !CharsFit(s, s.cols - s.CursorX())
    ensures !RestAgrees(s)
  {
    RestIsChars(s);
    CharsMisfit(s, s.cols - s.CursorX());
  }

  /** CSI 0 K erases exactly the cells from the cursor to the end of the row if and only if no wrap is pending and the
      cursor is on the screen, or the wrap leads back to that cell. */
  lemma EraseRestExactly(s: Screen)
    requires Editing(s)
    ensures ErasesRestExactly(s)
         == ((s.x < s.cols && s.y < s.rows) || (s.cols == 1 && s.x >= 1 && s.y == 0 && s.bottom > 1))
  {
    if CharsFit(s, s.cols - s.CursorX()) {
      ErasesRest(s);
    } else {
      RestMisfit(Over(s));
      assert !RestAgrees(s.(view := Over(s).view));
    }
  }

  lemma ErasesRest(s: Screen)
    requires Editing(s) && CharsFit(s, s.cols - s.CursorX())
    ensures ErasesRestExactly(s)
  {
    forall v: seq<Row> | Rectangular(v, s.rows, s.cols) ensures RestAgrees(s.(view := v)) {
      RestFitting(s.(view := v));
    }
  }

  /** CSI 1 K erases the cells before the cursor. */
  lemma EraseBeforeExact(s: Screen)
    requires Editing(s)
    ensures var x, y := s.CursorX(), s.CursorY(); Erases(s, EraseLine(s, x, y, 1), 0, y, x, y)
  {
    var _ := BlankRun(SetCursor(s, 0, s.CursorY()), s.CursorX());
  }

  /** It erases the cells through the cursor, as ECMA-48 has it, if and only if the cursor's own is blank already. */
  lemma CursorCellKept(s: Screen)
    requires Editing(s)
    ensures var x, y := s.CursorX(), s.CursorY();
      Erases(s, EraseLine(s, x, y, 1), 0, y, x + 1, y) == (s.view[y][x] == s.Blank())
  {
    var x, y := s.CursorX(), s.CursorY();
    EraseBeforeExact(s);
    OneCellMore(s.view, EraseLine(s, x, y, 1).view, s.Blank(), x, y);
  }

  lemma OneCellMore(before: seq<Row>, after: seq<Row>, blank: Cell, x: nat, y: nat)
    requires y < |before| && x < |before[y]| && ErasedBetween(before, after, blank, 0, y, x, y)
    ensures ErasedBetween(before, after, blank, 0, y, x + 1, y) == (before[y][x] == blank)
  {
    assert after[y][x] == before[y][x];
  }

  /** CSI 2 K erases the cursor's row and puts the cursor back. */
  lemma EraseRowExact(s: Screen)
    requires Editing(s)
    ensures var y := s.CursorY(); Erases(s, EraseLine(s, s.CursorX(), y, 2), 0, y, s.cols, y)
  {
    var _ := BlankRun(SetCursor(s, 0, s.CursorY()), s.cols);
  }
}
