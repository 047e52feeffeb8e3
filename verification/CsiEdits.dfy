/**
 Control sequences that edit the screen (control_sequence_parse in flanterm/flanterm.c), as the loops
 over backend calls that the source runs, each proved against its function in module `Parsers`.
 */
module CsiEdits {
  import opened Arithmetic
  import opened Screens
  import opened Parsers
  import opened Backends

  /** One more of many equal characters. */
  method PutNext(fb: Backend, ghost s: Screen, c: Byte, ghost k: nat) returns (ghost next: nat)
    requires fb.Consistent() && s.Valid() && fb.Abs() == RawPutMany(s, c, k)
    modifies fb`queueI, fb`view, fb.queue, fb.slot, fb`cursorX, fb`cursorY
    ensures fb.Consistent() && next == k + 1 && fb.Abs() == RawPutMany(s, c, next)
  {
    fb.RawPutchar(c);
    next := k + 1;
  }

  method PutMany(fb: Backend, c: Byte, n: nat)
    requires fb.Consistent() && fb.Abs().Valid()
    modifies fb`queueI, fb`view, fb.queue, fb.slot, fb`cursorX, fb`cursorY
    ensures fb.Consistent() && fb.Abs() == RawPutMany(old(fb.Abs()), c, n)
  {
    ghost var s := fb.Abs();
    for i := 0 to n
      invariant fb.Consistent() && fb.Abs() == RawPutMany(s, c, i)
    {
      ghost var next := PutNext(fb, s, c, i);
    }
  }

  method ScrollMany(fb: Backend, n: nat)
    requires fb.Consistent() && fb.Abs().Valid()
    modifies fb`queueI, fb`view, fb.queue, fb.slot
    ensures fb.Consistent() && fb.Abs() == ScrollUpMany(old(fb.Abs()), n)
  {
    ghost var s := fb.Abs();
    for i := 0 to n
      invariant fb.Consistent() && fb.Abs() == ScrollUpMany(s, i)
    {
      fb.Scroll();
    }
  }

  /** CSI L. */
  method OpenLines(fb: Backend, y: nat, n: nat)
    requires fb.Consistent() && fb.Abs().Valid() && y < fb.rows
    modifies fb`queueI, fb`view, fb.queue, fb.slot, fb`scrollTop
    ensures fb.Consistent() && fb.Abs() == InsertLines(old(fb.Abs()), y, n)
  {
    var oldScrollTop := fb.scrollTop;
    fb.scrollTop := y;
    ghost var s := fb.Abs();
    var count := if n > fb.rows then fb.rows else n;
    for i := 0 to count
      invariant fb.Consistent() && fb.Abs() == ScrollDownMany(s, i)
    {
      fb.RevScroll();
    }
    fb.scrollTop := oldScrollTop;
  }

  /** CSI J. */
  method Display(fb: Backend, x: nat, y: nat, mode: nat)
    requires fb.Consistent() && fb.Abs().Valid() && x < fb.cols < TWO_32 && y < fb.rows < TWO_32
    modifies fb`queueI, fb`view, fb.queue, fb.slot, fb`cursorX, fb`cursorY
    ensures fb.Consistent() && fb.Abs() == EraseDisplay(old(fb.Abs()), x, y, mode)
  {
    if mode == 0 {
      DisplayAfter(fb, x, y);
    } else if mode == 1 {
      DisplayBefore(fb, x, y);
    } else if mode == 2 || mode == 3 {
      fb.Clear(false);
    }
  }

  method DisplayAfter(fb: Backend, x: nat, y: nat)
    requires fb.Consistent() && fb.Abs().Valid() && x < fb.cols < TWO_32 && y < fb.rows < TWO_32
    modifies fb`queueI, fb`view, fb.queue, fb.slot, fb`cursorX, fb`cursorY
    ensures fb.Consistent() && fb.Abs() == EraseDisplay(old(fb.Abs()), x, y, 0)
  {
    var rowsRemaining := fb.rows - (y + 1);
    var colsDiff := fb.cols - (x + 1);
    ghost var n := CellsFrom(fb.Abs(), x, y);
    PutMany(fb, SPACE, rowsRemaining * fb.cols + colsDiff + 1);
    fb.SetCursorPos(x, y);
  }

  method DisplayBefore(fb: Backend, x: nat, y: nat)
    requires fb.Consistent() && fb.Abs().Valid() && x < fb.cols < TWO_32 && y < fb.rows < TWO_32
    modifies fb`queueI, fb`view, fb.queue, fb.slot, fb`cursorX, fb`cursorY
    ensures fb.Consistent() && fb.Abs() == EraseDisplay(old(fb.Abs()), x, y, 1)
  {
    fb.SetCursorPos(0, 0);
    EraseToCursor(fb, x, y);
    fb.SetCursorPos(x, y);
  }

  /** CSI 1 J: from the first cell until the cursor cell has been printed.  The source puts the cursor
      back before it leaves the loops, here the caller does. */
  method EraseToCursor(fb: Backend, x: nat, y: nat)
    requires fb.Consistent() && fb.Abs().Valid() && x < fb.cols && y < fb.rows
    modifies fb`queueI, fb`view, fb.queue, fb.slot, fb`cursorX, fb`cursorY
    ensures fb.Consistent() && fb.Abs() == RawPutMany(old(fb.Abs()), SPACE, y * fb.cols + x + 1)
  {
    ghost var s, last := fb.Abs(), y * fb.cols + x + 1;
    ghost var k: nat := 0;
    for yc := 0 to fb.rows
      invariant yc <= y && fb.Consistent() && k == yc * fb.cols
      invariant fb.Abs() == RawPutMany(s, SPACE, k)
    {
      NextRow(yc, fb.cols);
      var found;
      found, k := EraseRowToCursor(fb, yc, x, y, s, k);
      if found {
        assert k == last;
        return;
      }
    }
  }

  lemma NextRow(y: nat, cols: nat)
    ensures (y + 1) * cols == y * cols + cols
  {
  }

  /** One row of CSI 1 J, up to the cursor cell; says whether that cell was in it. */
  method EraseRowToCursor(fb: Backend, yc: nat, x: nat, y: nat, ghost s: Screen, ghost k: nat) returns (found: bool, ghost n: nat)
    requires fb.Consistent() && s.Valid() && x < fb.cols && fb.Abs() == RawPutMany(s, SPACE, k)
    modifies fb`queueI, fb`view, fb.queue, fb.slot, fb`cursorX, fb`cursorY
    ensures fb.Consistent() && found == (yc == y)
    ensures n == (if found then k + x + 1 else k + fb.cols) && fb.Abs() == RawPutMany(s, SPACE, n)
  {
    n := k;
    for xc := 0 to fb.cols
      invariant (yc == y ==> xc <= x) && n == k + xc
      invariant fb.Consistent() && fb.Abs() == RawPutMany(s, SPACE, n)
    {
      n := PutNext(fb, s, SPACE, n);
      if xc == x && yc == y {
        return true, n;
      }
    }
    return false, n;
  }

  /** CSI K. */
  method Line(fb: Backend, x: nat, y: nat, mode: nat)
    requires fb.Consistent() && fb.Abs().Valid() && x < fb.cols < TWO_32 && y < fb.rows < TWO_32
    modifies fb`queueI, fb`view, fb.queue, fb.slot, fb`cursorX, fb`cursorY
    ensures fb.Consistent() && fb.Abs() == EraseLine(old(fb.Abs()), x, y, mode)
  {
    if mode == 0 {
      PutMany(fb, SPACE, fb.cols - x);
      fb.SetCursorPos(x, y);
    } else if mode == 1 {
      fb.SetCursorPos(0, y);
      PutMany(fb, SPACE, x);
    } else if mode == 2 {
      fb.SetCursorPos(0, y);
      PutMany(fb, SPACE, fb.cols);
      fb.SetCursorPos(x, y);
    }
  }

  /** CSI X. */
  method Chars(fb: Backend, x: nat, y: nat, n: nat)
    requires fb.Consistent() && fb.Abs().Valid() && x < fb.cols < TWO_32 && y < fb.rows < TWO_32
    modifies fb`queueI, fb`view, fb.queue, fb.slot, fb`cursorX, fb`cursorY
    ensures fb.Consistent() && fb.Abs() == EraseChars(old(fb.Abs()), x, y, n)
  {
    PutMany(fb, SPACE, if n > fb.cols then fb.cols else n);
    fb.SetCursorPos(x, y);
  }

  /** CSI P. */
  method Delete(fb: Backend, x: nat, y: nat, n: nat)
    requires fb.Consistent() && fb.Abs().Valid() && x < fb.cols < TWO_32 && y < fb.rows < TWO_32
    modifies fb`queueI, fb`view, fb.queue, fb.slot, fb`cursorX, fb`cursorY
    ensures fb.Consistent() && fb.Abs() == DeleteChars(old(fb.Abs()), x, y, n)
  {
    MoveLeft(fb, x, y, n);
    ToTail(fb, y, n);
    Chars(fb, x, y, n);
  }

  method ToTail(fb: Backend, y: nat, n: nat)
    requires fb.Consistent() && fb.Abs().Valid() && y < fb.rows < TWO_32
    modifies fb`cursorX, fb`cursorY
    ensures fb.Consistent() && fb.Abs() == AtTail(old(fb.Abs()), y, n)
  {
    fb.SetCursorPos(Wrap64(fb.cols - n), y);
  }

  method MoveLeft(fb: Backend, x: nat, y: nat, n: nat)
    requires fb.Consistent() && fb.Abs().Valid() && x < fb.cols && y < fb.rows
    modifies fb`queueI, fb`view, fb.queue, fb.slot
    ensures fb.Consistent()
    ensures fb.Abs() == Shortened(old(fb.Abs()), x, y, n)
  {
    ghost var s := fb.Abs();
    var i := x + n;
    assert MovedLeftUpTo(s.view[y], x, n, Min(i, fb.cols)) == s.view[y];
    while i < fb.cols
      invariant x + n <= i && fb.Consistent() && (i < fb.cols ==> i == x + n || i <= fb.cols)
      invariant fb.Abs() == s.(view := s.view[y := MovedLeftUpTo(s.view[y], x, n, Min(i, fb.cols))])
    {
      MoveLeftStep(s.view[y], x, n, i);
      fb.MoveCharacter(i - n, y, i, y);
      i := i + 1;
    }
    assert MovedLeftUpTo(s.view[y], x, n, fb.cols) == MovedLeft(s.view[y], x, n);
  }

  lemma MoveLeftStep(row: Row, x: nat, n: nat, i: nat)
    requires x + n <= i < |row|
    ensures var r := MovedLeftUpTo(row, x, n, i); r[i - n := r[i]] == MovedLeftUpTo(row, x, n, i + 1)
  {
  }

  /** CSI @: last cell first, so that nothing is overwritten before it has moved. */
  method Insert(fb: Backend, x: nat, y: nat, n: nat)
    requires fb.Consistent() && fb.Abs().Valid() && x < fb.cols < TWO_32 && y < fb.rows < TWO_32
    modifies fb`queueI, fb`view, fb.queue, fb.slot, fb`cursorX, fb`cursorY
    ensures fb.Consistent() && fb.Abs() == InsertChars(old(fb.Abs()), x, y, n)
  {
    InsertCells(fb, x, y, n);
    fb.SetCursorPos(x, y);
  }

  method InsertCell(fb: Backend, i: nat, y: nat, n: nat)
    requires fb.Consistent() && fb.Abs().Valid() && i < fb.cols < TWO_32 && y < fb.rows < TWO_32
    modifies fb`queueI, fb`view, fb.queue, fb.slot, fb`cursorX, fb`cursorY
    ensures fb.Consistent()
    ensures fb.Abs() == RawPut(SetCursor(MoveCharacter(old(fb.Abs()), i + n, y, i, y), i, y), SPACE)
  {
    fb.MoveCharacter(i + n, y, i, y);
    fb.SetCursorPos(i, y);
    fb.RawPutchar(SPACE);
  }

  method InsertCells(fb: Backend, x: nat, y: nat, n: nat)
    requires fb.Consistent() && fb.Abs().Valid() && x < fb.cols < TWO_32 && y < fb.rows < TWO_32
    modifies fb`queueI, fb`view, fb.queue, fb.slot, fb`cursorX, fb`cursorY
    ensures fb.Consistent()
    ensures fb.view == old(fb.view)[y := Inserted(old(fb.view)[y], x, n, fb.Abs().Blank())]
  {
    ghost var s := fb.Abs();
    var i := fb.cols - 1;
    assert s.view[y] == Inserted(s.view[y], i + 1, n, s.Blank());
    while true
      invariant x <= i < fb.cols && fb.Consistent() && fb.Abs().Valid()
      invariant fb.view == s.view[y := Inserted(s.view[y], i + 1, n, s.Blank())]
      decreases i
    {
      InsertScreenStep(fb.Abs(), s.view, i, y, n, s.Blank());
      InsertCell(fb, i, y, n);
      if i == x {
        break;
      }
      i := i - 1;
    }
  }

  /** One round of the loop: the cell moves n to the right and its old place is blanked. */
  lemma InsertScreenStep(s: Screen, v: seq<Row>, i: nat, y: nat, n: nat, blank: Cell)
    requires s.Valid() && Rectangular(v, s.rows, s.cols) && i < s.cols < TWO_32 && y < s.rows < TWO_32
    requires s.view == v[y := Inserted(v[y], i + 1, n, blank)] && s.Blank() == blank
    ensures var r := RawPut(SetCursor(MoveCharacter(s, i + n, y, i, y), i, y), SPACE);
      r.view == v[y := Inserted(v[y], i, n, blank)] && SameSetup(s, r)
  {
    InsertStep(v[y], i, n, blank);
  }

  lemma InsertStep(row: Row, i: nat, n: nat, blank: Cell)
    requires i < |row|
    ensures var r := Inserted(row, i + 1, n, blank);
      (if i + n < |row| then r[i + n := r[i]] else r)[i := blank] == Inserted(row, i, n, blank)
  {
  }

  /** One round of the loop: the cell moves to the right, unless it is the last. */
  lemma OpenScreenStep(s: Screen, v: seq<Row>, i: nat, y: nat)
    requires s.Shaped() && Rectangular(v, s.rows, s.cols) && i < s.cols && y < s.rows
    requires s.view == v[y := OpenedAt(v[y], if i + 1 < s.cols then i + 1 else i)]
    ensures MoveCharacter(s, i + 1, y, i, y).view == v[y := OpenedAt(v[y], i)]
  {
    assert i + 1 < s.cols ==> OpenedAt(v[y], i + 1)[i + 1 := v[y][i]] == OpenedAt(v[y], i);
  }

  /** Insert mode: the row from x on moves right by one. */
  method OpenGap(fb: Backend, x: nat, y: nat)
    requires fb.Consistent() && fb.Abs().Valid() && x < fb.cols && y < fb.rows
    modifies fb`queueI, fb`view, fb.queue, fb.slot
    ensures fb.Consistent()
    ensures fb.Abs() == old(fb.Abs()).(view := old(fb.view)[y := OpenedAt(old(fb.view)[y], x)])
  {
    ghost var v := fb.view;
    var i := fb.cols - 1;
    assert v[y] == OpenedAt(v[y], i);
    while true
      invariant x <= i < fb.cols && fb.Consistent() && fb.Abs().Valid()
      invariant fb.view == v[y := OpenedAt(v[y], if i + 1 < fb.cols then i + 1 else i)]
      decreases i
    {
      OpenScreenStep(fb.Abs(), v, i, y);
      fb.MoveCharacter(i + 1, y, i, y);
      if i == x {
        break;
      }
      i := i - 1;
    }
  }

  /** CSI r. */
  method Margins(fb: Backend, v0: nat, v1: nat, n: nat)
    requires fb.Consistent() && fb.Abs().Valid()
    modifies fb`scrollTop, fb`scrollBottom, fb`cursorX, fb`cursorY
    ensures fb.Consistent() && fb.Abs() == SetMargins(old(fb.Abs()), v0, v1, n)
  {
    var w0 := if v0 == 0 then 1 else v0;
    var w1 := if v1 == 0 then 1 else v1;
    var top := if n > 0 then w0 - 1 else 0;
    var bottom := if n > 1 then w1 else fb.rows;
    if top >= fb.rows || bottom > fb.rows || top >= bottom - 1 {
      top, bottom := 0, fb.rows;
    }
    fb.scrollTop, fb.scrollBottom := top, bottom;
    fb.SetCursorPos(0, 0);
  }

  // ---- Dispatch ----

  /** Column a motion goes to.  The clamped parameter is a local here; the source clamps it in the array. */
  method TargetX(ghost s: Screen, cols: nat, c: Byte, v: seq<int>, x: nat) returns (toX: nat)
    requires s.Valid() && x == s.CursorX() && s.cols == cols < TWO_32 && CsiValues(v)
    ensures toX == MotionX(s, c, v)
  {
    toX := x;
    match c as char {
      case 'E' | 'F' => toX := 0;
      case 'C' | 'a' => toX := x + if x + v[0] > cols - 1 then cols - 1 - x else v[0];
      case 'D' => toX := x - if v[0] > x then x else v[0];
      case 'G' | '`' =>
        var w := (v[0] - 1) % TWO_32;
        toX := if w >= cols then cols - 1 else w;
      case 'H' | 'f' =>
        var w := if v[1] != 0 then v[1] - 1 else v[1];
        toX := if w >= cols then cols - 1 else w;
      case _ =>
    }
  }

  method TargetY(ghost s: Screen, rows: nat, top: nat, bottom: nat, c: Byte, v: seq<int>, y: nat) returns (toY: nat)
    requires s.Valid() && y == s.CursorY() && s.rows == rows < TWO_32 && s.top == top && s.bottom == bottom
    requires CsiValues(v)
    ensures toY == MotionY(s, c, v)
  {
    toY := y;
    match c as char {
      case 'A' | 'F' => toY := UpTo(s, top, bottom, y, if v[0] > y then y else v[0]);
      case 'B' | 'E' | 'e' => toY := DownTo(s, top, bottom, y, if y + v[0] > rows - 1 then rows - 1 - y else v[0]);
      case 'd' =>
        var w := (v[0] - 1) % TWO_32;
        toY := if w >= rows then rows - 1 else w;
      case 'H' | 'f' =>
        var w := if v[0] != 0 then v[0] - 1 else v[0];
        toY := if w >= rows then rows - 1 else w;
      case _ =>
    }
  }

  /** Row reached by moving up n rows from row y, in a region [top, bottom). */
  method UpTo(ghost s: Screen, top: nat, bottom: nat, y: nat, n: nat) returns (dest: nat)
    requires n <= y && s.top == top && s.bottom == bottom
    ensures dest == MovedUp(s, y, n)
  {
    dest := y - n;
    var inRegion := (top >= dest && top <= y) || (bottom >= dest && bottom <= y);
    if inRegion && dest < top {
      dest := top;
    }
  }

  method DownTo(ghost s: Screen, top: nat, bottom: nat, y: nat, n: nat) returns (dest: nat)
    requires 1 <= bottom && s.top == top && s.bottom == bottom
    ensures dest == MovedDown(s, y, n)
  {
    dest := y + n;
    var inRegion := (top >= y && top <= dest) || (bottom >= y && bottom <= dest);
    if inRegion && dest >= bottom {
      dest := bottom - 1;
    }
  }

  /** The screen part of a complete control sequence, given the reported cursor. */
  method Dispatch(fb: Backend, c: Byte, v: seq<int>, n: nat, x: nat, y: nat)
    requires fb.Consistent() && fb.Abs().Valid() && x == fb.Abs().CursorX() && y == fb.Abs().CursorY()
    requires fb.rows < TWO_32 && fb.cols < TWO_32
    requires CsiValues(v)
    modifies fb`queueI, fb`view, fb.queue, fb.slot, fb`cursorX, fb`cursorY, fb`scrollTop, fb`scrollBottom
    ensures fb.Consistent() && fb.Abs() == CsiScreen(old(fb.Abs()), c, v, n)
  {
    if IsMotion(c) {
      var toX := TargetX(fb.Abs(), fb.cols, c, v, x);
      var toY := TargetY(fb.Abs(), fb.rows, fb.scrollTop, fb.scrollBottom, c, v, y);
      fb.SetCursorPos(toX, toY);
      return;
    }
    match c as char {
      case 'M' => ScrollMany(fb, if v[0] > fb.rows then fb.rows else v[0]);
      case 'L' => OpenLines(fb, y, v[0]);
      case 'J' => Display(fb, x, y, v[0]);
      case '@' => Insert(fb, x, y, v[0]);
      case 'P' => Delete(fb, x, y, v[0]);
      case 'X' => Chars(fb, x, y, v[0]);
      case 'K' => Line(fb, x, y, v[0]);
      case 'r' => Margins(fb, v[0], v[1], n);
      case _ =>
    }
  }
}
