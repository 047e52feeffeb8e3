/**
 The framebuffer backend (flanterm/backends/fb.c): a grid of drawn cells, a queue of pending cells
 and a map between them, flushed onto the framebuffer.

 Every method is specified by what it does to the logical screen (module `Screens`) and to the
 picture (module `Pictures`); the cache itself appears in no postcondition but its invariant.
 */
module Backends {
  import opened Arithmetic
  import opened Screens
  import opened Pictures
  import opened Caches

  /** `shown` agrees with `drawn`, except that the cell (oldX, oldY) may have its colours exchanged. */
  ghost predicate Shows(shown: seq<Row>, drawn: seq<Row>, oldX: nat, oldY: nat) {
    && |shown| == |drawn|
    && forall y :: 0 <= y < |shown| ==> |shown[y]| == |drawn[y]| && forall x :: 0 <= x < |shown[y]| ==>
         shown[y][x] == drawn[y][x] || (x == oldX && y == oldY && shown[y][x] == drawn[y][x].Inverted())
  }

  /** The same during a flush whose cursor is drawn at (curX, curY). */
  ghost predicate ShowsWithCursor(shown: seq<Row>, drawn: seq<Row>, oldX: nat, oldY: nat, curX: nat, curY: nat) {
    && |shown| == |drawn|
    && forall y :: 0 <= y < |shown| ==> |shown[y]| == |drawn[y]| && forall x :: 0 <= x < |shown[y]| ==>
         if x == curX && y == curY then shown[y][x] == drawn[y][x].Inverted()
         else shown[y][x] == drawn[y][x] || (x == oldX && y == oldY && shown[y][x] == drawn[y][x].Inverted())
  }

  lemma PaintAndCommit(shown: seq<Row>, drawn: seq<Row>, oldX: nat, oldY: nat, curX: nat, curY: nat, x: nat, y: nat, c: Cell)
    requires ShowsWithCursor(shown, drawn, oldX, oldY, curX, curY) && !(x == curX && y == curY)
    ensures ShowsWithCursor(Poke(shown, x, y, c), Poke(drawn, x, y, c), oldX, oldY, curX, curY)
  {
  }

  /** The old cursor cell is repainted unless the cursor is still drawn there. */
  ghost function Repaired(s: Screen, shown: seq<Row>, oldX: nat, oldY: nat): seq<Row>
    requires s.Shaped()
  {
    if ((oldX != s.x || oldY != s.y) || !s.cursorEnabled) && oldX < s.cols && oldY < s.rows
    then Poke(shown, oldX, oldY, s.view[oldY][oldX]) else shown
  }

  /** After that repair exactly the cursor's cell is inverted. */
  lemma CursorSettled(s: Screen, shown: seq<Row>, oldX: nat, oldY: nat)
    requires s.Shaped()
    requires var drawn := s.cursorEnabled && s.x < s.cols && s.y < s.rows;
      ShowsWithCursor(shown, s.view, oldX, oldY, if drawn then s.x else s.cols, if drawn then s.y else s.rows)
    ensures Repaired(s, shown, oldX, oldY) == WithCursor(s) && Shows(WithCursor(s), s.view, s.x, s.y)
  {
    var have, want := Repaired(s, shown, oldX, oldY), WithCursor(s);
    forall r | 0 <= r < s.rows ensures have[r] == want[r] {
      forall x | 0 <= x < s.cols ensures have[r][x] == want[r][x] {}
    }
  }

  class Backend {
    const rows: nat
    const cols: nat
    const look: Look

    const framebuffer: array2<Colour>
    const grid: array<Cell>
    const queue: array<QueueItem>
    /** Index of the pending queue item of each cell; NONE stands for a null pointer. */
    const slot: array<int>
    var queueI: nat

    var textFg: Colour
    var textBg: Colour
    var cursorX: nat
    var cursorY: nat
    var savedFg: Colour
    var savedBg: Colour
    var savedX: nat
    var savedY: nat
    var oldCursorX: nat
    var oldCursorY: nat

    /* the part of the terminal context that the backend reads */
    var scrollTop: nat
    var scrollBottom: nat
    var scrollEnabled: bool
    var cursorEnabled: bool

    /** The logical content of the cells: what the cache stands for. */
    ghost var view: seq<Row>
    /** The character last painted in each cell. */
    ghost var shown: seq<Row>

    // ---- Abstraction and invariant ----

    ghost function Cached(): Cache
      reads this`queueI, grid, queue, slot
    {
      Cache(rows, cols, grid[..], queue[..], slot[..], queueI)
    }

    /** The logical screen. */
    ghost function Abs(): Screen
      reads this`view, this`cursorX, this`cursorY, this`textFg, this`textBg,
            this`savedX, this`savedY, this`savedFg, this`savedBg,
            this`scrollTop, this`scrollBottom, this`scrollEnabled, this`cursorEnabled
    {
      Screen(rows, cols, view, cursorX, cursorY, textFg, textBg,
             savedX, savedY, savedFg, savedBg, scrollTop, scrollBottom, scrollEnabled, cursorEnabled)
    }

    ghost predicate Displays(view: seq<Row>)
      reads framebuffer
    {
      && look.Valid() && Rectangular(view, look.rows, look.cols)
      && framebuffer.Length0 == look.height && framebuffer.Length1 == look.stride
      && forall px, py :: 0 <= px < look.width && 0 <= py < look.height ==>
           framebuffer[py, px] == Picture(look, view, px, py)
    }

    /** The bytes between the end of a line and the next one are never written. */
    twostate predicate PaddingKept()
      reads framebuffer
    {
      framebuffer.Length0 == look.height && framebuffer.Length1 == look.stride &&
      forall px, py :: look.width <= px < look.stride && 0 <= py < look.height ==>
        framebuffer[py, px] == old(framebuffer[py, px])
    }

    /** What each cell shows is what the grid says, except that the cell of the last drawn cursor may
        still have its colours exchanged. */
    ghost predicate ShowsGrid()
      reads this`shown, this`oldCursorX, this`oldCursorY, grid
    {
      && grid.Length == rows * cols
      && Shows(shown, Rows(grid[..], rows, cols), oldCursorX, oldCursorY)
    }

    /** The cache is in bijection and stands for `view`. */
    ghost predicate Consistent()
      reads this`queueI, this`view, grid, queue, slot
    {
      Cached().Bijective() && view == Cached().View()
    }

    /** The framebuffer shows `shown`, which agrees with the grid up to the old cursor. */
    ghost predicate PictureKept()
      reads this`shown, this`oldCursorX, this`oldCursorY, grid, framebuffer
    {
      Sized() && Displays(shown) && ShowsGrid()
    }

    ghost predicate Valid()
      reads this`queueI, this`view, this`shown, this`oldCursorX, this`oldCursorY, grid, queue, slot, framebuffer
    {
      Consistent() && PictureKept()
    }

    ghost predicate Sized() {
      rows == look.rows && cols == look.cols && grid.Length == rows * cols
    }

    /** An empty screen with nothing pending and nothing painted yet. */
    constructor (look: Look, framebuffer: array2<Colour>, fg: Colour)
      requires look.Valid() && framebuffer.Length0 == look.height && framebuffer.Length1 == look.stride
      ensures this.look == look && this.framebuffer == framebuffer && Sized()
      ensures Consistent() && Abs() == InitialScreen(look.rows, look.cols, fg)
      ensures queueI == 0 && oldCursorX == 0 && oldCursorY == 0
      ensures fresh(grid) && fresh(queue) && fresh(slot)
    {
      var empty := Cell(SPACE, fg, TRANSPARENT);
      rows, cols := look.rows, look.cols;
      this.look, this.framebuffer := look, framebuffer;
      grid := new Cell[look.rows * look.cols](_ => empty);
      queue := new QueueItem[look.rows * look.cols](_ => QueueItem(0, 0, Cell(0, 0, 0)));
      slot := new int[look.rows * look.cols](_ => NONE);
      queueI := 0;
      textFg, textBg := fg, TRANSPARENT;
      cursorX, cursorY, oldCursorX, oldCursorY := 0, 0, 0, 0;
      savedFg, savedBg, savedX, savedY := 0, 0, 0, 0;
      scrollTop, scrollBottom, scrollEnabled, cursorEnabled := 0, look.rows, true, true;
      shown := [];
      view := seq(look.rows, _ => BlankRow(look.cols, empty));
      new;
      FreshCache(Cached(), empty);
    }

    /** flanterm_fb_init: a new backend, drawn once by the naive repaint. */
    static method FbInit(look: Look, framebuffer: array2<Colour>, fg: Colour) returns (b: Backend)
      requires look.Valid() && framebuffer.Length0 == look.height && framebuffer.Length1 == look.stride
      modifies framebuffer
      ensures fresh(b) && fresh(b.grid) && fresh(b.queue) && fresh(b.slot)
      ensures b.look == look && b.framebuffer == framebuffer
      ensures b.Valid() && b.Abs() == InitialScreen(look.rows, look.cols, fg)
      ensures b.Displays(WithCursor(b.Abs()))
    {
      b := new Backend(look, framebuffer, fg);
      b.FullRefresh();
    }

    // ---- Painting ----

    method PlotChar(c: Cell, x: nat, y: nat)
      requires Displays(shown)
      modifies framebuffer, this`shown
      ensures Displays(shown)
      ensures shown == Poke(old(shown), x, y, c)
      ensures PaddingKept()
    {
      if x >= look.cols || y >= look.rows {
        return;
      }
      CellInside(look, x, y);
      PlotGlyph(c, look.offsetX + x * look.glyphWidth, look.offsetY + y * look.glyphHeight);
      shown := Poke(shown, x, y, c);
      forall px, py | 0 <= px < look.width && 0 <= py < look.height
        ensures framebuffer[py, px] == Picture(look, shown, px, py)
      {
        PicturePoke(look, old(shown), x, y, c, px, py);
      }
    }

    method PlotGlyph(c: Cell, left: nat, top: nat)
      requires look.Valid() && left + look.glyphWidth <= look.width && top + look.glyphHeight <= look.height
      requires framebuffer.Length0 == look.height && framebuffer.Length1 == look.stride
      modifies framebuffer
      ensures forall px, py :: 0 <= px < look.stride && 0 <= py < look.height ==>
        framebuffer[py, px] ==
          if left <= px < left + look.glyphWidth && top <= py < top + look.glyphHeight
          then look.Ink(c, px - left, py - top, px, py) else old(framebuffer[py, px])
    {
      for gy := 0 to look.glyphHeight
        invariant forall px, py :: 0 <= px < look.stride && 0 <= py < look.height ==>
          framebuffer[py, px] ==
            if left <= px < left + look.glyphWidth && top <= py < top + gy
            then look.Ink(c, px - left, py - top, px, py) else old(framebuffer[py, px])
      {
        PlotLine(c, left, top + gy, gy);
      }
    }

    method PlotLine(c: Cell, left: nat, line: nat, gy: nat)
      requires look.Valid() && left + look.glyphWidth <= look.width && line < look.height
      requires framebuffer.Length0 == look.height && framebuffer.Length1 == look.stride
      modifies framebuffer
      ensures forall px, py :: 0 <= px < look.stride && 0 <= py < look.height ==>
        framebuffer[py, px] ==
          if py == line && left <= px < left + look.glyphWidth
          then look.Ink(c, px - left, gy, px, py) else old(framebuffer[py, px])
    {
      var fy := (gy / look.scaleY) % 256;
      for fx := 0 to look.fontWidth
        invariant forall px, py :: 0 <= px < look.stride && 0 <= py < look.height ==>
          framebuffer[py, px] ==
            if py == line && left <= px < left + fx * look.scaleX
            then look.Ink(c, px - left, gy, px, py) else old(framebuffer[py, px])
      {
        assert fx * look.scaleX + look.scaleX <= look.glyphWidth by {
          Multiple(look.fontWidth - fx, look.scaleX);
          assert (look.fontWidth - fx) * look.scaleX == look.glyphWidth - fx * look.scaleX;
        }
        assert (fx + 1) * look.scaleX == fx * look.scaleX + look.scaleX;
        PlotDot(c, left, line, gy, fx);
      }
    }

    /** Paints the `scaleX` pixels of one font column. */
    method PlotDot(c: Cell, left: nat, line: nat, gy: nat, fx: nat)
      requires look.Valid() && left + fx * look.scaleX + look.scaleX <= look.width && line < look.height
      requires framebuffer.Length0 == look.height && framebuffer.Length1 == look.stride
      modifies framebuffer
      ensures forall px, py :: 0 <= px < look.stride && 0 <= py < look.height ==>
        framebuffer[py, px] ==
          if py == line && left + fx * look.scaleX <= px < left + fx * look.scaleX + look.scaleX
          then look.Ink(c, px - left, gy, px, py) else old(framebuffer[py, px])
    {
      var draw := look.font(c.c, (gy / look.scaleY) % 256, fx);
      var first := fx * look.scaleX;
      for i := 0 to look.scaleX
        invariant forall px, py :: 0 <= px < look.stride && 0 <= py < look.height ==>
          framebuffer[py, px] ==
            if py == line && left + first <= px < left + first + i
            then look.Ink(c, px - left, gy, px, py) else old(framebuffer[py, px])
      {
        var gx := first + i;
        QuotientIs(gx, look.scaleX, fx);
        var bg := if c.bg == TRANSPARENT then look.background(left + gx, line) else c.bg;
        var fg := if c.fg == TRANSPARENT then look.background(left + gx, line) else c.fg;
        framebuffer[line, left + gx] := if draw then fg else bg;
      }
    }

    // ---- Editing through the queue ----

    /** Marks one cell dirty, or updates its pending character. */
    method PushToQueue(c: Cell, x: nat, y: nat)
      requires Consistent()
      modifies this`queueI, this`view, queue, slot
      ensures Consistent()
      ensures Cached().Flat() ==
        if x < cols && y < rows then
          IndexInside(x, y, rows, cols);
          old(Cached().Flat())[y * cols + x := c]
        else old(Cached().Flat())
      ensures Abs() == old(Abs()).(view := Poke(old(Abs()).view, x, y, c))
    {
      if x >= cols || y >= rows {
        return;
      }
      ghost var before := Cached();
      IndexInside(x, y, rows, cols);
      RowsUpdate(before.Flat(), rows, cols, x, y, c);
      var i := y * cols + x;
      assert before.slot[i] == NONE || before.Pending(i);
      var q := slot[i];
      if q == NONE {
        if grid[i] == c {
          assert before.Flat()[i := c] == before.Flat();
          return;
        }
        view := Poke(view, x, y, c);
        RoomForCleanCell(before, i);
        q := queueI;
        queueI := queueI + 1;
        queue[q] := QueueItem(x, y, c);
        slot[i] := q;
        Enqueue(before, x, y, c, Cached());
      } else {
        view := Poke(view, x, y, c);
        queue[q] := queue[q].(c := c);
        Overwrite(before, i, c, Cached());
      }
    }

    /** The logical character of a cell: its pending one, or the grid's. */
    method Pending(i: nat) returns (c: Cell)
      requires Cached().Legible() && i < slot.Length
      ensures c == Cached().Flat()[i]
    {
      assert Cached().slot[i] == NONE || 0 <= Cached().slot[i] < queue.Length;
      if slot[i] != NONE {
        c := queue[slot[i]].c;
      } else {
        c := grid[i];
      }
    }

    /** Copies the logical character of cell `from` to cell `to`. */
    method CopyCell(from: nat, to: nat)
      requires Consistent() && from < slot.Length && to < slot.Length
      modifies this`queueI, this`view, queue, slot
      ensures Consistent() && Cached().Flat() == old(Cached().Flat())[to := old(Cached().Flat())[from]]
    {
      var c := Pending(from);
      PushIndexed(c, to);
    }

    /** Pushes to the cell of a row-major index. */
    method PushIndexed(c: Cell, i: nat)
      requires Consistent() && i < slot.Length
      modifies this`queueI, this`view, queue, slot
      ensures Consistent() && Cached().Flat() == old(Cached().Flat())[i := c]
    {
      IndexSplit(i, rows, cols);
      PushToQueue(c, i % cols, i / cols);
    }

    /** Deletes the region's first row in place, through the queue. */
    method Scroll()
      requires Consistent() && Abs().Valid()
      modifies this`queueI, this`view, queue, slot
      ensures Consistent() && Abs() == ScrollUp(old(Abs()))
    {
      RegionBounds(scrollTop, scrollBottom, rows, cols);
      ShiftUp((scrollTop + 1) * cols, scrollBottom * cols);
      RowsScrolledUp(old(Abs()), old(Cached().Flat()), Cached().Flat());
      BlankLine(scrollBottom - 1);
    }

    method ShiftUp(first: nat, last: nat)
      requires Consistent() && cols <= first <= last <= slot.Length
      modifies this`queueI, this`view, queue, slot
      ensures Consistent() && Shifted(old(Cached().Flat()), Cached().Flat(), first - cols, last - cols, cols)
    {
      ghost var f0 := Cached().Flat();
      for i := first to last
        invariant Consistent()
        invariant Shifted(f0, Cached().Flat(), first - cols, i - cols, cols)
      {
        MoveUp(i, f0, first - cols);
      }
    }

    method MoveUp(i: nat, ghost f0: seq<Cell>, ghost lo: nat)
      requires Consistent() && lo + cols <= i < slot.Length && Shifted(f0, Cached().Flat(), lo, i - cols, cols)
      modifies this`queueI, this`view, queue, slot
      ensures Consistent() && Shifted(f0, Cached().Flat(), lo, i + 1 - cols, cols)
    {
      ShiftUpStep(f0, Cached().Flat(), lo, i - cols, cols);
      CopyCell(i, i - cols);
    }

    /** Inserts a blank row at the top of the region in place, through the queue, last cell first. */
    method RevScroll()
      requires Consistent() && scrollTop < rows && 1 <= scrollBottom <= rows
      modifies this`queueI, this`view, queue, slot
      ensures Consistent() && Abs() == ScrollDown(old(Abs()))
    {
      DownBounds(scrollTop, scrollBottom, rows, cols);
      ghost var f0 := Cached().Flat();
      ShiftDown(scrollTop * cols, (scrollBottom - 1) * cols - 1);
      assert Shifted(f0, Cached().Flat(), (scrollTop + 1) * cols, scrollBottom * cols, -1 * cols);
      RowsScrolledDown(old(Abs()), f0, Cached().Flat());
      BlankLine(scrollTop);
    }

    /** Moves cells [first, last] one row on.  The source stops when the index wraps below zero;
        here it becomes negative and the guard fails. */
    method ShiftDown(first: nat, last: int)
      requires Consistent() && -1 <= last && last + cols < slot.Length
      modifies this`queueI, this`view, queue, slot
      ensures Consistent() && Shifted(old(Cached().Flat()), Cached().Flat(), first + cols, last + 1 + cols, -1 * cols)
    {
      ghost var f0 := Cached().Flat();
      var i := last;
      while i >= first
        invariant i <= last && (first <= last ==> first - 1 <= i) && (last < first ==> i == last)
        invariant Consistent()
        invariant Shifted(f0, Cached().Flat(), i + 1 + cols, last + 1 + cols, -1 * cols)
      {
        ShiftDownStep(f0, Cached().Flat(), i + cols, last + 1 + cols, -1 * cols);
        CopyCell(i, i + cols);
        i := i - 1;
      }
    }

    /** Blanks one row with the current text colours. */
    method BlankLine(y: nat)
      requires Consistent() && y < rows
      modifies this`queueI, this`view, queue, slot
      ensures Consistent()
      ensures Abs() == old(Abs()).(view := old(Abs()).view[y := BlankRow(cols, old(Abs()).Blank())])
    {
      ghost var f0 := Cached().Flat();
      var empty := Cell(SPACE, textFg, textBg);
      ghost var base := y * cols;
      RegionBounds(y, y + 1, rows, cols);
      for x := 0 to cols
        invariant Consistent()
        invariant forall k :: 0 <= k < |f0| ==>
          Cached().Flat()[k] == if base <= k < base + x then empty else f0[k]
      {
        PushToQueue(empty, x, y);
      }
      RowBlanked(f0, Cached().Flat(), rows, cols, y, empty);
    }

    method Clear(move: bool)
      requires Consistent()
      modifies this`queueI, this`view, queue, slot, this`cursorX, this`cursorY
      ensures Consistent() && Abs() == Screens.Clear(old(Abs()), move)
    {
      ghost var before := Abs();
      var empty := Cell(SPACE, textFg, textBg);
      ClearCells(empty);
      if move {
        cursorX := 0;
        cursorY := 0;
      }
    }

    method ClearCells(empty: Cell)
      requires Consistent()
      modifies this`queueI, this`view, queue, slot
      ensures Consistent() && Cached().View() == seq(rows, _ => BlankRow(cols, empty))
    {
      for i := 0 to rows * cols
        invariant Consistent()
        invariant forall k :: 0 <= k < i ==> Cached().Flat()[k] == empty
      {
        PushIndexed(empty, i);
      }
      assert Cached().Flat() == seq(rows * cols, _ => empty);
      RowsUniform(rows, cols, empty);
    }

    method SetCursorPos(x: int, y: int)
      requires Consistent() && 0 <= x < TWO_64 && 0 <= y < TWO_64
      modifies this`cursorX, this`cursorY
      ensures Consistent() && Abs() == SetCursor(old(Abs()), x, y)
    {
      var x', y' := x, y;
      if x >= cols {
        if x % TWO_32 >= 0x8000_0000 {
          x' := 0;
        } else {
          x' := cols - 1;
        }
      }
      if y >= rows {
        if y % TWO_32 >= 0x8000_0000 {
          y' := 0;
        } else {
          y' := rows - 1;
        }
      }
      cursorX, cursorY := x', y';
    }

    method GetCursorPos() returns (x: nat, y: nat)
      requires Consistent()
      ensures x == Abs().CursorX() && y == Abs().CursorY()
      ensures x < cols && y < rows
    {
      x := if cursorX >= cols then cols - 1 else cursorX;
      y := if cursorY >= rows then rows - 1 else cursorY;
    }

    method MoveCharacter(newX: nat, newY: nat, oldX: nat, oldY: nat)
      requires Consistent()
      modifies this`queueI, this`view, queue, slot
      ensures Consistent() && Abs() == Screens.MoveCharacter(old(Abs()), newX, newY, oldX, oldY)
    {
      var offScreen := oldX >= cols || oldY >= rows || newX >= cols || newY >= rows;
      if offScreen {
        return;
      }
      IndexInside(oldX, oldY, rows, cols);
      var c := Pending(oldX + oldY * cols);
      PushToQueue(c, newX, newY);
    }

    /** Carries out a pending wrap, scrolling when the cursor leaves the region. */
    method WrapCursor()
      requires Consistent() && Abs().Valid()
      modifies this`queueI, this`view, queue, slot, this`cursorX, this`cursorY
      ensures Consistent() && Abs() == Wrapped(old(Abs()))
    {
      ghost var s := Abs();
      var wraps := cursorX >= cols && (cursorY < scrollBottom - 1 || scrollEnabled);
      if wraps {
        cursorX, cursorY := 0, cursorY + 1;
        if cursorY == scrollBottom {
          cursorY := cursorY - 1;
          ScrollUpCursor(s, cursorX, cursorY);
          Scroll();
        }
        cursorY := if cursorY >= cols then cols - 1 else cursorY;
      }
    }

    /** Prints one character at the cursor; a pending wrap is carried out first. */
    method RawPutchar(c: Byte)
      requires Consistent() && Abs().Valid()
      modifies this`queueI, this`view, queue, slot, this`cursorX, this`cursorY
      ensures Consistent() && Abs() == RawPut(old(Abs()), c)
    {
      WrapCursor();
      var ch := Cell(c, textFg, textBg);
      cursorX := cursorX + 1;
      PushToQueue(ch, cursorX - 1, cursorY);
    }

    method SwapPalette()
      requires Consistent()
      modifies this`textFg, this`textBg
      ensures Consistent() && Abs() == old(Abs()).(fg := old(Abs()).bg, bg := old(Abs()).fg)
    {
      textFg, textBg := textBg, textFg;
    }

    method SaveState()
      requires Consistent()
      modifies this`savedFg, this`savedBg, this`savedX, this`savedY
      ensures Consistent() && Abs() == Saved(old(Abs()))
    {
      savedFg, savedBg := textFg, textBg;
      savedX, savedY := cursorX, cursorY;
    }

    method RestoreState()
      requires Consistent()
      modifies this`textFg, this`textBg, this`cursorX, this`cursorY
      ensures Consistent() && Abs() == Restored(old(Abs()))
    {
      textFg, textBg := savedFg, savedBg;
      cursorX, cursorY := savedX, savedY;
    }

    // ---- Flushing ----

    /** Moves the pending character of cell (x, y) into the grid. */
    method CommitCell(x: nat, y: nat, ghost i: nat)
      requires x < cols && y < rows && Cached().Draining(i)
      requires 0 <= y * cols + x < slot.Length && slot[y * cols + x] != NONE
      modifies grid, slot
      ensures Cached().Draining(i) && Cached().Flat() == old(Cached().Flat())
      ensures slot[..] == old(slot[..])[y * cols + x := NONE]
      ensures Rows(grid[..], rows, cols) == Poke(old(Rows(grid[..], rows, cols)), x, y, old(Cached().Flat())[y * cols + x])
    {
      var h := y * cols + x;
      ghost var before := Cached();
      assert before.slot[h] == NONE || before.Pending(h);
      grid[h] := queue[slot[h]].c;
      slot[h] := NONE;
      Commit(before, i, h, Cached());
      RowsUpdate(before.grid, rows, cols, x, y, before.queue[before.slot[h]].c);
    }

    /** Draws the cursor cell with its colours exchanged and commits it. */
    method DrawCursor()
      requires Cached().Draining(0) && rows == look.rows && cols == look.cols
      requires Displays(shown) && ShowsGrid()
      modifies framebuffer, this`shown, grid, slot
      ensures Cached().Draining(0) && Cached().Flat() == old(Cached().Flat())
      ensures Displays(shown) && ShowsWithCursor(shown, Rows(grid[..], rows, cols), oldCursorX, oldCursorY, cursorX, cursorY)
      ensures PaddingKept()
      ensures cursorX < cols && cursorY < rows ==>
        && 0 <= cursorY * cols + cursorX < slot.Length && slot[..] == old(slot[..])[cursorY * cols + cursorX := NONE]
        && (old(slot[cursorY * cols + cursorX]) == NONE ==> grid[..] == old(grid[..]))
      ensures cursorX >= cols || cursorY >= rows ==> slot[..] == old(slot[..]) && grid[..] == old(grid[..])
      ensures shown ==
        if cursorX < cols && cursorY < rows
        then Poke(old(shown), cursorX, cursorY, Rows(Cached().Flat(), rows, cols)[cursorY][cursorX].Inverted())
        else old(shown)
    {
      if cursorX >= cols || cursorY >= rows {
        return;
      }
      IndexInside(cursorX, cursorY, rows, cols);
      var i := cursorX + cursorY * cols;
      var c := Pending(i);
      PlotChar(c.Inverted(), cursorX, cursorY);
      if slot[i] != NONE {
        CommitCell(cursorX, cursorY, 0);
      }
      assert Cached().Flat()[i] == grid[i];
      assert CellAt(grid[..], rows, cols, cursorX, cursorY) == c;
    }

    /** Repaints the dirty cells and the old and new cursor cells.  The screen keeps its meaning and the
        framebuffer becomes the naive repaint of it. */
    method DoubleBufferFlush()
      requires Valid()
      modifies framebuffer, grid, slot, this`shown, this`queueI, this`oldCursorX, this`oldCursorY
      ensures Valid() && Abs() == old(Abs())
      ensures Displays(WithCursor(Abs()))
      ensures queueI == 0 && oldCursorX == cursorX && oldCursorY == cursorY
      ensures PaddingKept()
    {
      Drain();
      ghost var drained := Cached();
      Drained(drained);
      Settle();
      queueI := 0;
      assert Cached() == drained.(used := 0);
    }

    /** The end of a flush: repaints the old cursor cell and remembers the new one. */
    method Settle()
      requires Painted() && view == Rows(grid[..], rows, cols) && Abs().Shaped()
      modifies framebuffer, this`shown, this`oldCursorX, this`oldCursorY
      ensures PictureKept() && shown == WithCursor(Abs())
      ensures oldCursorX == cursorX && oldCursorY == cursorY
      ensures PaddingKept()
    {
      CursorSettled(Abs(), shown, oldCursorX, oldCursorY);
      RepaintOldCursor();
      oldCursorX, oldCursorY := cursorX, cursorY;
    }

    /** The flush up to the end of its loop: the cursor is drawn, then every queue item is handled. */
    method Drain()
      requires Valid()
      modifies framebuffer, grid, slot, this`shown
      ensures Cached().Draining(queueI) && view == Cached().View()
      ensures Painted() && PaddingKept()
    {
      StartDraining(Cached());
      FlushCursor();
      for i := 0 to queueI
        invariant Cached().Draining(i) && Cached().Flat() == old(Cached().Flat())
        invariant Painted() && PaddingKept()
      {
        DrainItem(i, DrawnX(), DrawnY());
      }
    }

    method FlushCursor()
      requires Cached().Draining(0) && Sized() && Displays(shown) && ShowsGrid()
      modifies framebuffer, this`shown, grid, slot
      ensures Cached().Draining(0) && Cached().Flat() == old(Cached().Flat())
      ensures Painted() && PaddingKept()
    {
      if cursorEnabled {
        DrawCursor();
      }
    }

    /** Where the cursor of this flush is drawn; a position off the screen if nowhere. */
    ghost function DrawnX(): nat
      reads this
    {
      if cursorEnabled && cursorX < cols && cursorY < rows then cursorX else cols
    }

    ghost function DrawnY(): nat
      reads this
    {
      if cursorEnabled && cursorX < cols && cursorY < rows then cursorY else rows
    }

    /** The picture during a flush, once the cursor has been drawn. */
    ghost predicate Painted()
      reads this, framebuffer, grid, slot
    {
      PaintedAt(DrawnX(), DrawnY())
    }

    ghost predicate PaintedAt(curX: nat, curY: nat)
      reads this, framebuffer, grid, slot
    {
      && Sized() && Displays(shown)
      && ShowsWithCursor(shown, Rows(grid[..], rows, cols), oldCursorX, oldCursorY, curX, curY)
      && (curX < cols && curY < rows ==>
           0 <= curY * cols + curX < slot.Length && slot[curY * cols + curX] == NONE)
    }

    /** Paints and commits queue item i unless its cell is already done. */
    method DrainItem(i: nat, ghost curX: nat, ghost curY: nat)
      requires i < queueI && Cached().Draining(i) && PaintedAt(curX, curY)
      modifies framebuffer, grid, slot, this`shown
      ensures Cached().Draining(i + 1) && Cached().Flat() == old(Cached().Flat())
      ensures PaintedAt(curX, curY) && PaddingKept()
    {
      var q := queue[i];
      assert Cached().Targets(i);
      var offset := q.y * cols + q.x;
      if slot[offset] != NONE {
        PaintItem(q, i, offset, curX, curY);
      }
      NextItem(Cached(), i);
    }

    method PaintItem(q: QueueItem, ghost i: nat, ghost offset: nat, ghost curX: nat, ghost curY: nat)
      requires i < queueI && Cached().Draining(i) && PaintedAt(curX, curY) && q == queue[i] && Cached().Targets(i)
      requires offset == q.y * cols + q.x && q.x < cols && q.y < rows && offset < slot.Length && slot[offset] != NONE
      modifies framebuffer, grid, slot, this`shown
      ensures Cached().Draining(i) && Cached().Flat() == old(Cached().Flat()) && slot[offset] == NONE
      ensures PaintedAt(curX, curY) && PaddingKept()
    {
      assert Cached().Pending(offset);
      assert Cached().Flat()[offset] == q.c;
      PaintAndCommit(shown, Rows(grid[..], rows, cols), oldCursorX, oldCursorY, curX, curY, q.x, q.y, q.c);
      PlotChar(q.c, q.x, q.y);
      CommitCell(q.x, q.y, i);
    }

    /** Repaints the cell of the last drawn cursor, if that cursor is gone and was on the screen. */
    method RepaintOldCursor()
      requires Sized() && Displays(shown) && view == Rows(grid[..], rows, cols) && Abs().Shaped()
      modifies framebuffer, this`shown
      ensures Displays(shown) && PaddingKept()
      ensures shown == Repaired(Abs(), old(shown), oldCursorX, oldCursorY)
    {
      if (oldCursorX != cursorX || oldCursorY != cursorY) || !cursorEnabled {
        if oldCursorX < cols && oldCursorY < rows {
          IndexInside(oldCursorX, oldCursorY, rows, cols);
          PlotChar(grid[oldCursorX + oldCursorY * cols], oldCursorX, oldCursorY);
        }
      }
    }

    /** What was drawn last, with the present cursor on top. */
    ghost function Refreshed(drawn: seq<Row>): seq<Row>
      requires Rectangular(drawn, rows, cols) && Rectangular(view, rows, cols)
      reads this`view, this`cursorX, this`cursorY, this`cursorEnabled
    {
      if cursorEnabled && cursorX < cols && cursorY < rows
      then Poke(drawn, cursorX, cursorY, view[cursorY][cursorX].Inverted()) else drawn
    }

    /** The cursor is drawn on a cell with a pending character. */
    ghost predicate CursorPending()
      reads this`cursorX, this`cursorY, this`cursorEnabled, slot
    {
      && cursorEnabled && cursorX < cols && cursorY < rows
      && 0 <= cursorY * cols + cursorX < slot.Length && slot[cursorY * cols + cursorX] != NONE
    }

    /** The naive repaint.  The logical screen stays; the item of a pending cursor cell is committed but left in the
        queue. */
    method FullRefresh()
      requires look.Valid() && Sized() && Consistent()
      requires framebuffer.Length0 == look.height && framebuffer.Length1 == look.stride
      modifies framebuffer, this`shown, grid, slot
      ensures Cached().Draining(0) && Cached().View() == view
      ensures Displays(Refreshed(old(Rows(grid[..], rows, cols))))
      ensures Consistent() <==> !old(CursorPending())
      ensures queueI == 0 ==> Consistent() && Displays(WithCursor(Abs()))
      ensures queueI == 0 && oldCursorX == cursorX && oldCursorY == cursorY ==> Valid()
      ensures PaddingKept()
    {
      PaintBackground();
      PlotGrid();
      RefreshCursor();
      if queueI == 0 {
        StartDraining(old(Cached()));
        Drained(old(Cached()));
      }
    }

    /** The cursor on top of the grid. */
    method RefreshCursor()
      requires Sized() && Consistent() && Displays(shown) && shown == Rows(grid[..], rows, cols)
      modifies framebuffer, this`shown, grid, slot
      ensures Cached().Draining(0) && Cached().View() == view
      ensures Displays(shown) && shown == Refreshed(old(shown))
      ensures Consistent() == !old(CursorPending())
      ensures !old(CursorPending()) ==> grid[..] == old(grid[..])
      ensures PaddingKept()
    {
      ghost var before := Cached();
      StartDraining(before);
      if cursorEnabled {
        DrawCursor();
      }
      if old(CursorPending()) {
        ItemLeft(before, cursorY * cols + cursorX, Cached());
      } else {
        assert slot[..] == before.slot && grid[..] == before.grid;
      }
    }

    /** Plots every cell of the grid on a bare background. */
    method PlotGrid()
      requires look.Valid() && Sized()
      requires framebuffer.Length0 == look.height && framebuffer.Length1 == look.stride
      requires forall px, py :: 0 <= px < look.width && 0 <= py < look.height ==>
        framebuffer[py, px] == look.background(px, py)
      modifies framebuffer, this`shown
      ensures Displays(shown) && shown == Rows(grid[..], rows, cols)
      ensures PaddingKept()
    {
      ghost var clear := Cell(SPACE, TRANSPARENT, TRANSPARENT);
      ghost var f := seq(rows * cols, _ => clear);
      RowsUniform(rows, cols, clear);
      shown := Rows(f, rows, cols);
      BareBackground(look, shown);
      for i := 0 to rows * cols
        invariant Displays(shown) && PaddingKept() && |f| == rows * cols
        invariant shown == Rows(f, rows, cols)
        invariant forall k :: 0 <= k < i ==> f[k] == grid[k]
      {
        IndexSplit(i, rows, cols);
        RowsUpdate(f, rows, cols, i % cols, i / cols, grid[i]);
        PlotChar(grid[i], i % cols, i / cols);
        f := f[i := grid[i]];
      }
      assert f == grid[..];
    }

    method PaintBackground()
      requires look.Valid() && framebuffer.Length0 == look.height && framebuffer.Length1 == look.stride
      modifies framebuffer
      ensures forall px, py :: 0 <= px < look.width && 0 <= py < look.height ==>
        framebuffer[py, px] == look.background(px, py)
      ensures PaddingKept()
    {
      for y := 0 to look.height
        invariant forall px, py :: 0 <= px < look.width && 0 <= py < y ==>
          framebuffer[py, px] == look.background(px, py)
        invariant PaddingKept()
      {
        for x := 0 to look.width
          invariant forall px, py :: 0 <= px < look.width && 0 <= py < y ==>
            framebuffer[py, px] == look.background(px, py)
          invariant forall px :: 0 <= px < x ==> framebuffer[y, px] == look.background(px, y)
          invariant PaddingKept()
        {
          framebuffer[y, x] := look.background(x, y);
        }
      }
    }
  }
}
