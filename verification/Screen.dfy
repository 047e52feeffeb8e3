/**
 The logical screen: what the terminal means, with no cache and no pixels.

 A screen is a sequence of rows of character cells, a cursor, the current text colours and the
 scrolling region.  Every editing operation of the framebuffer backend is specified here as an
 edit of whole rows or of one cell; module `Backends` proves that the write-behind cache
 (`grid`, `queue`, `map`) implements exactly these edits.
 */
module Screens {
  import opened Arithmetic

  type Byte = b: int | 0 <= b < 256
  type Colour = c: int | 0 <= c < 0x1_0000_0000

  const SPACE: Byte := 0x20
  /** Stands for the background in a cell's colours. */
  const TRANSPARENT: Colour := 0xffff_ffff

  datatype Cell = Cell(c: Byte, fg: Colour, bg: Colour) {
    function Inverted(): Cell {
      Cell(c, bg, fg)
    }
  }

  type Row = seq<Cell>

  /** Every row has `cols` cells. */
  ghost predicate Rectangular(view: seq<Row>, rows: nat, cols: nat) {
    |view| == rows && forall r :: 0 <= r < rows ==> |view[r]| == cols
  }

  function BlankRow(cols: nat, blank: Cell): (row: Row)
    ensures |row| == cols && forall x :: 0 <= x < cols ==> row[x] == blank
  {
    seq(cols, _ => blank)
  }

  /** Writes one cell; positions off the screen are ignored. */
  function Poke(view: seq<Row>, x: nat, y: nat, c: Cell): seq<Row> {
    if y < |view| && x < |view[y]| then view[y := view[y][x := c]] else view
  }

  datatype Screen = Screen(
    rows: nat, cols: nat,
    view: seq<Row>,
    x: nat, y: nat,
    fg: Colour, bg: Colour,
    savedX: nat, savedY: nat, savedFg: Colour, savedBg: Colour,
    top: nat, bottom: nat,
    scrollEnabled: bool, cursorEnabled: bool)
  {
    /** The grid exists and the view has its shape. */
    ghost predicate Shaped() {
      1 <= rows && 1 <= cols && Rectangular(view, rows, cols)
    }

    /** The scrolling region is a non-empty range of rows. */
    ghost predicate Valid() {
      Shaped() && top < bottom <= rows
    }

    function Blank(): Cell {
      Cell(SPACE, fg, bg)
    }

    /** Reported cursor: the raw cursor may stand just past the last column (a pending wrap). */
    function CursorX(): nat
      requires 1 <= cols
    {
      if x >= cols then cols - 1 else x
    }

    function CursorY(): nat
      requires 1 <= rows
    {
      if y >= rows then rows - 1 else y
    }
  }

  /** Nothing but the cells and the cursor differs. */
  predicate SameSetup(s: Screen, r: Screen) {
    r == s.(view := r.view, x := r.x, y := r.y)
  }

  /** Clamps a 64-bit coordinate, sending values that look negative as a C `int` to zero. */
  function Clamp(v: int, limit: nat): (r: nat)
    requires 0 <= v < TWO_64 && 0 < limit
    ensures r < limit
    ensures v < limit ==> r == v
  {
    if v >= limit then
      if v % TWO_32 >= 0x8000_0000 then 0 else limit - 1
    else v
  }

  /** 64-bit unsigned arithmetic. */
  function Wrap64(v: int): (r: int)
    ensures 0 <= r < TWO_64
    ensures 0 <= v < TWO_64 ==> r == v
  {
    v % TWO_64
  }

  function SetCursor(s: Screen, x: int, y: int): (r: Screen)
    requires s.Shaped() && 0 <= x < TWO_64 && 0 <= y < TWO_64
    ensures r.Shaped() && SameSetup(s, r) && r.x < r.cols && r.y < r.rows
  {
    s.(x := Clamp(x, s.cols), y := Clamp(y, s.rows))
  }

  /** Deletes row `top`, moves the rest of the region up and opens a blank last row. */
  function ScrollUp(s: Screen): (r: Screen)
    requires s.Valid()
    ensures r.Valid()
  {
    s.(view := s.view[..s.top] + s.view[s.top + 1..s.bottom]
               + [BlankRow(s.cols, s.Blank())] + s.view[s.bottom..])
  }

  /** Scrolling does not depend on the cursor. */
  lemma ScrollUpCursor(s: Screen, x: nat, y: nat)
    requires s.Valid()
    ensures ScrollUp(s.(x := x, y := y)) == ScrollUp(s).(x := x, y := y)
  {
  }

  /** Inserts a blank row at `top` and drops the region's last row.  When `top` lies at or below
      the end of the region nothing moves and row `top` alone is blanked. */
  function ScrollDown(s: Screen): (r: Screen)
    requires s.Shaped() && s.top < s.rows && 1 <= s.bottom <= s.rows
    ensures r.Shaped()
  {
    var blank := BlankRow(s.cols, s.Blank());
    if s.top < s.bottom then
      s.(view := s.view[..s.top] + [blank] + s.view[s.top..s.bottom - 1] + s.view[s.bottom..])
    else
      s.(view := s.view[s.top := blank])
  }

  function Clear(s: Screen, move: bool): (r: Screen)
    requires s.Shaped()
    ensures r.Shaped()
  {
    var r := s.(view := seq(s.rows, _ => BlankRow(s.cols, s.Blank())));
    if move then r.(x := 0, y := 0) else r
  }

  function MoveCharacter(s: Screen, newX: nat, newY: nat, oldX: nat, oldY: nat): (r: Screen)
    requires s.Shaped()
    ensures r.Shaped()
  {
    if oldX >= s.cols || oldY >= s.rows then s
    else s.(view := Poke(s.view, newX, newY, s.view[oldY][oldX]))
  }

  /** A pending wrap is carried out before the next character, unless scrolling is suppressed on
      the region's last row.  The row is clamped against the number of COLUMNS, as the source does. */
  function Wrapped(s: Screen): (r: Screen)
    requires s.Valid()
    ensures r.Valid()
  {
    if s.x >= s.cols && (s.y < s.bottom - 1 || s.scrollEnabled) then
      var below := if s.y + 1 == s.bottom then ScrollUp(s).(x := 0) else s.(x := 0, y := s.y + 1);
      if below.y >= s.cols then below.(y := s.cols - 1) else below
    else s
  }

  /** Prints one character at the cursor with delayed wrap. */
  function RawPut(s: Screen, c: Byte): (r: Screen)
    requires s.Valid()
    ensures r.Valid() && SameSetup(s, r)
  {
    var w := Wrapped(s);
    w.(view := Poke(w.view, w.x, w.y, Cell(c, w.fg, w.bg)), x := w.x + 1)
  }

  /** Prints the same character `n` times. */
  function RawPutMany(s: Screen, c: Byte, n: nat): (r: Screen)
    requires s.Valid()
    ensures r.Valid() && SameSetup(s, r)
    decreases n
  {
    if n == 0 then s else RawPut(RawPutMany(s, c, n - 1), c)
  }

  function Saved(s: Screen): Screen {
    s.(savedX := s.x, savedY := s.y, savedFg := s.fg, savedBg := s.bg)
  }

  function Restored(s: Screen): Screen {
    s.(x := s.savedX, y := s.savedY, fg := s.savedFg, bg := s.savedBg)
  }

  /** The screen of a terminal that has just been created. */
  function InitialScreen(rows: nat, cols: nat, fg: Colour): (s: Screen)
    ensures rows >= 1 && cols >= 1 ==> s.Valid()
  {
    Screen(rows, cols, seq(rows, _ => BlankRow(cols, Cell(SPACE, fg, TRANSPARENT))),
           0, 0, fg, TRANSPARENT, 0, 0, 0, 0, 0, rows, true, true)
  }

  // ---- Row edits ----

  /** The row with `n` blanks inserted at x and its tail dropped; with n == 0 the tail is blanked. */
  function Inserted(row: Row, x: nat, n: nat, blank: Cell): (r: Row)
    ensures |r| == |row|
  {
    seq(|row|, j requires 0 <= j < |row| =>
      if j < x then row[j] else if n > 0 && j >= x + n then row[j - n] else blank)
  }

  /** The row with the cells from x + n on moved left by n; the last n cells stay. */
  function MovedLeft(row: Row, x: nat, n: nat): (r: Row)
    ensures |r| == |row|
  {
    MovedLeftUpTo(row, x, n, |row|)
  }

  /** The same with only the cells before `limit` taken. */
  function MovedLeftUpTo(row: Row, x: nat, n: nat, limit: nat): (r: Row)
    requires limit <= |row|
    ensures |r| == |row|
  {
    seq(|row|, j requires 0 <= j < |row| => if x <= j && j + n < limit then row[j + n] else row[j])
  }

  /** The row with the cells from x on moved right by one, the last one dropped. */
  function OpenedAt(row: Row, x: nat): (r: Row)
    ensures |r| == |row|
  {
    seq(|row|, j requires 0 <= j < |row| => if j > x then row[j - 1] else row[j])
  }
}
