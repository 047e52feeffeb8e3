/**
 What a screen looks like: the colour every framebuffer pixel must have.

 `Picture` is the reference definition.  It says nothing of queues or dirty cells: a pixel inside
 the rectangle of a cell shows that cell's glyph, any other pixel shows the background.
 */
module Pictures {
  import opened Arithmetic
  import opened Screens

  /** A font maps (character, line, column) to "ink here"; its contents do not matter. */
  type Font = (int, int, int) -> bool

  /** Background colour of pixel (x, y): the canvas, or the default background everywhere. */
  type Background = (int, int) -> Colour

  datatype Look = Look(
    width: nat, height: nat, stride: nat,
    offsetX: nat, offsetY: nat,
    fontWidth: nat, scaleX: nat, scaleY: nat,
    glyphWidth: nat, glyphHeight: nat,
    rows: nat, cols: nat,
    font: Font, background: Background)
  {
    /** All cells lie inside the framebuffer. */
    ghost predicate Valid() {
      && 1 <= fontWidth && 1 <= scaleX && 1 <= scaleY
      && glyphWidth == fontWidth * scaleX && 1 <= glyphWidth && 1 <= glyphHeight
      && 1 <= rows && 1 <= cols
      && offsetX + cols * glyphWidth <= width <= stride
      && offsetY + rows * glyphHeight <= height
    }

    /** Column and row of the cell grid that pixel (px, py) falls into, if any. */
    function CellX(px: int): int
      requires 1 <= glyphWidth
    {
      (px - offsetX) / glyphWidth
    }

    function CellY(py: int): int
      requires 1 <= glyphHeight
    {
      (py - offsetY) / glyphHeight
    }

    /** Pixel (gx, gy) of the glyph of a character is a dot. */
    predicate Dotted(c: Byte, gx: nat, gy: nat)
      requires 1 <= scaleX && 1 <= scaleY
    {
      font(c, (gy / scaleY) % 256, gx / scaleX)
    }

    /** Colour of pixel (px, py) when it is pixel (gx, gy) of the glyph of `c`. */
    function Ink(c: Cell, gx: nat, gy: nat, px: int, py: int): Colour
      requires 1 <= scaleX && 1 <= scaleY
    {
      var colour := if Dotted(c.c, gx, gy) then c.fg else c.bg;
      if colour == TRANSPARENT then background(px, py) else colour
    }
  }

  /** Pixel (px, py) belongs to the rectangle of cell (x, y). */
  ghost predicate InCell(k: Look, x: nat, y: nat, px: int, py: int) {
    && k.offsetX + x * k.glyphWidth <= px < k.offsetX + x * k.glyphWidth + k.glyphWidth
    && k.offsetY + y * k.glyphHeight <= py < k.offsetY + y * k.glyphHeight + k.glyphHeight
  }

  /** Colour of pixel (px, py) as part of cell (x, y) showing `c`. */
  ghost function CellInk(k: Look, c: Cell, x: nat, y: nat, px: int, py: int): Colour
    requires k.Valid() && InCell(k, x, y, px, py)
  {
    k.Ink(c, px - k.offsetX - x * k.glyphWidth, py - k.offsetY - y * k.glyphHeight, px, py)
  }

  /** Pixel (px, py) of the naive repaint of the cells `view`. */
  ghost function Picture(k: Look, view: seq<Row>, px: int, py: int): Colour
    requires k.Valid() && Rectangular(view, k.rows, k.cols)
  {
    var x, y := k.CellX(px), k.CellY(py);
    if 0 <= x < k.cols && 0 <= y < k.rows then
      CellBounds(k, x, y, px, py);
      CellInk(k, view[y][x], x, y, px, py)
    else k.background(px, py)
  }

  /** The cells' rectangles partition the grid area: a pixel lies in exactly the cell its quotients name. */
  lemma CellBounds(k: Look, x: nat, y: nat, px: int, py: int)
    requires k.Valid()
    ensures InCell(k, x, y, px, py) <==> k.CellX(px) == x && k.CellY(py) == y
  {
    QuotientIs(px - k.offsetX, k.glyphWidth, x);
    QuotientIs(py - k.offsetY, k.glyphHeight, y);
  }

  /** Repainting after one cell changed differs from the old picture in that cell's rectangle only. */
  lemma PicturePoke(k: Look, view: seq<Row>, x: nat, y: nat, c: Cell, px: int, py: int)
    requires k.Valid() && Rectangular(view, k.rows, k.cols) && x < k.cols && y < k.rows
    ensures Rectangular(Poke(view, x, y, c), k.rows, k.cols)
    ensures Picture(k, Poke(view, x, y, c), px, py)
         == if InCell(k, x, y, px, py) then CellInk(k, c, x, y, px, py) else Picture(k, view, px, py)
  {
    CellBounds(k, x, y, px, py);
  }

  /** Cell rectangles stay inside the limited framebuffer. */
  lemma CellInside(k: Look, x: nat, y: nat)
    requires k.Valid() && x < k.cols && y < k.rows
    ensures k.offsetX + x * k.glyphWidth + k.glyphWidth <= k.width
    ensures k.offsetY + y * k.glyphHeight + k.glyphHeight <= k.height
  {
    IntervalInside(x, k.cols, k.glyphWidth);
    IntervalInside(y, k.rows, k.glyphHeight);
  }

  /** The cursor cell, when it is on the screen and shown, appears with its colours exchanged. */
  ghost function WithCursor(s: Screen): seq<Row>
    requires s.Shaped()
  {
    if s.cursorEnabled && s.x < s.cols && s.y < s.rows
    then Poke(s.view, s.x, s.y, s.view[s.y][s.x].Inverted())
    else s.view
  }

  /** Pixel i, j of dot (fx, fy) of cell (x, y). */
  predicate DotPixel(k: Look, x: nat, y: nat, fx: nat, fy: nat, i: nat, j: nat, px: int, py: int) {
    && fx < k.fontWidth && i < k.scaleX && j < k.scaleY && fy * k.scaleY + j < k.glyphHeight
    && px == k.offsetX + x * k.glyphWidth + fx * k.scaleX + i
    && py == k.offsetY + y * k.glyphHeight + fy * k.scaleY + j
  }

  lemma DotInside(k: Look, x: nat, y: nat, fx: nat, fy: nat, i: nat, j: nat, px: int, py: int)
    requires k.Valid() && DotPixel(k, x, y, fx, fy, i, j, px, py)
    ensures InCell(k, x, y, px, py) && k.CellX(px) == x && k.CellY(py) == y
    ensures (fx * k.scaleX + i) / k.scaleX == fx && (fy * k.scaleY + j) / k.scaleY == fy
  {
    IntervalInside(fx, k.fontWidth, k.scaleX);
    NotNegative(fy, k.scaleY);
    DivMod(fx, k.scaleX, i);
    DivMod(fy, k.scaleY, j);
    CellBounds(k, x, y, px, py);
  }

  /** Line fy (in 8 bits), column fx of the font decides the colour of all pixels of that dot in a cell: its foreground for a dot,
      its background for a gap, the bare background where that is transparent. */
  lemma DotShown(k: Look, view: seq<Row>, x: nat, y: nat, fx: nat, fy: nat, i: nat, j: nat, px: int, py: int)
    requires k.Valid() && Rectangular(view, k.rows, k.cols) && x < k.cols && y < k.rows
    requires DotPixel(k, x, y, fx, fy, i, j, px, py)
    ensures var colour := if k.font(view[y][x].c, fy % 256, fx) then view[y][x].fg else view[y][x].bg;
      Picture(k, view, px, py) == if colour == TRANSPARENT then k.background(px, py) else colour
  {
    DotInside(k, x, y, fx, fy, i, j, px, py);
  }

  /** On the screen with its cursor the colours of the cursor's cell, and of no other, are exchanged. */
  lemma DotShownWithCursor(k: Look, s: Screen, x: nat, y: nat, fx: nat, fy: nat, i: nat, j: nat, px: int, py: int)
    requires k.Valid() && s.Shaped() && s.rows == k.rows && s.cols == k.cols && x < k.cols && y < k.rows
    requires DotPixel(k, x, y, fx, fy, i, j, px, py)
    ensures var (c, cursor) := (s.view[y][x], s.cursorEnabled && s.x == x && s.y == y);
      var colour := if k.font(c.c, fy % 256, fx) != cursor then c.fg else c.bg;
      Picture(k, WithCursor(s), px, py) == if colour == TRANSPARENT then k.background(px, py) else colour
  {
    DotShown(k, WithCursor(s), x, y, fx, fy, i, j, px, py);
  }

  /** Outside the grid of cells the bare background shows. */
  lemma BorderShown(k: Look, view: seq<Row>, px: int, py: int)
    requires k.Valid() && Rectangular(view, k.rows, k.cols)
    requires !(k.offsetX <= px < k.offsetX + k.cols * k.glyphWidth && k.offsetY <= py < k.offsetY + k.rows * k.glyphHeight)
    ensures Picture(k, view, px, py) == k.background(px, py)
  {
    var x, y := k.CellX(px), k.CellY(py);
    if 0 <= x < k.cols && 0 <= y < k.rows {
      CellBounds(k, x, y, px, py);
      IntervalInside(x, k.cols, k.glyphWidth);
      IntervalInside(y, k.rows, k.glyphHeight);
    }
  }

  /** A screen of transparent cells is the bare background. */
  lemma BareBackground(k: Look, view: seq<Row>)
    requires k.Valid() && Rectangular(view, k.rows, k.cols)
    requires forall y, x :: 0 <= y < k.rows && 0 <= x < k.cols ==>
      view[y][x].fg == TRANSPARENT && view[y][x].bg == TRANSPARENT
    ensures forall px, py :: Picture(k, view, px, py) == k.background(px, py)
  {
  }
}
