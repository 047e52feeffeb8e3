/**
 Laying out the terminal in flanterm_fb_init: limits, glyph size, grid size, and the static allocation pool.
 */
module Geometry {
  import opened Arithmetic
  import opened Screens
  import opened Pictures

  const POOL_SIZE := 873000
  const WIDTH_LIMIT := 1920
  const HEIGHT_LIMIT := 1200
  const GLYPHS := 256

  /** Sizes in bytes, for the x86-64 ABI, of the structures in flanterm/backends/fb.h. */
  const CONTEXT_SIZE := 792
  const CHAR_SIZE := 12
  const QUEUE_ITEM_SIZE := 32
  const ADDRESS_SIZE := 8

  /** The built-in font: 8 x 16 dots and one column of spacing. */
  const FONT_WIDTH := 9
  const FONT_HEIGHT := 16

  function Limited(v: nat, limit: nat): nat {
    if v > limit then limit else v
  }

  /** The static pool: a pointer that only moves up. */
  class BumpPool {
    var ptr: nat

    constructor ()
      ensures ptr == 0
    {
      ptr := 0;
    }

    method Alloc(s: nat) returns (ok: bool, at: nat)
      requires ptr <= POOL_SIZE
      modifies this
      ensures ok == (old(ptr) + s <= POOL_SIZE)
      ensures ptr == if ok then old(ptr) + s else old(ptr)
      ensures ok ==> at == old(ptr)
    {
      at := ptr;
      var next := ptr + s;
      ok := next <= POOL_SIZE;
      if ok {
        ptr := next;
      }
    }
  }

  /** Layout of the grid in a limited framebuffer, with glyphs scaled and a margin on all sides. */
  function Layout(width: nat, height: nat, stride: nat, scaleX: nat, scaleY: nat, margin: nat,
                  font: Font, background: Background): (k: Look)
    requires 1 <= scaleX && 1 <= scaleY && 2 * margin <= width <= stride && 2 * margin <= height
    ensures k.rows >= 1 && k.cols >= 1 ==> k.Valid()
    ensures CellCount(k.rows, k.cols) == GridCells(width, height, scaleX, scaleY, margin)
  {
    var gw, gh := FONT_WIDTH * scaleX, FONT_HEIGHT * scaleY;
    var w, h := width - margin * 2, height - margin * 2;
    Fits(w, gw);
    Fits(h, gh);
    Look(width, height, stride, margin + w % gw / 2, margin + h % gh / 2,
         FONT_WIDTH, scaleX, scaleY, gw, gh, h / gh, w / gw, font, background)
  }

  lemma Fits(w: nat, g: nat)
    requires 1 <= g
    ensures w / g * g + w % g == w && w % g / 2 <= w % g
  {
  }

  /** Half of what is left goes to each side. */
  lemma Halved(w: nat, g: nat, margin: nat, n: nat)
    requires 1 <= g && 2 * margin <= w && n == (w - margin * 2) / g
    ensures var before := margin + (w - margin * 2) % g / 2;
      var behind := w - (before + n * g);
      margin <= before <= behind <= before + 1 && before + behind < 2 * margin + g
  {
    Parted(w - margin * 2, g);
  }

  /** On each side the grid leaves the margin and half of what no further cell fits into. */
  lemma LayoutCentred(width: nat, height: nat, stride: nat, scaleX: nat, scaleY: nat, margin: nat,
                      font: Font, background: Background)
    requires 1 <= scaleX && 1 <= scaleY && 2 * margin <= width <= stride && 2 * margin <= height
    ensures var k := Layout(width, height, stride, scaleX, scaleY, margin, font, background);
      var right, below := width - (k.offsetX + k.cols * k.glyphWidth), height - (k.offsetY + k.rows * k.glyphHeight);
      && margin <= k.offsetX <= right <= k.offsetX + 1 && k.offsetX + right < 2 * margin + k.glyphWidth
      && margin <= k.offsetY <= below <= k.offsetY + 1 && k.offsetY + below < 2 * margin + k.glyphHeight
      && k.glyphWidth == 9 * scaleX && k.glyphHeight == 16 * scaleY
  {
    var k := Layout(width, height, stride, scaleX, scaleY, margin, font, background);
    Halved(width, 9 * scaleX, margin, k.cols);
    Halved(height, 16 * scaleY, margin, k.rows);
  }

  /** Distinct cells have disjoint rectangles, and every rectangle lies inside the framebuffer. */
  lemma CellsDisjointInside(k: Look, x: nat, y: nat, x': nat, y': nat, px: int, py: int)
    requires k.Valid() && x < k.cols && y < k.rows && InCell(k, x, y, px, py)
    ensures 0 <= px < k.width && 0 <= py < k.height
    ensures InCell(k, x', y', px, py) <==> x' == x && y' == y
  {
    CellInside(k, x, y);
    CellBounds(k, x, y, px, py);
    CellBounds(k, x', y', px, py);
  }

  /** The sizes of the six blocks that flanterm_fb_init asks for. */
  function Sizes(cells: nat): (s: seq<nat>)
    ensures |s| == 6
  {
    [CONTEXT_SIZE, 8 * FONT_HEIGHT * GLYPHS / 8, GLYPHS * FONT_HEIGHT * FONT_WIDTH,
     cells * CHAR_SIZE, cells * QUEUE_ITEM_SIZE, cells * ADDRESS_SIZE]
  }

  /** The cells of the grid, for glyphs of the built-in font. */
  function GridCells(width: nat, height: nat, scaleX: nat, scaleY: nat, margin: nat): nat
    requires 1 <= scaleX && 1 <= scaleY && 2 * margin <= width && 2 * margin <= height
  {
    GlyphSize(FONT_WIDTH, scaleX);
    GlyphSize(FONT_HEIGHT, scaleY);
    CellCount((height - margin * 2) / (FONT_HEIGHT * scaleY), (width - margin * 2) / (FONT_WIDTH * scaleX))
  }

  function CellCount(rows: nat, cols: nat): nat {
    NotNegative(rows, cols);
    rows * cols
  }

  lemma GlyphSize(glyph: nat, scale: nat)
    requires 1 <= glyph && 1 <= scale
    ensures glyph <= glyph * scale
  {
    Scaled(1, scale, glyph);
  }

  /** A length holds no more scaled glyphs than unscaled ones. */
  lemma AtMost(v: nat, limit: nat, glyph: nat, scale: nat)
    requires v <= limit && 1 <= glyph && 1 <= scale
    ensures 1 <= glyph * scale && v / (glyph * scale) <= limit / glyph
  {
    GlyphSize(glyph, scale);
    var q := v / (glyph * scale);
    QuotientIs(v, glyph * scale, q);
    Scaled(glyph, glyph * scale, q);
    BelowQuotient(q, glyph, limit);
  }

  lemma BelowQuotient(q: nat, g: nat, v: nat)
    requires 1 <= g && q * g <= v
    ensures q <= v / g
  {
    QuotientIs(v, g, v / g);
    if q > v / g {
      Scaled(v / g + 1, q, g);
      Distributed(v / g, 1, g);
    }
  }

  lemma CellCountAtMost(rows: nat, cols: nat)
    requires cols <= 213 && rows <= 75
    ensures CellCount(rows, cols) <= 15975
  {
    Scaled(rows, 75, cols);
  }

  /** After the limit of 1920 x 1200 the grid has at most 213 x 75 cells. */
  lemma GridCellsAtMost(width: nat, height: nat, scaleX: nat, scaleY: nat, margin: nat)
    requires 1 <= scaleX && 1 <= scaleY && 2 * margin <= width <= WIDTH_LIMIT && 2 * margin <= height <= HEIGHT_LIMIT
    ensures GridCells(width, height, scaleX, scaleY, margin) <= 15975
  {
    AtMost(width - margin * 2, WIDTH_LIMIT, FONT_WIDTH, scaleX);
    AtMost(height - margin * 2, HEIGHT_LIMIT, FONT_HEIGHT, scaleY);
    CellCountAtMost((height - margin * 2) / (FONT_HEIGHT * scaleY), (width - margin * 2) / (FONT_WIDTH * scaleX));
  }

  /** The allocations of flanterm_fb_init without an allocator, for any framebuffer and scale: none fails, they
      follow each other, and what is left of the pool is at least 548 bytes. */
  method AllocateAll(pool: BumpPool, width: nat, height: nat, scaleX: nat, scaleY: nat, margin: nat)
    returns (ok: bool, blocks: seq<nat>)
    requires pool.ptr == 0 && 1 <= scaleX && 1 <= scaleY
    requires 2 * margin <= Limited(width, WIDTH_LIMIT) && 2 * margin <= Limited(height, HEIGHT_LIMIT)
    modifies pool
    ensures ok && pool.ptr <= POOL_SIZE - 548
    ensures var w, h := Limited(width, WIDTH_LIMIT), Limited(height, HEIGHT_LIMIT);
      var sizes := Sizes(GridCells(w, h, scaleX, scaleY, margin));
      Packed(blocks, sizes, pool.ptr)
  {
    var w, h := Limited(width, WIDTH_LIMIT), Limited(height, HEIGHT_LIMIT);
    GridCellsAtMost(w, h, scaleX, scaleY, margin);
    ok, blocks := AllocateBlocks(pool, GridCells(w, h, scaleX, scaleY, margin));
  }

  /** Blocks of these sizes, each ending where the next one begins, the last at `end`. */
  predicate Packed(blocks: seq<nat>, sizes: seq<nat>, end: nat) {
    && |blocks| == |sizes|
    && forall i :: 0 <= i < |blocks| ==>
         blocks[i] + sizes[i] == if i + 1 < |blocks| then blocks[i + 1] else end
  }

  method AllocateBlocks(pool: BumpPool, cells: nat) returns (ok: bool, blocks: seq<nat>)
    requires pool.ptr == 0 && cells <= 15975
    modifies pool
    ensures ok && pool.ptr <= POOL_SIZE - 548 && Packed(blocks, Sizes(cells), pool.ptr)
  {
    var ok0, context := pool.Alloc(CONTEXT_SIZE);
    var ok1, fontBits := pool.Alloc(8 * FONT_HEIGHT * GLYPHS / 8);
    var ok2, fontBool := pool.Alloc(GLYPHS * FONT_HEIGHT * FONT_WIDTH);
    var ok3, grid := pool.Alloc(cells * CHAR_SIZE);
    var ok4, queue := pool.Alloc(cells * QUEUE_ITEM_SIZE);
    var ok5, cellMap := pool.Alloc(cells * ADDRESS_SIZE);
    ok := ok0 && ok1 && ok2 && ok3 && ok4 && ok5;
    blocks := [context, fontBits, fontBool, grid, queue, cellMap];
  }
}
