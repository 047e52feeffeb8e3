/**
 The write-behind cache of the framebuffer backend, as values.

 `grid[i]` is what cell i last looked like on the framebuffer, `queue[..used]` holds pending cells and
 `slot[i]` names the pending item of cell i (NONE for a clean cell).  The logical content of cell i is
 the pending character if there is one and the grid's otherwise.
 */
module Caches {
  import opened Arithmetic
  import opened Screens

  datatype QueueItem = QueueItem(x: nat, y: nat, c: Cell)

  const NONE: int := -1

  datatype Cache = Cache(rows: nat, cols: nat, grid: seq<Cell>, queue: seq<QueueItem>, slot: seq<int>, used: nat) {

    predicate Sized() {
      && 1 <= rows && 1 <= cols
      && |grid| == rows * cols && |queue| == |grid| && |slot| == |grid|
    }

    /** The cell an item is pending for. */
    function Home(q: QueueItem): int {
      q.y * cols + q.x
    }

    /** Item k is on the screen and the map points back at it. */
    ghost predicate Linked(k: nat)
      requires k < |queue|
    {
      var q := queue[k];
      && q.x < cols && q.y < rows && 0 <= Home(q) < |slot|
      && slot[Home(q)] == k
    }

    /** Between flushes the used queue items and the dirty cells are in bijection. */
    ghost predicate Bijective() {
      && Sized() && used <= |queue|
      && (forall k :: 0 <= k < used ==> Linked(k))
      && (forall i :: 0 <= i < |slot| ==> slot[i] == NONE || Pending(i))
    }

    ghost predicate Pending(i: nat)
      requires i < |slot|
    {
      0 <= slot[i] < used <= |queue| && Home(queue[slot[i]]) == i
    }

    /** Every map entry is null or points into the queue. */
    ghost predicate Legible() {
      Sized() && forall i :: 0 <= i < |slot| ==> slot[i] == NONE || 0 <= slot[i] < |queue|
    }

    /** Half-way through a flush: items below i are done, a dirty cell is named by a later item. */
    ghost predicate Draining(i: nat) {
      && Legible() && used <= |queue|
      && (forall j :: 0 <= j < |slot| ==> slot[j] == NONE || (i <= slot[j] && Pending(j)))
      && (forall k :: i <= k < used ==> Targets(k))
    }

    ghost predicate Targets(k: nat)
      requires k < |queue|
    {
      var q := queue[k];
      && q.x < cols && q.y < rows && 0 <= Home(q) < |slot|
      && (slot[Home(q)] == NONE || slot[Home(q)] == k)
    }

    /** Logical content of cell i. */
    function At(i: nat): Cell
      requires i < |slot| <= |grid| && (slot[i] == NONE || 0 <= slot[i] < |queue|)
    {
      if slot[i] == NONE then grid[i] else queue[slot[i]].c
    }

    ghost function Flat(): (f: seq<Cell>)
      requires Legible()
      ensures |f| == rows * cols
    {
      seq(|slot|, i requires 0 <= i < |slot| => At(i))
    }

    ghost function View(): (v: seq<Row>)
      requires Legible()
      ensures Rectangular(v, rows, cols)
    {
      Rows(Flat(), rows, cols)
    }
  }

  // ---- Row-major indexing ----

  lemma IndexInside(x: nat, y: nat, rows: nat, cols: nat)
    requires x < cols && y < rows
    ensures 0 <= y * cols + x < rows * cols
    ensures (y * cols + x) / cols == y && (y * cols + x) % cols == x
  {
    IntervalInside(y, rows, cols);
    DivMod(y, cols, x);
  }

  lemma IndexSplit(i: nat, rows: nat, cols: nat)
    requires 1 <= cols && i < rows * cols
    ensures i / cols < rows && i % cols < cols && i / cols * cols + i % cols == i
  {
    Multiple(rows - i / cols, cols);
    assert (rows - i / cols) * cols == rows * cols - i / cols * cols;
  }

  /** Row-major cells as rows. */
  ghost function Rows(flat: seq<Cell>, rows: nat, cols: nat): (v: seq<Row>)
    requires |flat| == rows * cols
    ensures Rectangular(v, rows, cols)
  {
    seq(rows, y requires 0 <= y < rows => RowOf(flat, rows, cols, y))
  }

  ghost function RowOf(flat: seq<Cell>, rows: nat, cols: nat, y: nat): (row: Row)
    requires |flat| == rows * cols && y < rows
    ensures |row| == cols
  {
    seq(cols, x requires 0 <= x < cols => CellAt(flat, rows, cols, x, y))
  }

  ghost function CellAt(flat: seq<Cell>, rows: nat, cols: nat, x: nat, y: nat): Cell
    requires |flat| == rows * cols && x < cols && y < rows
  {
    IndexInside(x, y, rows, cols);
    flat[y * cols + x]
  }

  lemma RowsUpdate(flat: seq<Cell>, rows: nat, cols: nat, x: nat, y: nat, c: Cell)
    requires |flat| == rows * cols && x < cols && y < rows
    ensures 0 <= y * cols + x < |flat|
    ensures Rows(flat[y * cols + x := c], rows, cols) == Poke(Rows(flat, rows, cols), x, y, c)
  {
    IndexInside(x, y, rows, cols);
    var i := y * cols + x;
    var a, b := Rows(flat[i := c], rows, cols), Poke(Rows(flat, rows, cols), x, y, c);
    forall r | 0 <= r < rows ensures a[r] == b[r] {
      forall k | 0 <= k < cols ensures a[r][k] == b[r][k] {
        IndexInside(k, r, rows, cols);
      }
    }
  }

  lemma RegionBounds(top: nat, bottom: nat, rows: nat, cols: nat)
    requires top < bottom <= rows && 1 <= cols
    ensures 0 <= top * cols && (top + 1) * cols == top * cols + cols <= bottom * cols <= rows * cols
    ensures (bottom - 1) * cols == bottom * cols - cols
  {
    IntervalInside(top, bottom, cols);
    Scaled(bottom, rows, cols);
    Distributed(top, 1, cols);
    Distributed(bottom - 1, 1, cols);
  }

  lemma RegionIndex(x: nat, y: nat, top: nat, bottom: nat, cols: nat)
    requires x < cols
    ensures top * cols <= y * cols + x < bottom * cols <==> top <= y < bottom
    ensures (y + 1) * cols + x == y * cols + x + cols
  {
    Distributed(y - top, top, cols);
    Distributed(y - bottom, bottom, cols);
    Multiple(y - top, cols);
    Multiple(y - bottom, cols);
  }

  lemma DownBounds(top: nat, bottom: nat, rows: nat, cols: nat)
    requires top < rows && 1 <= bottom <= rows && 1 <= cols
    ensures 0 <= top * cols <= rows * cols - cols
    ensures (bottom - 1) * cols == bottom * cols - cols
    ensures cols <= bottom * cols <= rows * cols && (top + 1) * cols == top * cols + cols
    ensures top < bottom ==> top * cols <= bottom * cols - cols
    ensures bottom <= top ==> bottom * cols <= top * cols
  {
    RegionBounds(top, rows, rows, cols);
    RegionBounds(0, bottom, rows, cols);
    if top < bottom { RegionBounds(top, bottom, rows, cols); }
    assert bottom <= top ==> (top - bottom) * cols >= 0;
    assert (top - bottom) * cols == top * cols - bottom * cols;
  }

  /** f1 is f0 with every cell of [lo, hi) replaced by the one d positions further on. */
  ghost predicate Shifted(f0: seq<Cell>, f1: seq<Cell>, lo: int, hi: int, d: int) {
    && |f0| == |f1|
    && (lo < hi ==> 0 <= lo && hi <= |f0| && 0 <= lo + d && hi + d <= |f0|)
    && forall k {:trigger f1[k]} :: 0 <= k < |f0| ==> f1[k] == if lo <= k < hi then f0[k + d] else f0[k]
  }

  /** Shifting whole rows of cells shifts the rows: row y takes row y + e inside the range. */
  lemma RowShifted(f0: seq<Cell>, f1: seq<Cell>, rows: nat, cols: nat, lo: nat, hi: nat, e: int, y: nat)
    requires |f0| == rows * cols && y < rows && 0 <= lo + e && hi + e <= rows && hi <= rows
    requires Shifted(f0, f1, lo * cols, hi * cols, e * cols)
    ensures RowOf(f1, rows, cols, y) == RowOf(f0, rows, cols, if lo <= y < hi then y + e else y)
  {
    var z := if lo <= y < hi then y + e else y;
    forall x: nat | x < cols ensures CellAt(f1, rows, cols, x, y) == CellAt(f0, rows, cols, x, z) {
      CellShifted(f0, f1, rows, cols, lo, hi, e, x, y);
    }
  }

  lemma CellShifted(f0: seq<Cell>, f1: seq<Cell>, rows: nat, cols: nat, lo: nat, hi: nat, e: int, x: nat, y: nat)
    requires |f0| == rows * cols && x < cols && y < rows && 0 <= lo + e && hi + e <= rows && hi <= rows
    requires Shifted(f0, f1, lo * cols, hi * cols, e * cols)
    ensures CellAt(f1, rows, cols, x, y) == CellAt(f0, rows, cols, x, if lo <= y < hi then y + e else y)
  {
    IndexShifted(x, y, lo, hi, e, cols);
    IndexInside(x, y, rows, cols);
    IndexInside(x, if lo <= y < hi then y + e else y, rows, cols);
    ShiftedAt(f0, f1, lo * cols, hi * cols, e * cols, y * cols + x);
  }

  lemma ShiftedAt(f0: seq<Cell>, f1: seq<Cell>, lo: int, hi: int, d: int, k: nat)
    requires Shifted(f0, f1, lo, hi, d) && k < |f0|
    ensures lo <= k < hi ==> 0 <= k + d < |f0|
    ensures f1[k] == if lo <= k < hi then f0[k + d] else f0[k]
  {
  }

  lemma IndexShifted(x: nat, y: nat, lo: nat, hi: nat, e: int, cols: nat)
    requires x < cols
    ensures lo * cols <= y * cols + x < hi * cols <==> lo <= y < hi
    ensures (y + e) * cols + x == y * cols + x + e * cols
  {
    RegionIndex(x, y, lo, hi, cols);
  }

  /** One more cell shifted, first cell first (d > 0) or last cell first (d < 0). */
  lemma ShiftUpStep(f0: seq<Cell>, f: seq<Cell>, lo: int, k: int, d: int)
    requires 0 <= lo <= k && 0 < d && k + d < |f0| && Shifted(f0, f, lo, k, d)
    ensures Shifted(f0, f[k := f[k + d]], lo, k + 1, d)
  {
  }

  lemma ShiftDownStep(f0: seq<Cell>, f: seq<Cell>, k: int, hi: int, d: int)
    requires 0 <= k < hi <= |f0| && d < 0 <= k + d && Shifted(f0, f, k + 1, hi, d)
    ensures Shifted(f0, f[k := f[k + d]], k, hi, d)
  {
  }

  /** Shifting the region's cells back by one row and blanking the last row deletes the first. */
  lemma RowsScrolledUp(s: Screen, f0: seq<Cell>, f1: seq<Cell>)
    requires s.Valid() && |f0| == s.rows * s.cols && s.view == Rows(f0, s.rows, s.cols)
    requires Shifted(f0, f1, s.top * s.cols, (s.bottom - 1) * s.cols, 1 * s.cols)
    ensures Rows(f1, s.rows, s.cols)[s.bottom - 1 := BlankRow(s.cols, s.Blank())] == ScrollUp(s).view
  {
    forall y: nat | y < s.rows
      ensures RowOf(f1, s.rows, s.cols, y) == RowOf(f0, s.rows, s.cols, if s.top <= y < s.bottom - 1 then y + 1 else y)
    {
      RowShifted(f0, f1, s.rows, s.cols, s.top, s.bottom - 1, 1, y);
    }
    RowsMoved(s, f0, f1, s.top, s.bottom - 1, 1);
    assert s.view[..s.top] + s.view[s.top + 1..s.bottom] + [BlankRow(s.cols, s.Blank())] + s.view[s.bottom..]
        == Rows(f1, s.rows, s.cols)[s.bottom - 1 := BlankRow(s.cols, s.Blank())];
  }

  /** Shifting the region's cells forward by one row and blanking the first row drops the last. */
  lemma RowsScrolledDown(s: Screen, f0: seq<Cell>, f1: seq<Cell>)
    requires s.Shaped() && s.top < s.rows && 1 <= s.bottom <= s.rows
    requires |f0| == s.rows * s.cols && s.view == Rows(f0, s.rows, s.cols)
    requires Shifted(f0, f1, (s.top + 1) * s.cols, s.bottom * s.cols, -1 * s.cols)
    ensures Rows(f1, s.rows, s.cols)[s.top := BlankRow(s.cols, s.Blank())] == ScrollDown(s).view
  {
    forall y: nat | y < s.rows
      ensures RowOf(f1, s.rows, s.cols, y) == RowOf(f0, s.rows, s.cols, if s.top + 1 <= y < s.bottom then y - 1 else y)
    {
      RowShifted(f0, f1, s.rows, s.cols, s.top + 1, s.bottom, -1, y);
    }
    RowsMoved(s, f0, f1, s.top + 1, s.bottom, -1);
    var v, blank := Rows(f1, s.rows, s.cols), BlankRow(s.cols, s.Blank());
    if s.top < s.bottom {
      assert s.view[..s.top] + [blank] + s.view[s.top..s.bottom - 1] + s.view[s.bottom..] == v[s.top := blank];
    } else {
      assert s.view[s.top := blank] == v[s.top := blank];
    }
  }

  lemma RowsMoved(s: Screen, f0: seq<Cell>, f1: seq<Cell>, lo: nat, hi: nat, e: int)
    requires |f0| == |f1| == s.rows * s.cols && s.view == Rows(f0, s.rows, s.cols)
    requires 0 <= lo + e && hi + e <= s.rows && hi <= s.rows
    requires forall y: nat :: y < s.rows ==>
      RowOf(f1, s.rows, s.cols, y) == RowOf(f0, s.rows, s.cols, if lo <= y < hi then y + e else y)
    ensures forall y: nat :: y < s.rows ==>
      Rows(f1, s.rows, s.cols)[y] == s.view[if lo <= y < hi then y + e else y]
  {
  }

  /** Blanking the cells of one row. */
  lemma RowBlanked(f0: seq<Cell>, f1: seq<Cell>, rows: nat, cols: nat, y: nat, blank: Cell)
    requires y < rows && |f0| == |f1| == rows * cols
    requires forall k :: 0 <= k < |f0| ==> f1[k] == if y * cols <= k < y * cols + cols then blank else f0[k]
    ensures Rows(f1, rows, cols) == Rows(f0, rows, cols)[y := BlankRow(cols, blank)]
  {
    forall r: nat | r < rows
      ensures RowOf(f1, rows, cols, r) == if r == y then BlankRow(cols, blank) else RowOf(f0, rows, cols, r)
    {
      forall x: nat | x < cols
        ensures CellAt(f1, rows, cols, x, r) == if r == y then blank else CellAt(f0, rows, cols, x, r)
      {
        IndexInside(x, r, rows, cols);
        RegionIndex(x, r, y, y + 1, cols);
        assert (y + 1) * cols == y * cols + cols;
      }
    }
  }

  lemma RowsUniform(rows: nat, cols: nat, c: Cell)
    ensures Rows(seq(rows * cols, _ => c), rows, cols) == seq(rows, _ => BlankRow(cols, c))
  {
    var f := seq(rows * cols, _ => c);
    forall y: nat | y < rows ensures RowOf(f, rows, cols, y) == BlankRow(cols, c) {
      forall x: nat | x < cols ensures CellAt(f, rows, cols, x, y) == c {
        IndexInside(x, y, rows, cols);
      }
    }
  }

  // ---- A clean cell always finds a free queue slot ----

  lemma {:induction false} Pigeonhole(s: seq<int>, n: nat)
    requires forall k :: 0 <= k < |s| ==> 0 <= s[k] < n
    requires forall j, k :: 0 <= j < k < |s| ==> s[j] != s[k]
    ensures |s| <= n
  {
    if s != [] {
      assert 0 <= s[0] < n;
      if k :| 0 <= k < |s| && s[k] == n - 1 {
        Pigeonhole(s[..k] + s[k + 1..], n - 1);
      } else {
        Pigeonhole(s, n - 1);
      }
    }
  }

  /** The queue has room whenever some cell is clean, whatever edits led here. */
  lemma RoomForCleanCell(c: Cache, i: nat)
    requires c.Bijective() && i < |c.slot| && c.slot[i] == NONE
    ensures c.used < |c.queue|
  {
    var homes := seq(c.used, k requires 0 <= k < c.used => c.Home(c.queue[k])) + [i];
    forall k | 0 <= k < c.used ensures homes[k] != i && 0 <= homes[k] < |c.slot| && c.slot[homes[k]] == k {
      assert c.Linked(k);
    }
    Pigeonhole(homes, |c.slot|);
  }

  /** Making a clean cell dirty. */
  lemma Enqueue(c: Cache, x: nat, y: nat, ch: Cell, d: Cache)
    requires c.Bijective() && x < c.cols && y < c.rows
    requires 0 <= y * c.cols + x < |c.slot| && c.slot[y * c.cols + x] == NONE && c.used < |c.queue|
    requires d == c.(queue := c.queue[c.used := QueueItem(x, y, ch)], slot := c.slot[y * c.cols + x := c.used], used := c.used + 1)
    ensures d.Bijective() && d.Flat() == c.Flat()[y * c.cols + x := ch]
  {
    var i := y * c.cols + x;
    forall k | 0 <= k < d.used ensures d.Linked(k) {
      if k < c.used { assert c.Linked(k); }
    }
    forall j | 0 <= j < |d.slot| ensures d.slot[j] == NONE || d.Pending(j) {
      assert c.slot[j] == NONE || c.Pending(j);
    }
    forall j | 0 <= j < |d.slot| ensures d.Flat()[j] == c.Flat()[i := ch][j] {
      assert c.slot[j] == NONE || c.Pending(j);
    }
  }

  /** Overwriting the pending character of a dirty cell. */
  lemma Overwrite(c: Cache, i: nat, ch: Cell, d: Cache)
    requires c.Bijective() && i < |c.slot| && c.slot[i] != NONE && 0 <= c.slot[i] < |c.queue|
    requires d == c.(queue := c.queue[c.slot[i] := c.queue[c.slot[i]].(c := ch)])
    ensures d.Bijective() && d.Flat() == c.Flat()[i := ch]
  {
    assert forall k :: 0 <= k < |c.queue| ==>
      d.queue[k].x == c.queue[k].x && d.queue[k].y == c.queue[k].y && d.Home(d.queue[k]) == c.Home(c.queue[k]);
    forall k | 0 <= k < d.used ensures d.Linked(k) {
      assert c.Linked(k);
    }
    assert c.Pending(i);
    forall j | 0 <= j < |d.slot| ensures d.slot[j] == NONE || d.Pending(j) {
      assert c.slot[j] == NONE || c.Pending(j);
    }
    forall j | 0 <= j < |d.slot| ensures d.Flat()[j] == c.Flat()[i := ch][j] {
      assert c.slot[j] == NONE || c.Pending(j);
    }
  }

  lemma FreshCache(c: Cache, empty: Cell)
    requires c.Sized() && c.used == 0
    requires forall i :: 0 <= i < |c.grid| ==> c.grid[i] == empty && c.slot[i] == NONE
    ensures c.Bijective() && c.View() == seq(c.rows, _ => BlankRow(c.cols, empty))
  {
    assert c.Flat() == seq(c.rows * c.cols, _ => empty);
    RowsUniform(c.rows, c.cols, empty);
  }

  // ---- Flushing ----

  lemma StartDraining(c: Cache)
    requires c.Bijective()
    ensures c.Draining(0)
  {
    forall k | 0 <= k < c.used ensures c.Targets(k) {
      assert c.Linked(k);
    }
  }

  /** Committing a pending character to the grid does not change the logical content. */
  lemma Commit(c: Cache, i: nat, h: nat, d: Cache)
    requires c.Draining(i) && h < |c.slot| && c.slot[h] != NONE
    requires 0 <= c.slot[h] < |c.queue|
    requires d == c.(grid := c.grid[h := c.queue[c.slot[h]].c], slot := c.slot[h := NONE])
    ensures d.Draining(i) && d.Flat() == c.Flat()
  {
    forall k | i <= k < d.used ensures d.Targets(k) {
      assert c.Targets(k);
    }
    forall j | 0 <= j < |d.slot| ensures d.slot[j] == NONE || (i <= d.slot[j] && d.Pending(j)) {
      assert c.slot[j] == NONE || c.Pending(j);
    }
    forall j | 0 <= j < |d.slot| ensures d.Flat()[j] == c.Flat()[j] {
      assert c.slot[j] == NONE || c.Pending(j);
    }
  }

  lemma NextItem(c: Cache, i: nat)
    requires c.Draining(i) && i < c.used && c.Targets(i) && c.slot[c.Home(c.queue[i])] == NONE
    ensures c.Draining(i + 1)
  {
    forall j | 0 <= j < |c.slot| ensures c.slot[j] == NONE || (i + 1 <= c.slot[j] && c.Pending(j)) {
      assert c.slot[j] == NONE || c.Pending(j);
    }
  }

  /** A commit that leaves its item in the queue breaks the bijection. */
  lemma ItemLeft(c: Cache, i: nat, d: Cache)
    requires c.Bijective() && i < |c.slot| && c.slot[i] != NONE
    requires d.slot == c.slot[i := NONE] && d.queue == c.queue && d.used == c.used && d.rows == c.rows && d.cols == c.cols
    ensures !d.Bijective()
  {
    assert c.Pending(i);
    assert 0 <= c.slot[i] < d.used && d.Home(d.queue[c.slot[i]]) == i;
    assert d.Bijective() ==> d.Linked(c.slot[i]);
  }

  /** Once every item is done the grid is the logical content and the queue may be emptied. */
  lemma Drained(c: Cache)
    requires c.Draining(c.used)
    ensures c.(used := 0).Bijective() && c.Flat() == c.grid && c.(used := 0).Flat() == c.grid
    ensures c.(used := 0).View() == c.View() == Rows(c.grid, c.rows, c.cols)
  {
    forall j | 0 <= j < |c.slot| ensures c.slot[j] == NONE {
      assert c.slot[j] == NONE || c.Pending(j);
    }
  }
}
