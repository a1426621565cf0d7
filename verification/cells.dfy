/**
 * The live-cell set and its primitive edits: a cell is an (x, y) pair of
 * unbounded integers, and a generation is the finite set of live cells.
 * The viewport is the COLS-by-ROWS rectangle that the sweep, fill, invert
 * and random-seed commands iterate over, in row-major order.
 */
module Cells {
  import opened Constants

  /** A grid coordinate (x, y); any integer pair is valid. */
  type Cell = (int, int)

  /** Pixel position to cell: floor division of each coordinate by the tile size. */
  function GetCell(position: (int, int)): (r: Cell)
    ensures r.0 * TILE_SIZE <= position.0 < r.0 * TILE_SIZE + TILE_SIZE
    ensures r.1 * TILE_SIZE <= position.1 < r.1 * TILE_SIZE + TILE_SIZE
  {
    // Dafny's division by a positive divisor rounds down, like Python's //.
    (position.0 / TILE_SIZE, position.1 / TILE_SIZE)
  }

  /** The set after adding c; adding a live cell changes nothing. */
  function Activated(s: set<Cell>, c: Cell): (r: set<Cell>)
    ensures c in r
    ensures forall d :: d != c ==> (d in r <==> d in s)
    ensures c in s ==> r == s
  {
    s + {c}
  }

  /** The set after removing c if it is live; removing a dead cell changes nothing. */
  function Deactivated(s: set<Cell>, c: Cell): (r: set<Cell>)
    ensures c !in r
    ensures forall d :: d != c ==> (d in r <==> d in s)
    ensures c !in s ==> r == s
  {
    if c in s then s - {c} else s
  }

  /** The set after flipping c: exactly one of deactivate and activate applies. */
  function Toggled(s: set<Cell>, c: Cell): (r: set<Cell>)
    ensures c in r <==> c !in s
    ensures forall d :: d != c ==> (d in r <==> d in s)
  {
    if c in s then Deactivated(s, c) else Activated(s, c)
  }

  /** Toggling the same cell twice restores the original set. */
  lemma ToggleInvolution(s: set<Cell>, c: Cell)
    ensures Toggled(Toggled(s, c), c) == s
  {
    var t := Toggled(Toggled(s, c), c);
    forall d ensures d in t <==> d in s {
      if d != c {
        assert d in Toggled(s, c) <==> d in s;
      }
    }
  }

  /** Activating then deactivating a cell leaves it dead, whatever its prior state. */
  lemma ActivateThenDeactivate(s: set<Cell>, c: Cell)
    ensures c !in Deactivated(Activated(s, c), c)
    ensures Deactivated(Activated(s, c), c) == s - {c}
  {
  }

  /** A cell lies in the viewport: 0 <= x < COLS and 0 <= y < ROWS. */
  predicate InViewport(c: Cell)
  {
    0 <= c.0 < COLS && 0 <= c.1 < ROWS
  }

  /** Row-major position of a viewport cell: row y, then column x. */
  function Index(c: Cell): (k: int)
    requires InViewport(c)
    ensures 0 <= k < CELLS
  {
    c.1 * COLS + c.0
  }

  /** The viewport cell at row-major position k. */
  function CellAt(k: int): Cell
    requires 0 <= k < CELLS
  {
    (k % COLS, k / COLS)
  }

  /** Every row-major position names a viewport cell, and its index is that position. */
  lemma IndexOfCellAt(k: int)
    requires 0 <= k < CELLS
    ensures InViewport(CellAt(k)) && Index(CellAt(k)) == k
  {
    assert COLS == 80 && CELLS == 3600;
  }

  /** A viewport cell is recovered from its row-major position. */
  lemma CellAtOfIndex(c: Cell)
    requires InViewport(c)
    ensures CellAt(Index(c)) == c
  {
    var k := Index(c);
    var q, r := k / COLS, k % COLS;
    assert COLS == 80;
    assert k == q * COLS + r && 0 <= r < COLS;
    assert (q - c.1) * COLS == c.0 - r;
  }

  /** Column j of row i is at row-major position i * COLS + j, and the next row starts COLS later. */
  lemma RowMajorPosition(i: int, j: int)
    requires 0 <= i < ROWS && 0 <= j <= COLS
    ensures 0 <= i * COLS + j <= CELLS
    ensures j < COLS ==> i * COLS + j < CELLS && Index((j, i)) == i * COLS + j
    ensures i * COLS + COLS == (i + 1) * COLS
  {
    assert COLS == 80 && ROWS == 45 && CELLS == 3600;
  }

  /** Whether viewport cell c comes before column j of row i in a row-major traversal. */
  predicate RowMajorBefore(c: Cell, i: int, j: int)
  {
    InViewport(c) && (c.1 < i || (c.1 == i && c.0 < j))
  }

  /** Every viewport cell, as the fill command builds it. */
  function Viewport(): (r: set<Cell>)
    ensures forall c :: c in r <==> InViewport(c)
  {
    set x: int, y: int | 0 <= y < ROWS && 0 <= x < COLS :: (x, y)
  }

  /** The viewport cells that are not live in s; live cells outside the viewport are dropped. */
  function Inverted(s: set<Cell>): (r: set<Cell>)
    ensures forall c :: c in r <==> InViewport(c) && c !in s
  {
    Viewport() - s
  }

  /** Inverting twice keeps exactly the live cells inside the viewport. */
  lemma InvertTwice(s: set<Cell>)
    ensures Inverted(Inverted(s)) == s * Viewport()
  {
    var t := Inverted(Inverted(s));
    forall c ensures c in t <==> c in s * Viewport() {
      assert c in Viewport() <==> InViewport(c);
    }
  }

  /** The random seed: a viewport cell is live when its coin, taken in row-major order, came up 1. */
  function Randomized(bits: seq<bool>): (r: set<Cell>)
    requires |bits| == CELLS
    ensures forall c :: c in r <==> InViewport(c) && bits[Index(c)]
  {
    set c | c in Viewport() && bits[Index(c)]
  }
}
