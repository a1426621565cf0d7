/**
 * The transition rule as the source applies it: a Moore-neighbourhood count
 * over the live-cell set, and a row-major sweep of the viewport that updates
 * the set in place, so that each cell sees the new state of the cells
 * visited before it and the old state of the cells after it.
 */
module Rules {
  import opened Constants
  import opened Cells

  /** The offsets the neighbour count iterates over, in the source's order. */
  const Delta: seq<int> := [-1, 0, 1]

  /** Live cells among (x + dx, y + dy) for the first m offsets dy of Delta, skipping (x, y) itself. */
  function LiveInColumn(s: set<Cell>, x: int, y: int, dx: int, m: nat): (r: nat)
    requires m <= |Delta|
    ensures r <= m
    ensures dx == 0 && m >= 2 ==> r < m
  {
    if m == 0 then 0
    else
      var dy := Delta[m - 1];
      LiveInColumn(s, x, y, dx, m - 1) + (if (dx != 0 || dy != 0) && (x + dx, y + dy) in s then 1 else 0)
  }

  /** Live cells among the neighbours of (x, y) whose offset dx is one of the first n entries of Delta. */
  function LiveAmong(s: set<Cell>, x: int, y: int, n: nat): (r: nat)
    requires n <= |Delta|
    ensures r <= 3 * n
    ensures n >= 2 ==> r < 3 * n
  {
    if n == 0 then 0 else LiveAmong(s, x, y, n - 1) + LiveInColumn(s, x, y, Delta[n - 1], |Delta|)
  }

  /** The number of live neighbours of c, as the nested loop over Delta x Delta computes it. */
  function NeighborCount(s: set<Cell>, c: Cell): (r: nat)
    ensures r <= 8
  {
    LiveAmong(s, c.0, c.1, |Delta|)
  }

  /** d is one of the 8 cells at Chebyshev distance 1 from c (its Moore neighbourhood). */
  predicate Adjacent(c: Cell, d: Cell)
  {
    d != c && -1 <= d.0 - c.0 <= 1 && -1 <= d.1 - c.1 <= 1
  }

  /** The live cells in the Moore neighbourhood of c. */
  ghost function LiveNeighbors(s: set<Cell>, c: Cell): set<Cell>
  {
    set d | d in s && Adjacent(c, d)
  }

  /** The neighbours (x + dx, y + dy) for the first m offsets dy of Delta, without (x, y) itself. */
  ghost function ColumnCells(x: int, y: int, dx: int, m: nat): set<Cell>
    requires m <= |Delta|
  {
    if m == 0 then {}
    else if dx == 0 && Delta[m - 1] == 0 then ColumnCells(x, y, dx, m - 1)
    else ColumnCells(x, y, dx, m - 1) + {(x + dx, y + Delta[m - 1])}
  }

  /** The neighbours of (x, y) whose offset dx is one of the first n entries of Delta. */
  ghost function BlockCells(x: int, y: int, n: nat): set<Cell>
    requires n <= |Delta|
  {
    if n == 0 then {} else BlockCells(x, y, n - 1) + ColumnCells(x, y, Delta[n - 1], |Delta|)
  }

  lemma {:induction false} ColumnMembers(x: int, y: int, dx: int, m: nat, d: Cell)
    requires m <= |Delta|
    ensures d in ColumnCells(x, y, dx, m) <==> d.0 == x + dx && y - 1 <= d.1 < y + m - 1 && d != (x, y)
  {
    if m > 0 {
      ColumnMembers(x, y, dx, m - 1, d);
      assert Delta[m - 1] == m - 2;
    }
  }

  lemma {:induction false} BlockMembers(x: int, y: int, n: nat, d: Cell)
    requires n <= |Delta|
    ensures d in BlockCells(x, y, n) <==> x - 1 <= d.0 < x + n - 1 && -1 <= d.1 - y <= 1 && d != (x, y)
  {
    if n > 0 {
      BlockMembers(x, y, n - 1, d);
      ColumnMembers(x, y, Delta[n - 1], |Delta|, d);
      assert Delta[n - 1] == n - 2;
    }
  }

  /** Adding a fresh cell to a region adds one to its live count exactly when that cell is live. */
  lemma LiveCountAddOne(region: set<Cell>, e: Cell, s: set<Cell>)
    requires e !in region
    ensures |(region + {e}) * s| == |region * s| + (if e in s then 1 else 0)
  {
    if e in s {
      assert (region + {e}) * s == region * s + {e};
    } else {
      assert (region + {e}) * s == region * s;
    }
  }

  /** The live count of a union of disjoint regions is the sum of their live counts. */
  lemma LiveCountUnion(a: set<Cell>, b: set<Cell>, s: set<Cell>)
    requires a !! b
    ensures |(a + b) * s| == |a * s| + |b * s|
  {
    assert (a + b) * s == a * s + b * s;
    assert (a * s) !! (b * s);
  }

  /** One more offset in a column adds to the loop's count exactly what it adds to the region's live count. */
  lemma ColumnStep(s: set<Cell>, x: int, y: int, dx: int, m: nat)
    requires 0 < m <= |Delta|
    ensures LiveInColumn(s, x, y, dx, m) - LiveInColumn(s, x, y, dx, m - 1)
         == |ColumnCells(x, y, dx, m) * s| - |ColumnCells(x, y, dx, m - 1) * s|
  {
    var dy := Delta[m - 1];
    var prev := ColumnCells(x, y, dx, m - 1);
    var e := (x + dx, y + dy);
    if dx != 0 || dy != 0 {
      assert ColumnCells(x, y, dx, m) == prev + {e};
      assert e !in prev by {
        ColumnMembers(x, y, dx, m - 1, e);
        assert dy == m - 2;
      }
      LiveCountAddOne(prev, e, s);
    } else {
      assert ColumnCells(x, y, dx, m) == prev;
    }
  }

  lemma {:induction false} ColumnCount(s: set<Cell>, x: int, y: int, dx: int, m: nat)
    requires m <= |Delta|
    ensures LiveInColumn(s, x, y, dx, m) == |ColumnCells(x, y, dx, m) * s|
  {
    if m > 0 {
      ColumnCount(s, x, y, dx, m - 1);
      ColumnStep(s, x, y, dx, m);
    }
  }

  /** The next column of offsets shares no cell with the columns before it. */
  lemma BlockColumnDisjoint(x: int, y: int, n: nat)
    requires 0 < n <= |Delta|
    ensures BlockCells(x, y, n - 1) !! ColumnCells(x, y, Delta[n - 1], |Delta|)
  {
    var dx := Delta[n - 1];
    forall d | d in BlockCells(x, y, n - 1) ensures d !in ColumnCells(x, y, dx, |Delta|) {
      BlockMembers(x, y, n - 1, d);
      ColumnMembers(x, y, dx, |Delta|, d);
      assert dx == n - 2;
    }
  }

  lemma {:induction false} BlockCount(s: set<Cell>, x: int, y: int, n: nat)
    requires n <= |Delta|
    ensures LiveAmong(s, x, y, n) == |BlockCells(x, y, n) * s|
  {
    if n > 0 {
      BlockCount(s, x, y, n - 1);
      var dx := Delta[n - 1];
      ColumnCount(s, x, y, dx, |Delta|);
      var prev := BlockCells(x, y, n - 1);
      var col := ColumnCells(x, y, dx, |Delta|);
      assert BlockCells(x, y, n) == prev + col;
      assert LiveAmong(s, x, y, n) == LiveAmong(s, x, y, n - 1) + LiveInColumn(s, x, y, dx, |Delta|);
      BlockColumnDisjoint(x, y, n);
      LiveCountUnion(prev, col, s);
    }
  }

  /** The count is the number of live cells in the Moore neighbourhood. */
  lemma NeighborCountIsLiveNeighbors(s: set<Cell>, c: Cell)
    ensures NeighborCount(s, c) == |LiveNeighbors(s, c)|
  {
    BlockCount(s, c.0, c.1, |Delta|);
    forall d ensures d in BlockCells(c.0, c.1, |Delta|) <==> Adjacent(c, d) {
      BlockMembers(c.0, c.1, |Delta|, d);
    }
    assert BlockCells(c.0, c.1, |Delta|) * s == LiveNeighbors(s, c);
  }

  /** The count depends only on the cells of the Moore neighbourhood. */
  lemma NeighborCountLocal(s: set<Cell>, t: set<Cell>, c: Cell)
    requires forall d :: Adjacent(c, d) ==> (d in s <==> d in t)
    ensures NeighborCount(s, c) == NeighborCount(t, c)
  {
    NeighborCountIsLiveNeighbors(s, c);
    NeighborCountIsLiveNeighbors(t, c);
    assert LiveNeighbors(s, c) == LiveNeighbors(t, c);
  }

  /** Whether c itself is live does not affect its count. */
  lemma NeighborCountIgnoresSelf(s: set<Cell>, c: Cell)
    ensures NeighborCount(s + {c}, c) == NeighborCount(s - {c}, c)
  {
    NeighborCountLocal(s + {c}, s - {c}, c);
  }

  /** An empty set gives every cell a count of 0. */
  lemma NeighborCountEmpty(c: Cell)
    ensures NeighborCount({}, c) == 0
  {
    NeighborCountIsLiveNeighbors({}, c);
    assert LiveNeighbors({}, c) == {};
  }

  /**
   * Whether a cell is live after its visit: a live cell survives with 2 or 3
   * live neighbours, a dead cell is born with exactly 3.
   */
  predicate NextAlive(alive: bool, n: int): (r: bool)
    ensures r <==> n == 3 || (alive && n == 2)
  {
    if alive then !(n < 2 || n > 3) else n == 3
  }

  /** One visit of the sweep: c is removed or added according to its current count; nothing else changes. */
  function Visit(t: set<Cell>, c: Cell): (r: set<Cell>)
    ensures c in r <==> NextAlive(c in t, NeighborCount(t, c))
  {
    var n := NeighborCount(t, c);
    if c in t then
      if n < 2 || n > 3 then t - {c} else t
    else
      if n == 3 then t + {c} else t
  }

  /** A visit changes no cell but the visited one. */
  lemma VisitFrame(t: set<Cell>, c: Cell, d: Cell)
    requires d != c
    ensures d in Visit(t, c) <==> d in t
  {
  }

  /** Whether the row-major sweep has already visited c before position k. */
  predicate VisitedBefore(c: Cell, k: int)
  {
    InViewport(c) && Index(c) < k
  }

  /** The live set after the first k visits of the in-place row-major sweep of s. */
  function Sweep(s: set<Cell>, k: int): set<Cell>
    requires 0 <= k <= CELLS
    decreases k
  {
    if k == 0 then s else Visit(Sweep(s, k - 1), CellAt(k - 1))
  }

  /** The first k visits leave every cell they have not reached as it was. */
  lemma {:induction false} SweepFrame(s: set<Cell>, k: int, d: Cell)
    requires 0 <= k <= CELLS && !VisitedBefore(d, k)
    ensures d in Sweep(s, k) <==> d in s
  {
    if k > 0 {
      SweepFrame(s, k - 1, d);
      IndexOfCellAt(k - 1);
      assert d != CellAt(k - 1);
    }
  }

  /** Visit k + 1 of the sweep is the visit of the cell at row-major position k. */
  lemma SweepStep(s: set<Cell>, k: int, c: Cell)
    requires 0 <= k < CELLS && InViewport(c) && Index(c) == k
    ensures Sweep(s, k + 1) == Visit(Sweep(s, k), c)
  {
    CellAtOfIndex(c);
  }

  /** The generation the source produces: the whole sweep. */
  function NextGeneration(s: set<Cell>): set<Cell>
  {
    Sweep(s, CELLS)
  }

  /** Cells outside the viewport are never visited, so the new generation keeps them as they were. */
  lemma NextGenerationKeepsOutside(s: set<Cell>, d: Cell)
    requires !InViewport(d)
    ensures d in NextGeneration(s) <==> d in s
  {
    SweepFrame(s, CELLS, d);
  }

  /** A viewport cell changes only at its own visit: before it, it has its old state; after it, its new one. */
  lemma {:induction false} SweepVisitsOnce(s: set<Cell>, c: Cell, k: int)
    requires InViewport(c) && 0 <= k <= CELLS
    ensures c in Sweep(s, k) <==> if k <= Index(c) then c in s else c in Sweep(s, Index(c) + 1)
  {
    if k <= Index(c) {
      SweepFrame(s, k, c);
    } else if k > Index(c) + 1 {
      SweepVisitsOnce(s, c, k - 1);
      IndexOfCellAt(k - 1);
      assert CellAt(k - 1) != c;
    }
  }

  /** Cells visited before position m carry their final state, the others their original one. */
  ghost function Mixed(s: set<Cell>, t: set<Cell>, m: int): set<Cell>
  {
    (set d | d in t && VisitedBefore(d, m)) + (set d | d in s && !VisitedBefore(d, m))
  }

  /** Partway through, the sweep's set is the final generation before m and the original from m on. */
  lemma SweepIsMixed(s: set<Cell>, m: int)
    requires 0 <= m <= CELLS
    ensures Sweep(s, m) == Mixed(s, NextGeneration(s), m)
  {
    var t := NextGeneration(s);
    forall d ensures d in Sweep(s, m) <==> d in Mixed(s, t, m) {
      if VisitedBefore(d, m) {
        SweepVisitsOnce(s, d, m);
        SweepVisitsOnce(s, d, CELLS);
      } else {
        SweepFrame(s, m, d);
      }
    }
  }

  /**
   * The fate of each viewport cell in the in-place sweep: the rule applied to
   * its own original state and to its count over the already-updated cells
   * before it and the not-yet-visited cells after it.
   */
  lemma CellFate(s: set<Cell>, c: Cell)
    requires InViewport(c)
    ensures c in NextGeneration(s) <==> NextAlive(c in s, NeighborCount(Mixed(s, NextGeneration(s), Index(c)), c))
  {
    var m := Index(c);
    SweepVisitsOnce(s, c, CELLS);
    SweepIsMixed(s, m);
    CellAtOfIndex(c);
  }

  /** Sweeping an empty set leaves it empty: nothing is born from nothing. */
  lemma {:induction false} SweepEmpty(k: int)
    requires 0 <= k <= CELLS
    ensures Sweep({}, k) == {}
  {
    if k > 0 {
      SweepEmpty(k - 1);
      NeighborCountEmpty(CellAt(k - 1));
    }
  }

  /** A horizontal blinker on row 1: three live cells side by side. */
  function Blinker(): set<Cell>
  {
    {(0, 1), (1, 1), (2, 1)}
  }

  /** The live neighbours of c in s, when they are exactly the cells of n. */
  lemma CountFromNeighbors(s: set<Cell>, c: Cell, n: set<Cell>)
    requires forall d :: d in n <==> d in s && Adjacent(c, d)
    ensures NeighborCount(s, c) == |n|
  {
    NeighborCountIsLiveNeighbors(s, c);
    assert LiveNeighbors(s, c) == n;
  }

  /** Neighbour counts along the row above the blinker s. */
  lemma BlinkerRowAbove(s: set<Cell>)
    requires s == Blinker()
    ensures NeighborCount(s, (0, 0)) == 2
    ensures NeighborCount(s, (1, 0)) == 3
    ensures NeighborCount(s, (2, 0)) == 2
  {
    CountFromNeighbors(s, (0, 0), {(0, 1), (1, 1)});
    CountFromNeighbors(s, (1, 0), {(0, 1), (1, 1), (2, 1)});
    CountFromNeighbors(s, (2, 0), {(1, 1), (2, 1)});
  }

  /** The first cells of the top row are visited first, in column order. */
  lemma TopRowOrder()
    ensures CellAt(0) == (0, 0) && CellAt(1) == (1, 0) && CellAt(2) == (2, 0)
    ensures Index((2, 0)) == 2
  {
    CellAtOfIndex((0, 0));
    CellAtOfIndex((1, 0));
    CellAtOfIndex((2, 0));
  }

  /** The first two visits over the blinker s: (0, 0) stays dead, (1, 0) is born. */
  lemma BlinkerFirstVisits(s: set<Cell>)
    requires s == Blinker()
    ensures Sweep(s, 2) == s + {(1, 0)}
  {
    BlinkerRowAbove(s);
    TopRowOrder();
    assert Sweep(s, 1) == s;
  }

  /** Once (1, 0) is born, (2, 0) has three live neighbours. */
  lemma AfterFirstBirth(t: set<Cell>)
    requires t == Blinker() + {(1, 0)}
    ensures NeighborCount(t, (2, 0)) == 3
  {
    CountFromNeighbors(t, (2, 0), {(1, 0), (1, 1), (2, 1)});
  }

  /** The third visit over the blinker s: (2, 0) is born. */
  lemma BlinkerThirdVisit(s: set<Cell>)
    requires s == Blinker()
    ensures (2, 0) in Sweep(s, 3)
  {
    BlinkerFirstVisits(s);
    TopRowOrder();
    AfterFirstBirth(s + {(1, 0)});
    assert Sweep(s, 3) == Visit(s + {(1, 0)}, (2, 0));
  }

  /**
   * The in-place sweep is not the rule applied to a snapshot: cell (2, 0)
   * has only two live neighbours in the blinker s, but (1, 0) is born just
   * before its visit and gives it a third, so it is born too.
   */
  lemma InPlaceSweepSeesEarlierBirths(s: set<Cell>)
    requires s == Blinker()
    ensures (2, 0) in NextGeneration(s)
    ensures !NextAlive((2, 0) in s, NeighborCount(s, (2, 0)))
  {
    BlinkerRowAbove(s);
    BlinkerThirdVisit(s);
    TopRowOrder();
    SweepVisitsOnce(s, (2, 0), CELLS);
  }
}
