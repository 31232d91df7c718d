/**
 * yacgol's CellGrid: a grid of cell buttons, each holding one `alive` flag,
 * updated in place by flip, initialize, reset and step.
 *
 * Each button's flag is kept in `cells[y, x]` (row y, column x), the layout
 * of the source's list of rows. Every state is related to the value-level
 * board of module Life through `Board()`.
 */
module Yacgol {
  import opened Life

  class CellGrid {
    /** The x-extent (columns) and y-extent (rows) the grid was created with. */
    const length: int
    const width: int
    /** `cells[y, x]` is the `alive` flag of the button in row y, column x. */
    const cells: array2<bool>

    /** The grid has `width` rows of `length` buttons; a non-positive dimension gives no buttons. */
    ghost predicate Valid()
    {
      cells.Length0 == Extent(width) && cells.Length1 == Extent(length)
    }

    /** The current generation as a value. */
    ghost function Board(): (b: Life.Board)
      reads cells
      ensures IsRect(b, cells.Length1, cells.Length0)
      ensures forall y, x :: 0 <= y < cells.Length0 && 0 <= x < cells.Length1 ==> b[y][x] == cells[y, x]
    {
      seq(cells.Length0, y requires 0 <= y < cells.Length0 reads cells =>
        seq(cells.Length1, x requires 0 <= x < cells.Length1 reads cells => cells[y, x]))
    }

    /** A new grid: every button starts dead. */
    constructor (length: int, width: int)
      ensures this.length == length && this.width == width
      ensures Valid() && fresh(cells)
      ensures Board() == Dead(Extent(length), Extent(width))
    {
      this.length := length;
      this.width := width;
      cells := new bool[Extent(width), Extent(length)]((_, _) => false);
      new;
      BoardIsDead();
    }

    /** A board whose every cell is dead is the dead board. */
    lemma BoardIsDead()
      requires Valid()
      requires forall y, x :: 0 <= y < cells.Length0 && 0 <= x < cells.Length1 ==> !cells[y, x]
      ensures Board() == Dead(Extent(length), Extent(width))
    {
      var b, d := Board(), Dead(Extent(length), Extent(width));
      forall y | 0 <= y < |b|
        ensures b[y] == d[y]
      {
      }
    }

    /** The button at (x, y) becomes dead; nothing else changes. */
    method Initialize(x: int, y: int)
      requires Valid() && 0 <= x < length && 0 <= y < width
      modifies cells
      ensures !cells[y, x]
      ensures forall yy, xx :: 0 <= yy < cells.Length0 && 0 <= xx < cells.Length1 && (yy, xx) != (y, x)
                ==> cells[yy, xx] == old(cells[yy, xx])
      ensures Board() == Killed(old(Board()), length, width, x, y)
    {
      cells[y, x] := false;
      ghost var b, k := Board(), Killed(old(Board()), length, width, x, y);
      forall yy | 0 <= yy < |b|
        ensures b[yy] == k[yy]
      {
      }
    }

    /** The button at (x, y) toggles between dead and alive; nothing else changes. */
    method Flip(x: int, y: int)
      requires Valid() && 0 <= x < length && 0 <= y < width
      modifies cells
      ensures cells[y, x] == !old(cells[y, x])
      ensures forall yy, xx :: 0 <= yy < cells.Length0 && 0 <= xx < cells.Length1 && (yy, xx) != (y, x)
                ==> cells[yy, xx] == old(cells[yy, xx])
      ensures Board() == Flipped(old(Board()), length, width, x, y)
    {
      if cells[y, x] {
        cells[y, x] := false;
      } else {
        cells[y, x] := true;
      }
      ghost var b, f := Board(), Flipped(old(Board()), length, width, x, y);
      forall yy | 0 <= yy < |b|
        ensures b[yy] == f[yy]
      {
      }
    }

    /** Every button is initialized, row by row; the dimensions stay as they were. */
    method ResetCells()
      requires Valid()
      modifies cells
      ensures Board() == Dead(Extent(length), Extent(width))
    {
      var rows, cols := cells.Length0, cells.Length1;
      var y := 0;
      while y < rows
        invariant 0 <= y <= rows
        invariant forall yy, xx :: 0 <= yy < y && 0 <= xx < cols ==> !cells[yy, xx]
      {
        var x := 0;
        while x < cols
          invariant 0 <= x <= cols
          invariant forall yy, xx :: 0 <= yy < y && 0 <= xx < cols ==> !cells[yy, xx]
          invariant forall xx :: 0 <= xx < x ==> !cells[y, xx]
        {
          Initialize(x, y);
          x := x + 1;
        }
        y := y + 1;
      }
      BoardIsDead();
    }

    /** Sum of 1 for each offset whose wrapped button is alive. */
    function CountLiveAt(x: int, y: int, offsets: seq<(int, int)>): (r: nat)
      reads cells
      requires Valid() && 0 <= x < length && 0 <= y < width
      ensures r == CountLive(Board(), length, width, x, y, offsets)
      decreases |offsets|
    {
      if offsets == [] then 0
      else
        var (i, j) := offsets[|offsets| - 1];
        CountLiveAt(x, y, offsets[..|offsets| - 1])
        + Bit(cells[Wrap(y + j, width), Wrap(x + i, length)])
    }

    /** The number of the eight offsets of (x, y) whose wrapped button is alive. */
    function NeighborCount(x: int, y: int): (r: nat)
      reads cells
      requires Valid() && 0 <= x < length && 0 <= y < width
      ensures r == Life.NeighborCount(Board(), length, width, x, y)
      ensures r <= 8
    {
      CountLiveAt(x, y, NeighborCoordinates)
    }

    /** The first pass of a step: a fresh array holding every button's neighbour count. */
    method NeighborCounts() returns (counts: array2<int>)
      requires Valid()
      ensures fresh(counts)
      ensures counts.Length0 == cells.Length0 && counts.Length1 == cells.Length1
      ensures forall y, x :: 0 <= y < counts.Length0 && 0 <= x < counts.Length1 ==>
                counts[y, x] == Life.NeighborCount(Board(), length, width, x, y)
    {
      counts := new int[cells.Length0, cells.Length1];
      var y := 0;
      while y < cells.Length0
        invariant 0 <= y <= cells.Length0
        invariant forall yy, xx :: 0 <= yy < y && 0 <= xx < cells.Length1 ==>
                    counts[yy, xx] == Life.NeighborCount(Board(), length, width, xx, yy)
        modifies counts
      {
        RowCounts(counts, y);
        y := y + 1;
      }
    }

    /** The first pass on row y: every count of that row is stored, the other rows are left alone. */
    method RowCounts(counts: array2<int>, y: int)
      requires Valid() && 0 <= y < cells.Length0
      requires counts.Length0 == cells.Length0 && counts.Length1 == cells.Length1
      modifies counts
      ensures forall x :: 0 <= x < counts.Length1 ==> counts[y, x] == Life.NeighborCount(Board(), length, width, x, y)
      ensures forall yy, xx :: 0 <= yy < counts.Length0 && yy != y && 0 <= xx < counts.Length1 ==>
                counts[yy, xx] == old(counts[yy, xx])
    {
      ghost var b := Board();
      var x := 0;
      while x < cells.Length1
        invariant 0 <= x <= cells.Length1
        invariant forall xx :: 0 <= xx < x ==> counts[y, xx] == Life.NeighborCount(b, length, width, xx, y)
        invariant forall yy, xx :: 0 <= yy < counts.Length0 && yy != y && 0 <= xx < counts.Length1 ==>
                    counts[yy, xx] == old(counts[yy, xx])
      {
        var count := NeighborCount(x, y);
        counts[y, x] := count;
        x := x + 1;
      }
    }

    /**
     * The second pass of a step: each button flips when it is alive with a
     * count below the under-population threshold or above the over-population
     * threshold, or dead with exactly the reproduction count.
     */
    method ApplyRules(counts: array2<int>)
      requires Valid()
      requires counts.Length0 == cells.Length0 && counts.Length1 == cells.Length1
      modifies cells
      ensures forall y, x :: 0 <= y < cells.Length0 && 0 <= x < cells.Length1 ==>
                cells[y, x] == NextAlive(old(cells[y, x]), counts[y, x])
    {
      var rows, cols := cells.Length0, cells.Length1;
      var y := 0;
      while y < rows
        invariant 0 <= y <= rows
        invariant forall yy, xx :: 0 <= yy < y && 0 <= xx < cols ==>
                    cells[yy, xx] == NextAlive(old(cells[yy, xx]), counts[yy, xx])
        invariant forall yy, xx :: y <= yy < rows && 0 <= xx < cols ==> cells[yy, xx] == old(cells[yy, xx])
        modifies cells
      {
        var x := 0;
        while x < cols
          invariant 0 <= x <= cols
          invariant forall yy, xx :: 0 <= yy < y && 0 <= xx < cols ==>
                      cells[yy, xx] == NextAlive(old(cells[yy, xx]), counts[yy, xx])
          invariant forall xx :: 0 <= xx < x ==> cells[y, xx] == NextAlive(old(cells[y, xx]), counts[y, xx])
          invariant forall xx :: x <= xx < cols ==> cells[y, xx] == old(cells[y, xx])
          invariant forall yy, xx :: y < yy < rows && 0 <= xx < cols ==> cells[yy, xx] == old(cells[yy, xx])
          modifies cells
        {
          var count := counts[y, x];
          if cells[y, x] && count < UnderPopulationCount {
            Flip(x, y);
          } else if cells[y, x] && count > OverPopulationCount {
            Flip(x, y);
          } else if !cells[y, x] && count == ReproductionCount {
            Flip(x, y);
          }
          x := x + 1;
        }
        y := y + 1;
      }
    }

    /**
     * One generation: all neighbour counts are taken before any button flips,
     * so every button's next state is computed from the grid as it was.
     */
    method Step()
      requires Valid()
      modifies cells
      ensures Board() == Life.Step(old(Board()), Extent(length), Extent(width))
    {
      var counts := NeighborCounts();
      ApplyRules(counts);
      ghost var after, next := Board(), Life.Step(old(Board()), Extent(length), Extent(width));
      forall y | 0 <= y < cells.Length0
        ensures after[y] == next[y]
      {
      }
    }
  }
}
