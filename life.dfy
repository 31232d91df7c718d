/**
 * Conway's Game of Life as played by yacgol, stated on values.
 *
 * A board is a list of rows: `b[y][x]` is the cell in column `x` of row `y`,
 * with `x` in [0, length) and `y` in [0, width). Neighbours are found by
 * adding each of eight fixed offsets to the coordinates and wrapping each
 * coordinate around its axis, so the board is a torus. The offsets are
 * counted one by one: on an axis shorter than 3 two offsets can reach the
 * same cell, or the cell itself, and each such hit counts separately.
 */
module Life {

  /** Thresholds of the rule. */
  const UnderPopulationCount: int := 2
  const OverPopulationCount: int := 3
  const ReproductionCount: int := 3

  /** The eight (dx, dy) offsets of the Moore neighbourhood, in the order yacgol lists them. */
  const NeighborCoordinates: seq<(int, int)> :=
    [(-1, -1), (-1, 0), (-1, 1), (0, 1), (1, 1), (1, 0), (1, -1), (0, -1)]

  type Board = seq<seq<bool>>

  /** `b` has `width` rows of `length` cells each. */
  ghost predicate IsRect(b: Board, length: nat, width: nat)
  {
    |b| == width && forall y :: 0 <= y < width ==> |b[y]| == length
  }

  /** The number of items `range(n)` yields: a non-positive dimension gives an empty axis. */
  function Extent(n: int): (r: nat)
    ensures r >= n
    ensures r == n || r == 0
  {
    if n > 0 then n else 0
  }

  /**
   * Python's `c % n` for a positive `n` (Python's remainder takes the sign of
   * the divisor, so it agrees with Dafny's Euclidean `%` here). For a
   * coordinate one step outside the axis it wraps to the opposite end.
   */
  function Wrap(c: int, n: int): (r: int)
    requires n > 0
    ensures 0 <= r < n
    ensures 0 <= c < n ==> r == c
    ensures c == -1 ==> r == n - 1
    ensures c == n ==> r == 0
  {
    c % n
  }

  /** Python's `int(flag)`: 1 for a live cell, 0 for a dead one. */
  function Bit(a: bool): nat
  {
    if a then 1 else 0
  }

  /**
   * Whether the cell that offset `o` reaches from (x, y) is alive; with no
   * displacement that is the cell itself. Where the other targets land is
   * stated by LifeFacts.OffsetAliveReads.
   */
  predicate OffsetAlive(b: Board, length: nat, width: nat, x: int, y: int, o: (int, int)): (r: bool)
    requires IsRect(b, length, width) && 0 <= x < length && 0 <= y < width
    ensures o == (0, 0) ==> (r <==> b[y][x])
  {
    b[Wrap(y + o.1, width)][Wrap(x + o.0, length)]
  }

  /** Sum, over the offsets, of 1 for each one whose wrapped cell is alive. */
  function CountLive(b: Board, length: nat, width: nat, x: int, y: int, offsets: seq<(int, int)>): (r: nat)
    requires IsRect(b, length, width) && 0 <= x < length && 0 <= y < width
    ensures r <= |offsets|
    decreases |offsets|
  {
    if offsets == [] then 0
    else
      var last := |offsets| - 1;
      CountLive(b, length, width, x, y, offsets[..last])
      + Bit(OffsetAlive(b, length, width, x, y, offsets[last]))
  }

  /** The neighbour count of cell (x, y): at most 8. */
  function NeighborCount(b: Board, length: nat, width: nat, x: int, y: int): (r: nat)
    requires IsRect(b, length, width) && 0 <= x < length && 0 <= y < width
    ensures r <= |NeighborCoordinates| == 8
  {
    CountLive(b, length, width, x, y, NeighborCoordinates)
  }

  /**
   * The rule as yacgol writes it: a live cell below the under-population
   * threshold flips, a live cell above the over-population threshold flips,
   * a dead cell at exactly the reproduction count flips, nothing else changes.
   */
  function NextAlive(alive: bool, count: int): (r: bool)
    ensures r <==> (alive && UnderPopulationCount <= count <= OverPopulationCount)
                   || (!alive && count == ReproductionCount)
  {
    if alive && count < UnderPopulationCount then !alive
    else if alive && count > OverPopulationCount then !alive
    else if !alive && count == ReproductionCount then !alive
    else alive
  }

  /** One generation: every cell's next state from the counts of the given board. */
  function Step(b: Board, length: nat, width: nat): (r: Board)
    requires IsRect(b, length, width)
    ensures IsRect(r, length, width)
  {
    seq(width, y requires 0 <= y < width =>
      seq(length, x requires 0 <= x < length =>
        NextAlive(b[y][x], NeighborCount(b, length, width, x, y))))
  }

  /** The board with every cell dead. */
  function Dead(length: nat, width: nat): (b: Board)
    ensures IsRect(b, length, width)
    ensures forall y, x :: 0 <= y < width && 0 <= x < length ==> !b[y][x]
  {
    seq(width, _ => seq(length, _ => false))
  }

  /** The board with exactly the cell (x, y) negated. */
  function Flipped(b: Board, length: nat, width: nat, x: int, y: int): (r: Board)
    requires IsRect(b, length, width) && 0 <= x < length && 0 <= y < width
    ensures IsRect(r, length, width)
    ensures r[y][x] == !b[y][x]
    ensures forall yy, xx :: 0 <= yy < width && 0 <= xx < length && (yy, xx) != (y, x) ==> r[yy][xx] == b[yy][xx]
  {
    b[y := b[y][x := !b[y][x]]]
  }

  /** The board with the cell (x, y) set dead and every other cell as it was. */
  function Killed(b: Board, length: nat, width: nat, x: int, y: int): (r: Board)
    requires IsRect(b, length, width) && 0 <= x < length && 0 <= y < width
    ensures IsRect(r, length, width)
    ensures !r[y][x]
    ensures forall yy, xx :: 0 <= yy < width && 0 <= xx < length && (yy, xx) != (y, x) ==> r[yy][xx] == b[yy][xx]
  {
    b[y := b[y][x := false]]
  }
}
