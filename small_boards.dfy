/**
 * Worked boards. On axes shorter than 3 the offsets overlap; on a 3-by-3
 * torus the eight offsets reach the eight other cells exactly once each.
 */
module SmallBoards {
  import opened Life
  import opened LifeFacts

  /** One more offset adds one more wrapped lookup to the count. */
  lemma CountLivePrefix(b: Board, length: nat, width: nat, x: int, y: int, offsets: seq<(int, int)>, n: nat)
    requires IsRect(b, length, width) && 0 <= x < length && 0 <= y < width
    requires 0 < n <= |offsets|
    ensures CountLive(b, length, width, x, y, offsets[..n])
            == CountLive(b, length, width, x, y, offsets[..n - 1]) + Bit(OffsetAlive(b, length, width, x, y, offsets[n - 1]))
  {
    assert offsets[..n][..n - 1] == offsets[..n - 1];
  }

  /** Eight offsets give the sum of eight wrapped lookups. */
  lemma CountLive8(b: Board, length: nat, width: nat, x: int, y: int, offsets: seq<(int, int)>)
    requires IsRect(b, length, width) && 0 <= x < length && 0 <= y < width && |offsets| == 8
    ensures CountLive(b, length, width, x, y, offsets)
      == Bit(OffsetAlive(b, length, width, x, y, offsets[0])) + Bit(OffsetAlive(b, length, width, x, y, offsets[1]))
       + Bit(OffsetAlive(b, length, width, x, y, offsets[2])) + Bit(OffsetAlive(b, length, width, x, y, offsets[3]))
       + Bit(OffsetAlive(b, length, width, x, y, offsets[4])) + Bit(OffsetAlive(b, length, width, x, y, offsets[5]))
       + Bit(OffsetAlive(b, length, width, x, y, offsets[6])) + Bit(OffsetAlive(b, length, width, x, y, offsets[7]))
  {
    var c := seq(9, k requires 0 <= k <= 8 => CountLive(b, length, width, x, y, offsets[..k]));
    var bits := seq(8, k requires 0 <= k < 8 => Bit(OffsetAlive(b, length, width, x, y, offsets[k])));
    forall n | 0 < n <= 8
      ensures c[n] == c[n - 1] + bits[n - 1]
    {
      CountLivePrefix(b, length, width, x, y, offsets, n);
    }
    assert c[0] == 0 by { assert offsets[..0] == []; }
    assert c[8] == CountLive(b, length, width, x, y, offsets) by { assert offsets[..8] == offsets; }
    assert c[8] == bits[0] + bits[1] + bits[2] + bits[3] + bits[4] + bits[5] + bits[6] + bits[7]
      by { assert c[1] == c[0] + bits[0]; assert c[2] == c[1] + bits[1]; assert c[3] == c[2] + bits[2];
           assert c[4] == c[3] + bits[3]; assert c[5] == c[4] + bits[4]; assert c[6] == c[5] + bits[5];
           assert c[7] == c[6] + bits[6]; assert c[8] == c[7] + bits[7]; }
  }

  /** The neighbour count written out as yacgol's sum of eight lookups. */
  lemma NeighborCountSum(b: Board, length: nat, width: nat, x: int, y: int)
    requires IsRect(b, length, width) && 0 <= x < length && 0 <= y < width
    ensures NeighborCount(b, length, width, x, y)
      == Bit(OffsetAlive(b, length, width, x, y, (-1, -1))) + Bit(OffsetAlive(b, length, width, x, y, (-1, 0)))
       + Bit(OffsetAlive(b, length, width, x, y, (-1, 1))) + Bit(OffsetAlive(b, length, width, x, y, (0, 1)))
       + Bit(OffsetAlive(b, length, width, x, y, (1, 1))) + Bit(OffsetAlive(b, length, width, x, y, (1, 0)))
       + Bit(OffsetAlive(b, length, width, x, y, (1, -1))) + Bit(OffsetAlive(b, length, width, x, y, (0, -1)))
  {
    CountLive8(b, length, width, x, y, NeighborCoordinates);
  }

  /** Coordinate one step back and one step forward on an axis of length 3. */
  function Back3(c: int): int { if c == 0 then 2 else c - 1 }
  function Ahead3(c: int): int { if c == 2 then 0 else c + 1 }

  /** The eight lookups of a 3-by-3 board, with the wrap-around resolved. */
  lemma NeighborCount3(b: Board, x: int, y: int)
    requires IsRect(b, 3, 3) && 0 <= x < 3 && 0 <= y < 3
    ensures NeighborCount(b, 3, 3, x, y)
      == Bit(b[Back3(y)][Back3(x)]) + Bit(b[y][Back3(x)]) + Bit(b[Ahead3(y)][Back3(x)]) + Bit(b[Ahead3(y)][x])
       + Bit(b[Ahead3(y)][Ahead3(x)]) + Bit(b[y][Ahead3(x)]) + Bit(b[Back3(y)][Ahead3(x)]) + Bit(b[Back3(y)][x])
  {
    NeighborCountSum(b, 3, 3, x, y);
    assert Wrap(x - 1, 3) == Back3(x) && Wrap(x + 1, 3) == Ahead3(x) && Wrap(x, 3) == x;
    assert Wrap(y - 1, 3) == Back3(y) && Wrap(y + 1, 3) == Ahead3(y) && Wrap(y, 3) == y;
  }

  /** The number of live cells in row `y` of a 3-by-3 board. */
  function Row3(b: Board, y: int): nat
    requires IsRect(b, 3, 3) && 0 <= y < 3
  {
    Bit(b[y][0]) + Bit(b[y][1]) + Bit(b[y][2])
  }

  /** The number of live cells of a 3-by-3 board. */
  function Population3(b: Board): nat
    requires IsRect(b, 3, 3)
  {
    Row3(b, 0) + Row3(b, 1) + Row3(b, 2)
  }

  /** Stepping back, staying and stepping ahead visit each coordinate of an axis of length 3 once. */
  lemma AroundRow3(b: Board, x: int, y: int)
    requires IsRect(b, 3, 3) && 0 <= x < 3 && 0 <= y < 3
    ensures Bit(b[y][Back3(x)]) + Bit(b[y][x]) + Bit(b[y][Ahead3(x)]) == Row3(b, y)
    ensures Row3(b, Back3(y)) + Row3(b, y) + Row3(b, Ahead3(y)) == Population3(b)
  {
  }

  /** On a 3-by-3 torus every cell neighbours every other cell once and never itself. */
  lemma Torus3Count(b: Board, x: int, y: int)
    requires IsRect(b, 3, 3) && 0 <= x < 3 && 0 <= y < 3
    ensures NeighborCount(b, 3, 3, x, y) == Population3(b) - Bit(b[y][x])
  {
    NeighborCount3(b, x, y);
    AroundRow3(b, x, Back3(y));
    AroundRow3(b, x, y);
    AroundRow3(b, x, Ahead3(y));
  }

  /** Wrap-around on both axes: a lone live cell at (0, 0) is a neighbour of all eight other cells. */
  lemma LoneCellSeenEverywhere3()
    ensures var b := [[true, false, false], [false, false, false], [false, false, false]];
      forall x, y :: 0 <= x < 3 && 0 <= y < 3 ==>
        NeighborCount(b, 3, 3, x, y) == (if x == 0 && y == 0 then 0 else 1)
  {
    var b := [[true, false, false], [false, false, false], [false, false, false]];
    forall x, y | 0 <= x < 3 && 0 <= y < 3
      ensures NeighborCount(b, 3, 3, x, y) == (if x == 0 && y == 0 then 0 else 1)
    {
      Torus3Count(b, x, y);
    }
  }

  /** The next state of cell (x, y) of a 3-by-3 torus, from its own state and the population alone. */
  function Next3(b: Board, x: int, y: int): bool
    requires IsRect(b, 3, 3) && 0 <= x < 3 && 0 <= y < 3
  {
    NextAlive(b[y][x], Population3(b) - Bit(b[y][x]))
  }

  /** On a 3-by-3 torus a cell's next state depends on its own state and the population of the board. */
  lemma Step3At(b: Board, x: int, y: int)
    requires IsRect(b, 3, 3) && 0 <= x < 3 && 0 <= y < 3
    ensures Step(b, 3, 3)[y][x] == Next3(b, x, y)
  {
    StepAt(b, 3, 3, x, y);
    Torus3Count(b, x, y);
  }

  /** The vertical blinker: the middle column alive. */
  function VerticalBlinker3(): (b: Board)
    ensures IsRect(b, 3, 3)
  {
    [[false, true, false], [false, true, false], [false, true, false]]
  }

  /** Every cell of the 3-by-3 board alive. */
  function Full3(): (b: Board)
    ensures IsRect(b, 3, 3)
  {
    [[true, true, true], [true, true, true], [true, true, true]]
  }

  lemma Blinker3Cell(b: Board, x: int, y: int)
    requires b == VerticalBlinker3() && 0 <= x < 3 && 0 <= y < 3
    ensures Next3(b, x, y)
  {
    assert Population3(b) == 3;
  }

  /**
   * A vertical blinker on a 3-by-3 torus does not turn horizontal: every dead
   * cell sees all three live cells and every live cell sees the other two, so
   * the whole board comes alive.
   */
  lemma Blinker3Fills()
    ensures Step(VerticalBlinker3(), 3, 3) == Full3()
  {
    var s := Step(VerticalBlinker3(), 3, 3);
    forall y, x | 0 <= y < 3 && 0 <= x < 3
      ensures s[y][x]
    {
      Blinker3Cell(VerticalBlinker3(), x, y);
      Step3At(VerticalBlinker3(), x, y);
    }
    assert s[0] == [true, true, true];
    assert s[1] == [true, true, true];
    assert s[2] == [true, true, true];
  }

  lemma Full3Cell(b: Board, x: int, y: int)
    requires b == Full3() && 0 <= x < 3 && 0 <= y < 3
    ensures !Next3(b, x, y)
  {
    assert Population3(b) == 9;
  }

  /** A full 3-by-3 torus dies of over-population in one step. */
  lemma Full3Dies()
    ensures Step(Full3(), 3, 3) == Dead(3, 3)
  {
    var s := Step(Full3(), 3, 3);
    forall y, x | 0 <= y < 3 && 0 <= x < 3
      ensures !s[y][x]
    {
      Full3Cell(Full3(), x, y);
      Step3At(Full3(), x, y);
    }
    assert s[0] == Dead(3, 3)[0];
    assert s[1] == Dead(3, 3)[1];
    assert s[2] == Dead(3, 3)[2];
  }
}
