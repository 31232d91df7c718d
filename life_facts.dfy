/** Properties of the value-level rule in module Life. */
module LifeFacts {
  import opened Life

  /**
   * A lookup whose target lies inside the board reads that cell; a target one
   * past an edge reads the cell at the opposite edge.
   */
  lemma OffsetAliveReads(b: Board, length: nat, width: nat, x: int, y: int, o: (int, int))
    requires IsRect(b, length, width) && 0 <= x < length && 0 <= y < width
    ensures 0 <= x + o.0 < length && 0 <= y + o.1 < width ==> (OffsetAlive(b, length, width, x, y, o) <==> b[y + o.1][x + o.0])
    ensures x + o.0 == -1 && 0 <= y + o.1 < width ==> (OffsetAlive(b, length, width, x, y, o) <==> b[y + o.1][length - 1])
    ensures x + o.0 == length && 0 <= y + o.1 < width ==> (OffsetAlive(b, length, width, x, y, o) <==> b[y + o.1][0])
    ensures 0 <= x + o.0 < length && y + o.1 == -1 ==> (OffsetAlive(b, length, width, x, y, o) <==> b[width - 1][x + o.0])
    ensures 0 <= x + o.0 < length && y + o.1 == width ==> (OffsetAlive(b, length, width, x, y, o) <==> b[0][x + o.0])
  {
  }

  /** The indices among the first `n` offsets whose wrapped cell is alive. */
  ghost function LiveOffsets(b: Board, length: nat, width: nat, x: int, y: int, offsets: seq<(int, int)>, n: nat): set<nat>
    requires IsRect(b, length, width) && 0 <= x < length && 0 <= y < width && n <= |offsets|
  {
    set k: nat | k < n && OffsetAlive(b, length, width, x, y, offsets[k])
  }

  /** Taking one more offset adds its index exactly when its cell is alive. */
  lemma LiveOffsetsNext(b: Board, length: nat, width: nat, x: int, y: int, offsets: seq<(int, int)>, n: nat)
    requires IsRect(b, length, width) && 0 <= x < length && 0 <= y < width && n < |offsets|
    ensures |LiveOffsets(b, length, width, x, y, offsets, n + 1)|
            == |LiveOffsets(b, length, width, x, y, offsets, n)|
               + Bit(OffsetAlive(b, length, width, x, y, offsets[n]))
  {
    var s := LiveOffsets(b, length, width, x, y, offsets, n);
    var t := LiveOffsets(b, length, width, x, y, offsets, n + 1);
    var added := if OffsetAlive(b, length, width, x, y, offsets[n]) then {n} else {};
    forall k | k in t
      ensures k in s + added
    {
    }
    assert t == s + added;
  }

  /** The live offsets of a prefix are those of the whole sequence below the cut. */
  lemma LiveOffsetsPrefix(b: Board, length: nat, width: nat, x: int, y: int, offsets: seq<(int, int)>, n: nat)
    requires IsRect(b, length, width) && 0 <= x < length && 0 <= y < width && n <= |offsets|
    ensures LiveOffsets(b, length, width, x, y, offsets[..n], n) == LiveOffsets(b, length, width, x, y, offsets, n)
  {
  }

  /**
   * The count is the number of offsets whose wrapped cell is alive: offsets
   * that reach the same cell are not merged.
   */
  lemma {:induction false} CountLiveIsLiveOffsets(b: Board, length: nat, width: nat, x: int, y: int, offsets: seq<(int, int)>)
    requires IsRect(b, length, width) && 0 <= x < length && 0 <= y < width
    ensures CountLive(b, length, width, x, y, offsets) == |LiveOffsets(b, length, width, x, y, offsets, |offsets|)|
    decreases |offsets|
  {
    if offsets != [] {
      var n := |offsets| - 1;
      CountLiveIsLiveOffsets(b, length, width, x, y, offsets[..n]);
      LiveOffsetsPrefix(b, length, width, x, y, offsets, n);
      LiveOffsetsNext(b, length, width, x, y, offsets, n);
    }
  }

  /** neighbor_count(x, y) is the number of the eight offsets whose wrapped cell is alive. */
  lemma NeighborCountIsLiveNeighbors(b: Board, length: nat, width: nat, x: int, y: int)
    requires IsRect(b, length, width) && 0 <= x < length && 0 <= y < width
    ensures NeighborCount(b, length, width, x, y) == |LiveOffsets(b, length, width, x, y, NeighborCoordinates, 8)|
    ensures NeighborCount(b, length, width, x, y) == 0
            <==> forall k :: 0 <= k < 8 ==> !OffsetAlive(b, length, width, x, y, NeighborCoordinates[k])
  {
    CountLiveIsLiveOffsets(b, length, width, x, y, NeighborCoordinates);
    var live := LiveOffsets(b, length, width, x, y, NeighborCoordinates, 8);
    if k :| 0 <= k < 8 && OffsetAlive(b, length, width, x, y, NeighborCoordinates[k]) {
      assert k in live;
    }
  }

  /** Two boards that agree on every cell the offsets reach give the same count. */
  lemma {:induction false} CountLiveLocal(b1: Board, b2: Board, length: nat, width: nat, x: int, y: int, offsets: seq<(int, int)>)
    requires IsRect(b1, length, width) && IsRect(b2, length, width)
    requires 0 <= x < length && 0 <= y < width
    requires forall k :: 0 <= k < |offsets| ==>
               OffsetAlive(b1, length, width, x, y, offsets[k]) == OffsetAlive(b2, length, width, x, y, offsets[k])
    ensures CountLive(b1, length, width, x, y, offsets) == CountLive(b2, length, width, x, y, offsets)
    decreases |offsets|
  {
    if offsets != [] {
      var n := |offsets| - 1;
      assert OffsetAlive(b1, length, width, x, y, offsets[n]) == OffsetAlive(b2, length, width, x, y, offsets[n]);
      CountLiveLocal(b1, b2, length, width, x, y, offsets[..n]);
    }
  }

  /**
   * A cell's next state depends only on its own state and the cells its eight
   * offsets reach in the board before the step.
   */
  lemma StepIsLocal(b1: Board, b2: Board, length: nat, width: nat, x: int, y: int)
    requires IsRect(b1, length, width) && IsRect(b2, length, width)
    requires 0 <= x < length && 0 <= y < width
    requires b1[y][x] == b2[y][x]
    requires forall k :: 0 <= k < 8 ==>
               OffsetAlive(b1, length, width, x, y, NeighborCoordinates[k])
               == OffsetAlive(b2, length, width, x, y, NeighborCoordinates[k])
    ensures Step(b1, length, width)[y][x] == Step(b2, length, width)[y][x]
  {
    CountLiveLocal(b1, b2, length, width, x, y, NeighborCoordinates);
  }

  /** Cell (x, y) of the next generation, read off the definition of Step. */
  lemma StepAt(b: Board, length: nat, width: nat, x: int, y: int)
    requires IsRect(b, length, width) && 0 <= x < length && 0 <= y < width
    ensures Step(b, length, width)[y][x] == NextAlive(b[y][x], NeighborCount(b, length, width, x, y))
  {
  }

  /** The four branches of the rule, each stated against the count before the step. */
  lemma StepRule(b: Board, length: nat, width: nat, x: int, y: int)
    requires IsRect(b, length, width) && 0 <= x < length && 0 <= y < width
    ensures var n, after := NeighborCount(b, length, width, x, y), Step(b, length, width)[y][x];
      && (b[y][x] && n < UnderPopulationCount ==> !after)
      && (b[y][x] && n > OverPopulationCount ==> !after)
      && (!b[y][x] && n == ReproductionCount ==> after)
      && (b[y][x] && UnderPopulationCount <= n <= OverPopulationCount ==> after)
      && (!b[y][x] && n != ReproductionCount ==> !after)
  {
    StepAt(b, length, width, x, y);
  }

  /** With the thresholds 2/3/3 the rule is the classic B3/S23. */
  lemma RuleIsB3S23(alive: bool, count: int)
    ensures NextAlive(alive, count) <==> count == 3 || (alive && count == 2)
  {
  }

  /** On an all-dead board every offset count is zero. */
  lemma {:induction false} CountLiveDead(length: nat, width: nat, x: int, y: int, offsets: seq<(int, int)>)
    requires 0 <= x < length && 0 <= y < width
    ensures CountLive(Dead(length, width), length, width, x, y, offsets) == 0
    decreases |offsets|
  {
    if offsets != [] {
      CountLiveDead(length, width, x, y, offsets[..|offsets| - 1]);
    }
  }

  /** No spontaneous generation: an all-dead board stays all-dead. */
  lemma StepDead(length: nat, width: nat)
    ensures Step(Dead(length, width), length, width) == Dead(length, width)
  {
    var d := Dead(length, width);
    var s := Step(d, length, width);
    forall y | 0 <= y < width
      ensures s[y] == d[y]
    {
      forall x | 0 <= x < length
        ensures s[y][x] == d[y][x]
      {
        CountLiveDead(length, width, x, y, NeighborCoordinates);
      }
    }
  }

  /** Flipping the same cell twice restores the board. */
  lemma FlipTwice(b: Board, length: nat, width: nat, x: int, y: int)
    requires IsRect(b, length, width) && 0 <= x < length && 0 <= y < width
    ensures Flipped(Flipped(b, length, width, x, y), length, width, x, y) == b
  {
    var r := Flipped(Flipped(b, length, width, x, y), length, width, x, y);
    forall yy | 0 <= yy < width
      ensures r[yy] == b[yy]
    {
    }
  }

  /** When every offset reaches a live cell, each of them counts. */
  lemma {:induction false} CountLiveAllAlive(b: Board, length: nat, width: nat, x: int, y: int, offsets: seq<(int, int)>)
    requires IsRect(b, length, width) && 0 <= x < length && 0 <= y < width
    requires forall k :: 0 <= k < |offsets| ==> OffsetAlive(b, length, width, x, y, offsets[k])
    ensures CountLive(b, length, width, x, y, offsets) == |offsets|
    decreases |offsets|
  {
    if offsets != [] {
      var n := |offsets| - 1;
      assert OffsetAlive(b, length, width, x, y, offsets[n]);
      CountLiveAllAlive(b, length, width, x, y, offsets[..n]);
    }
  }

  /**
   * On a 1-by-1 board all eight offsets wrap onto the cell itself, so a live
   * cell counts itself eight times and dies of over-population.
   */
  lemma LoneCellCountsItself()
    ensures NeighborCount([[true]], 1, 1, 0, 0) == 8
    ensures Step([[true]], 1, 1) == [[false]]
  {
    CountLiveAllAlive([[true]], 1, 1, 0, 0, NeighborCoordinates);
    assert Step([[true]], 1, 1)[0] == [false];
  }
}
