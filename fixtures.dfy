/** The world the unit tests start from (a 2 by 2 block of live cells in an
    otherwise dead world) and the facts the tests pin down, together with the
    corner and still-life properties of the rule. */
module Fixtures {
  import opened Engine

  /** The block: rows 1 and 2, columns 1 and 2. */
  predicate InBlock(x: int, y: int) {
    (y == 1 || y == 2) && (x == 1 || x == 2)
  }

  function Block(): (g: Grid)
    ensures IsGrid(g)
  {
    seq(N, y => seq(N, x => InBlock(x, y)))
  }

  /** Builds the test world: all dead, then the four block cells set alive. */
  method TestWorld() returns (world: array2<bool>)
    ensures fresh(world) && IsWorld(world) && Snapshot(world) == Block()
  {
    world := new bool[N, N]((_, _) => false);
    world[1, 1] := true;
    world[1, 2] := true;
    world[2, 1] := true;
    world[2, 2] := true;
    GridsEqual(Snapshot(world), Block());
  }

  /** The rule at the counts the tests check. */
  lemma NextCellTable()
    ensures !NextCell(true, 0) && !NextCell(true, 1)
    ensures NextCell(true, 2) && NextCell(true, 3) && !NextCell(true, 4)
    ensures NextCell(false, 3) && !NextCell(false, 1)
  {
  }

  /** The neighbour counts the tests check on the block, (x, y) = (column, row). */
  lemma BlockCounts()
    ensures Count(Block(), 0, 0) == 1
    ensures Count(Block(), 1, 1) == 3 && Count(Block(), 2, 1) == 3
    ensures Count(Block(), 1, 2) == 3 && Count(Block(), 2, 2) == 3
    ensures Count(Block(), 2, 3) == 2 && Count(Block(), 1, 3) == 2
  {
    CountUnrolled(Block(), 0, 0);
    CountUnrolled(Block(), 1, 1);
    CountUnrolled(Block(), 2, 1);
    CountUnrolled(Block(), 1, 2);
    CountUnrolled(Block(), 2, 2);
    CountUnrolled(Block(), 2, 3);
    CountUnrolled(Block(), 1, 3);
  }

  /** The block is a still life: one generation leaves it unchanged. */
  lemma BlockIsStillLife()
    ensures Step(Block()) == Block()
  {
    var g := Block();
    forall y, x | 0 <= y < N && 0 <= x < N ensures Step(g)[y][x] == g[y][x] {
      if x >= 4 || y >= 4 {
        QuietNeighbourhood(g, x, y);
      } else {
        CountUnrolled(g, x, y);
      }
    }
    GridsEqual(Step(g), g);
  }

  /** The test of the generation step: the block comes back unchanged. */
  method TestNextState() returns (world: array2<bool>)
    ensures IsWorld(world) && Snapshot(world) == Block()
  {
    world := TestWorld();
    NextState(world);
    BlockIsStillLife();
  }

  /** A world whose only live cell is the corner (0, 0). */
  function Corner(): (g: Grid)
    ensures IsGrid(g)
  {
    seq(N, y => seq(N, x => x == 0 && y == 0))
  }

  /** A lone live cell in a corner has no live neighbour and dies. */
  lemma LoneCornerCellDies()
    ensures Step(Corner()) == Dead()
  {
    var g := Corner();
    forall y, x | 0 <= y < N && 0 <= x < N ensures Step(g)[y][x] == Dead()[y][x] {
      if x >= 2 || y >= 2 {
        QuietNeighbourhood(g, x, y);
      } else {
        CountUnrolled(g, x, y);
      }
    }
    GridsEqual(Step(g), Dead());
  }
}
