/** The Game of Life engine: the B3/S23 cell rule, the in-world bounds test,
    the bounded Moore-neighbour count and the double-buffered generation step
    over a fixed 32 by 32 world. The world is indexed world[y][x]: y is the
    row, x the column, and there is no wrap-around at the edges. */
module Engine {

  /** Side length of the square world. */
  const N: nat := 32

  /** Side length, in pixels, of one cell on screen. */
  const CellSize: nat := 25

  /** A world as a value: g[y][x] is the cell in row y and column x. */
  type Grid = seq<seq<bool>>

  predicate IsGrid(g: Grid) {
    |g| == N && forall y :: 0 <= y < N ==> |g[y]| == N
  }

  /** A world held in memory, as the simulator mutates it. */
  predicate IsWorld(w: array2<bool>) {
    w.Length0 == N && w.Length1 == N
  }

  /** The value held by an array world. */
  ghost function Snapshot(w: array2<bool>): (g: Grid)
    reads w
    ensures |g| == w.Length0 && forall y :: 0 <= y < w.Length0 ==> |g[y]| == w.Length1
    ensures forall y, x :: 0 <= y < w.Length0 && 0 <= x < w.Length1 ==> g[y][x] == w[y, x]
  {
    seq(w.Length0, y requires 0 <= y < w.Length0 reads w =>
      seq(w.Length1, x requires 0 <= x < w.Length1 reads w => w[y, x]))
  }

  /** Two worlds that agree on every cell are the same world. */
  lemma GridsEqual(a: Grid, b: Grid)
    requires IsGrid(a) && IsGrid(b)
    requires forall y, x :: 0 <= y < N && 0 <= x < N ==> a[y][x] == b[y][x]
    ensures a == b
  {
    forall y | 0 <= y < N ensures a[y] == b[y] {
      assert forall x :: 0 <= x < N ==> a[y][x] == b[y][x];
    }
  }

  /** The world with every cell dead. */
  function Dead(): (g: Grid)
    ensures IsGrid(g)
  {
    seq(N, _ => seq(N, _ => false))
  }

  // ---------------------------------------------------------------- the rule

  /** Neighbour counts with which a live cell survives, and with which a dead
      cell comes alive (the rule B3/S23). */
  const SurviveCounts: set<nat> := {2, 3}
  const BirthCounts: set<nat> := {3}

  /** The state of a cell in the next generation, from its current state and
      the number of its live neighbours. */
  function NextCell(alive: bool, count: nat): (next: bool)
    ensures next <==> count in (if alive then SurviveCounts else BirthCounts)
  {
    if alive then count == 2 || count == 3 else count == 3
  }

  /** Only counts 2 and 3 ever yield a live cell, and 3 always does. */
  lemma NextCellOnlyTwoOrThree(alive: bool, count: nat)
    ensures NextCell(alive, count) ==> count == 2 || count == 3
    ensures count == 3 ==> NextCell(alive, count)
    ensures count == 2 ==> (NextCell(alive, count) <==> alive)
  {
  }

  // ------------------------------------------------------ bounds and counting

  /** The in-world test applied to a position before it is read. */
  predicate BoundCheck(x: int, y: int, length: nat) {
    0 <= x < length && 0 <= y < length
  }

  /** The eight Moore offsets (dx, dy), in the order the neighbours are inspected. */
  const Offsets: seq<(int, int)> :=
    [(-1, -1), (-1, 0), (-1, 1), (0, -1), (0, 1), (1, -1), (1, 0), (1, 1)]

  /** 1 when (x, y) lies in the world and its cell is alive, 0 otherwise. */
  function Alive(g: Grid, x: int, y: int): nat
    requires IsGrid(g)
  {
    if BoundCheck(x, y, N) && g[y][x] then 1 else 0
  }

  /** The live cells of the Moore neighbourhood of (x, y) that lie in the
      world, the centre excluded. */
  function AliveNeighbours(g: Grid, x: int, y: int): set<(int, int)>
    requires IsGrid(g)
  {
    set c, r | x - 1 <= c <= x + 1 && y - 1 <= r <= y + 1 && (c, r) != (x, y)
                && BoundCheck(c, r, N) && g[r][c] :: (c, r)
  }

  /** The number of live neighbours of (x, y); a neighbour outside the world
      does not count, and there is no wrap-around. */
  function Count(g: Grid, x: int, y: int): (n: nat)
    requires IsGrid(g)
    ensures n <= 8
  {
    CountIsOffsetSum(g, x, y);
    |AliveNeighbours(g, x, y)|
  }

  /** The sum, over Offsets[i..], of 1 for each neighbour that is in the
      world and alive: the guarded lookups, one offset at a time. */
  function SumFrom(g: Grid, x: int, y: int, i: nat): (n: nat)
    requires IsGrid(g) && i <= |Offsets|
    ensures n <= |Offsets| - i
    decreases |Offsets| - i
  {
    if i == |Offsets| then 0
    else Alive(g, x + Offsets[i].0, y + Offsets[i].1) + SumFrom(g, x, y, i + 1)
  }

  /** The neighbour of (x, y) at offset number k. */
  function Neighbour(x: int, y: int, k: nat): (int, int)
    requires k < |Offsets|
  {
    (x + Offsets[k].0, y + Offsets[k].1)
  }

  /** For a centre inside the world, the bounds test turns a neighbour away
      exactly when it lies one step beyond an edge: there is no wrap-around,
      and every neighbour it lets through can be read. */
  lemma BoundCheckAtEdge(x: int, y: int, k: nat)
    requires BoundCheck(x, y, N) && k < |Offsets|
    ensures !BoundCheck(Neighbour(x, y, k).0, Neighbour(x, y, k).1, N) <==>
      Neighbour(x, y, k).0 in {-1, N as int} || Neighbour(x, y, k).1 in {-1, N as int}
  {
    assert -1 <= Offsets[k].0 <= 1 && -1 <= Offsets[k].1 <= 1;
  }

  /** The live in-world positions reached through Offsets[i..]. */
  ghost function AliveFrom(g: Grid, x: int, y: int, i: nat): set<(int, int)>
    requires IsGrid(g) && i <= |Offsets|
  {
    set k | i <= k < |Offsets| && Alive(g, Neighbour(x, y, k).0, Neighbour(x, y, k).1) == 1 :: Neighbour(x, y, k)
  }

  /** The offset (dx, dy) determines its position in Offsets. */
  lemma OffsetsDistinct(j: nat, k: nat)
    requires j < |Offsets| && k < |Offsets| && Offsets[j] == Offsets[k]
    ensures j == k
  {
    assert j in {0, 1, 2, 3, 4, 5, 6, 7} && k in {0, 1, 2, 3, 4, 5, 6, 7};
  }

  /** AliveFrom(i) is the i-th neighbour, when it is alive, and AliveFrom(i + 1). */
  lemma AliveFromSplit(g: Grid, x: int, y: int, i: nat)
    requires IsGrid(g) && i < |Offsets|
    ensures AliveFrom(g, x, y, i) ==
      (if Alive(g, Neighbour(x, y, i).0, Neighbour(x, y, i).1) == 1 then {Neighbour(x, y, i)} else {})
      + AliveFrom(g, x, y, i + 1)
  {
    var p := Neighbour(x, y, i);
    var here := if Alive(g, p.0, p.1) == 1 then {p} else {};
    var all, rest := AliveFrom(g, x, y, i), AliveFrom(g, x, y, i + 1);
    forall q | q in all ensures q in here + rest {
      var k :| i <= k < |Offsets| && Alive(g, Neighbour(x, y, k).0, Neighbour(x, y, k).1) == 1 && q == Neighbour(x, y, k);
      if k > i { assert q in rest; }
    }
    forall q | q in here + rest ensures q in all {
      if q !in here {
        var k :| i + 1 <= k < |Offsets| && Alive(g, Neighbour(x, y, k).0, Neighbour(x, y, k).1) == 1 && q == Neighbour(x, y, k);
        assert q in all;
      }
    }
  }

  /** The i-th neighbour is not reached again through a later offset. */
  lemma NeighbourNotRepeated(g: Grid, x: int, y: int, i: nat)
    requires IsGrid(g) && i < |Offsets|
    ensures Neighbour(x, y, i) !in AliveFrom(g, x, y, i + 1)
  {
    forall k | i + 1 <= k < |Offsets| ensures Neighbour(x, y, k) != Neighbour(x, y, i) {
      if Offsets[k] == Offsets[i] { OffsetsDistinct(k, i); }
    }
  }

  lemma {:induction false} SumFromIsCardinality(g: Grid, x: int, y: int, i: nat)
    requires IsGrid(g) && i <= |Offsets|
    ensures SumFrom(g, x, y, i) == |AliveFrom(g, x, y, i)|
    decreases |Offsets| - i
  {
    if i == |Offsets| {
      assert AliveFrom(g, x, y, i) == {};
    } else {
      SumFromIsCardinality(g, x, y, i + 1);
      AliveFromSplit(g, x, y, i);
      NeighbourNotRepeated(g, x, y, i);
    }
  }

  /** Offsets reaches exactly the Moore neighbourhood. */
  lemma AliveFromIsAliveNeighbours(g: Grid, x: int, y: int)
    requires IsGrid(g)
    ensures AliveFrom(g, x, y, 0) == AliveNeighbours(g, x, y)
  {
    forall p | p in AliveNeighbours(g, x, y) ensures p in AliveFrom(g, x, y, 0) {
      var dx, dy := p.0 - x, p.1 - y;
      var k := if dx == -1 then dy + 1 else if dx == 0 then (if dy == -1 then 3 else 4) else dy + 6;
      assert Neighbour(x, y, k) == p;
    }
  }

  /** Counting the live neighbours is the same as adding up, over the eight
      offsets, 1 for each neighbour that is in the world and alive. */
  lemma CountIsOffsetSum(g: Grid, x: int, y: int)
    requires IsGrid(g)
    ensures |AliveNeighbours(g, x, y)| == SumFrom(g, x, y, 0)
  {
    SumFromIsCardinality(g, x, y, 0);
    AliveFromIsAliveNeighbours(g, x, y);
  }

  /** Count spelled out offset by offset, in the order of Offsets. */
  lemma CountUnrolled(g: Grid, x: int, y: int)
    requires IsGrid(g)
    ensures Count(g, x, y) ==
      Alive(g, x - 1, y - 1) + Alive(g, x - 1, y) + Alive(g, x - 1, y + 1) +
      Alive(g, x, y - 1) + Alive(g, x, y + 1) +
      Alive(g, x + 1, y - 1) + Alive(g, x + 1, y) + Alive(g, x + 1, y + 1)
  {
    CountIsOffsetSum(g, x, y);
  }

  /** A cell never counts itself: changing it leaves its own count alone. */
  lemma CountIgnoresSelf(g: Grid, x: int, y: int, v: bool)
    requires IsGrid(g) && BoundCheck(x, y, N)
    ensures IsGrid(g[y := g[y][x := v]])
    ensures Count(g[y := g[y][x := v]], x, y) == Count(g, x, y)
  {
    var h := g[y := g[y][x := v]];
    CountUnrolled(g, x, y);
    CountUnrolled(h, x, y);
  }

  /** A corner cell has only three neighbours inside the world. */
  lemma CountAtCorner(g: Grid, x: int, y: int)
    requires IsGrid(g) && (x == 0 || x == N - 1) && (y == 0 || y == N - 1)
    ensures Count(g, x, y) <= 3
  {
    CountUnrolled(g, x, y);
  }

  /** A cell whose in-world neighbours are all dead has count 0, whatever its own state. */
  lemma QuietNeighbourhood(g: Grid, x: int, y: int)
    requires IsGrid(g)
    requires forall c, r :: x - 1 <= c <= x + 1 && y - 1 <= r <= y + 1 && (c, r) != (x, y) && BoundCheck(c, r, N) ==> !g[r][c]
    ensures Count(g, x, y) == 0
  {
    CountUnrolled(g, x, y);
  }

  // ------------------------------------------------------------- the step

  /** The next state of cell (x, y), from g alone. */
  function StepCell(g: Grid, x: int, y: int): bool
    requires IsGrid(g) && BoundCheck(x, y, N)
  {
    NextCell(g[y][x], Count(g, x, y))
  }

  /** The next generation: every cell from its own state and its count, both
      taken from g itself. */
  function Step(g: Grid): (next: Grid)
    requires IsGrid(g)
    ensures IsGrid(next)
  {
    seq(N, y requires 0 <= y < N => seq(N, x requires 0 <= x < N => StepCell(g, x, y)))
  }

  /** The all-dead world stays all dead. */
  lemma DeadStaysDead()
    ensures Step(Dead()) == Dead()
  {
    forall y, x | 0 <= y < N && 0 <= x < N ensures Step(Dead())[y][x] == Dead()[y][x] {
      QuietNeighbourhood(Dead(), x, y);
    }
    GridsEqual(Step(Dead()), Dead());
  }

  // ------------------------------------------------------------- the methods

  /** Counts the live neighbours of (x, y) through eight guarded lookups. */
  method NeighborCount(world: array2<bool>, x: int, y: int) returns (count: nat)
    requires IsWorld(world) && BoundCheck(x, y, N)
    ensures count == Count(Snapshot(world), x, y)
  {
    ghost var g := Snapshot(world);
    // counted adds up Alive term by term; checking count against it after each
    // lookup keeps every step a small proof (without it the method as a whole
    // is more than the solver's resource budget)
    ghost var counted := 0;
    count := 0;
    if BoundCheck(x - 1, y - 1, N) {
      if world[y - 1, x - 1] { count := count + 1; }
    }
    counted := counted + Alive(g, x - 1, y - 1);
    assert count == counted;
    if BoundCheck(x - 1, y, N) {
      if world[y, x - 1] { count := count + 1; }
    }
    counted := counted + Alive(g, x - 1, y);
    assert count == counted;
    if BoundCheck(x - 1, y + 1, N) {
      if world[y + 1, x - 1] { count := count + 1; }
    }
    counted := counted + Alive(g, x - 1, y + 1);
    assert count == counted;
    if BoundCheck(x, y - 1, N) {
      if world[y - 1, x] { count := count + 1; }
    }
    counted := counted + Alive(g, x, y - 1);
    assert count == counted;
    if BoundCheck(x, y + 1, N) {
      if world[y + 1, x] { count := count + 1; }
    }
    counted := counted + Alive(g, x, y + 1);
    assert count == counted;
    if BoundCheck(x + 1, y - 1, N) {
      if world[y - 1, x + 1] { count := count + 1; }
    }
    counted := counted + Alive(g, x + 1, y - 1);
    assert count == counted;
    if BoundCheck(x + 1, y, N) {
      if world[y, x + 1] { count := count + 1; }
    }
    counted := counted + Alive(g, x + 1, y);
    assert count == counted;
    if BoundCheck(x + 1, y + 1, N) {
      if world[y + 1, x + 1] { count := count + 1; }
    }
    counted := counted + Alive(g, x + 1, y + 1);
    assert count == counted;
    CountUnrolled(g, x, y);
  }

  /** A world whose every cell follows the rule applied to g is Step(g). */
  lemma StepFromCells(g: Grid, h: Grid)
    requires IsGrid(g) && IsGrid(h)
    requires forall y, x :: 0 <= y < N && 0 <= x < N ==> h[y][x] == StepCell(g, x, y)
    ensures h == Step(g)
  {
    GridsEqual(h, Step(g));
  }

  /** The inner loop of the generation step: fills row y of the buffer from
      the unmodified world, column by column, and leaves every other row alone. */
  method NextRow(world: array2<bool>, newWorld: array2<bool>, y: int)
    requires IsWorld(world) && IsWorld(newWorld) && world != newWorld && 0 <= y < N
    modifies newWorld
    ensures forall c :: 0 <= c < N ==> newWorld[y, c] == StepCell(Snapshot(world), c, y)
    ensures forall r, c :: 0 <= r < N && 0 <= c < N && r != y ==> newWorld[r, c] == old(newWorld[r, c])
  {
    ghost var g := Snapshot(world);
    var x := 0;
    while x < N
      invariant 0 <= x <= N
      invariant forall c :: 0 <= c < x ==> newWorld[y, c] == StepCell(g, c, y)
      invariant forall r, c :: 0 <= r < N && 0 <= c < N && r != y ==> newWorld[r, c] == old(newWorld[r, c])
    {
      var n := NeighborCount(world, x, y);
      newWorld[y, x] := NextCell(world[y, x], n);
      x := x + 1;
    }
  }

  /** Advances the world one generation. Every new cell is written to a
      separate buffer and computed from the unmodified world; the buffer is
      copied back at the end. */
  method NextState(world: array2<bool>)
    requires IsWorld(world)
    modifies world
    ensures Snapshot(world) == Step(old(Snapshot(world)))
  {
    ghost var g := Snapshot(world);
    var newWorld := new bool[N, N];
    forall r, c | 0 <= r < N && 0 <= c < N {
      newWorld[r, c] := world[r, c];
    }
    var y := 0;
    while y < N
      modifies newWorld
      invariant 0 <= y <= N
      invariant forall r, c :: 0 <= r < y && 0 <= c < N ==> newWorld[r, c] == StepCell(g, c, r)
    {
      NextRow(world, newWorld, y);
      y := y + 1;
    }
    forall r, c | 0 <= r < N && 0 <= c < N {
      world[r, c] := newWorld[r, c];
    }
    forall r, c | 0 <= r < N && 0 <= c < N ensures Snapshot(world)[r][c] == StepCell(g, c, r) {
    }
    StepFromCells(g, Snapshot(world));
  }
}
