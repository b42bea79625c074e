/** The 5x5 frame buffer of `u8` pixels and Conway's rule on a torus:
    `done` and `life` of src/main.rs. */
module GameOfLife {

  /** An unsigned byte: a pixel of the frame buffer, a random byte or a serial byte. */
  newtype u8 = x: int | 0 <= x < 256

  /** Side of the board; rows and columns wrap around modulo Size. */
  const Size := 5

  type Index = i: int | 0 <= i < Size

  predicate IsGrid(g: seq<seq<u8>>) {
    |g| == Size && forall r :: 0 <= r < Size ==> |g[r]| == Size
  }

  /** The value of a `[[u8; 5]; 5]` frame buffer. */
  type Grid = g: seq<seq<u8>> | IsGrid(g)
    witness [[0, 0, 0, 0, 0], [0, 0, 0, 0, 0], [0, 0, 0, 0, 0], [0, 0, 0, 0, 0], [0, 0, 0, 0, 0]]

  /** The invariant the program keeps of its world: every pixel is 0 or 1. */
  predicate Binary(g: Grid) {
    forall r, c :: 0 <= r < Size && 0 <= c < Size ==> g[r][c] == 0 || g[r][c] == 1
  }

  /** The all-zero board. */
  const Empty: Grid := [[0, 0, 0, 0, 0], [0, 0, 0, 0, 0], [0, 0, 0, 0, 0], [0, 0, 0, 0, 0], [0, 0, 0, 0, 0]]

  /** Two grids that agree pixel by pixel are equal. */
  lemma GridsEqual(g: Grid, h: Grid)
    requires forall r, c :: 0 <= r < Size && 0 <= c < Size ==> g[r][c] == h[r][c]
    ensures g == h
  {
    forall r | 0 <= r < Size ensures g[r] == h[r] {
    }
  }

  /** The value held by a 5x5 array: the copy `life` takes before it writes. */
  function Snapshot(a: array2<u8>): (g: Grid)
    requires a.Length0 == Size && a.Length1 == Size
    reads a
    ensures forall r, c :: 0 <= r < Size && 0 <= c < Size ==> g[r][c] == a[r, c]
  {
    seq(Size, r requires 0 <= r < Size reads a => seq(Size, c requires 0 <= c < Size reads a => a[r, c]))
  }

  /** A board is the all-zero board exactly when every pixel is 0. */
  lemma AllZeroIffEmpty(fb: Grid)
    ensures (forall i, j :: 0 <= i < Size && 0 <= j < Size ==> fb[i][j] == 0) <==> fb == Empty
  {
    if forall i, j :: 0 <= i < Size && 0 <= j < Size ==> fb[i][j] == 0 {
      GridsEqual(fb, Empty);
    }
  }

  /** `done`: the frame buffer equals the all-zero buffer. */
  function Done(fb: Grid): (r: bool)
    ensures r <==> forall i, j :: 0 <= i < Size && 0 <= j < Size ==> fb[i][j] == 0
  {
    AllZeroIffEmpty(fb);
    fb == Empty
  }

  // ----- population: the sum of all pixels -----

  function RowSum(row: seq<u8>): int {
    if row == [] then 0 else RowSum(row[..|row| - 1]) + row[|row| - 1] as int
  }

  function RowsSum(rows: seq<seq<u8>>): int {
    if rows == [] then 0 else RowsSum(rows[..|rows| - 1]) + RowSum(rows[|rows| - 1])
  }

  function Population(g: Grid): int {
    RowsSum(g)
  }

  lemma {:induction false} RowSumZero(row: seq<u8>)
    ensures RowSum(row) >= 0
    ensures RowSum(row) == 0 <==> forall j :: 0 <= j < |row| ==> row[j] == 0
  {
    if row != [] {
      var init := row[..|row| - 1];
      RowSumZero(init);
      assert forall j :: 0 <= j < |init| ==> init[j] == row[j];
    }
  }

  lemma {:induction false} RowsSumZero(rows: seq<seq<u8>>)
    ensures RowsSum(rows) >= 0
    ensures RowsSum(rows) == 0 <==> forall i, j :: 0 <= i < |rows| && 0 <= j < |rows[i]| ==> rows[i][j] == 0
  {
    if rows != [] {
      var init := rows[..|rows| - 1];
      RowsSumZero(init);
      RowSumZero(rows[|rows| - 1]);
      assert forall i :: 0 <= i < |init| ==> init[i] == rows[i];
    }
  }

  /** A frame buffer is done exactly when its population is zero. */
  lemma DoneIffNoPopulation(fb: Grid)
    ensures Done(fb) <==> Population(fb) == 0
  {
    RowsSumZero(fb);
  }

  // ----- the toroidal neighbourhood -----

  /** The row above, wrapping from 0 to 4 (the source adds 4 modulo 5). */
  function Prev(i: Index): Index {
    (i + 4) % Size
  }

  /** The row below, wrapping from 4 to 0. */
  function Next(i: Index): Index {
    (i + 1) % Size
  }

  /** The eight neighbour coordinates of `(row, col)`, in the order `life` lists them. */
  function NeighbourCoords(row: Index, col: Index): seq<(Index, Index)> {
    var pr, nr, pc, nc := Prev(row), Next(row), Prev(col), Next(col);
    [(pr, pc), (pr, col), (pr, nc), (row, pc), (row, nc), (nr, pc), (nr, col), (nr, nc)]
  }

  /** Distance 1 on the torus, in the plain modular-arithmetic sense. */
  predicate Adjacent(a: Index, b: Index) {
    (a - b) % Size == 1 || (b - a) % Size == 1
  }

  /** The coordinates `life` sums are exactly the eight cells around `(row, col)` on the torus:
      each differs from `(row, col)` by at most one step (mod 5) in each axis, none is the cell
      itself, and no cell is counted twice. */
  lemma NeighbourCoordsAreTheMooreNeighbourhood(row: Index, col: Index)
    ensures var cs := NeighbourCoords(row, col);
      |cs| == 8
      && (forall k :: 0 <= k < 8 ==> cs[k] != (row, col))
      && (forall k :: 0 <= k < 8 ==> (cs[k].0 == row || Adjacent(cs[k].0, row)) && (cs[k].1 == col || Adjacent(cs[k].1, col)))
      && (forall k, l :: 0 <= k < l < 8 ==> cs[k] != cs[l])
  {
    StepsApart(row);
    StepsApart(col);
  }

  /** One step back and one step forward on a ring of 5 land on two different cells, both
      adjacent to the start and neither equal to it. */
  lemma StepsApart(i: Index)
    ensures Prev(i) != i && Next(i) != i && Prev(i) != Next(i)
    ensures Adjacent(Prev(i), i) && Adjacent(Next(i), i)
  {
  }

  function SumAt(g: Grid, cs: seq<(Index, Index)>): int {
    if cs == [] then 0 else SumAt(g, cs[..|cs| - 1]) + g[cs[|cs| - 1].0][cs[|cs| - 1].1] as int
  }

  /** The neighbour count `life` computes: the sum of the snapshot over the eight coordinates. */
  function Neighbours(g: Grid, row: Index, col: Index): int {
    SumAt(g, NeighbourCoords(row, col))
  }

  lemma SumAtPrefix(g: Grid, cs: seq<(Index, Index)>, k: nat)
    requires 0 < k <= |cs|
    ensures SumAt(g, cs[..k]) == SumAt(g, cs[..k - 1]) + g[cs[k - 1].0][cs[k - 1].1] as int
  {
    assert cs[..k][..k - 1] == cs[..k - 1];
  }

  /** The neighbour count is the sum of the eight cells at `((row ± 1) mod 5, (col ± 1) mod 5)`
      other than `(row, col)` itself. */
  lemma NeighboursAreTheWrappedSum(g: Grid, row: Index, col: Index)
    ensures var up, down, left, right := (row - 1) % Size, (row + 1) % Size, (col - 1) % Size, (col + 1) % Size;
      Neighbours(g, row, col) ==
        g[up][left] as int + g[up][col] as int + g[up][right] as int
        + g[row][left] as int + g[row][right] as int
        + g[down][left] as int + g[down][col] as int + g[down][right] as int
  {
    var cs := NeighbourCoords(row, col);
    assert cs[..8] == cs;
    SumAtPrefix(g, cs, 8);
    SumAtPrefix(g, cs, 7);
    SumAtPrefix(g, cs, 6);
    SumAtPrefix(g, cs, 5);
    SumAtPrefix(g, cs, 4);
    SumAtPrefix(g, cs, 3);
    SumAtPrefix(g, cs, 2);
    SumAtPrefix(g, cs, 1);
    assert cs[..0] == [];
  }

  lemma {:induction false} SumAtBinary(g: Grid, cs: seq<(Index, Index)>)
    requires Binary(g)
    ensures 0 <= SumAt(g, cs) <= |cs|
  {
    if cs != [] {
      SumAtBinary(g, cs[..|cs| - 1]);
    }
  }

  /** On a 0/1 board a cell has between 0 and 8 live neighbours. */
  lemma NeighboursRange(g: Grid, row: Index, col: Index)
    requires Binary(g)
    ensures 0 <= Neighbours(g, row, col) <= 8
  {
    SumAtBinary(g, NeighbourCoords(row, col));
  }

  // ----- one generation -----

  /** The match in `life`: a live pixel (1) with fewer than 2 or more than 3 neighbours dies,
      a dead pixel (0) with exactly 3 is born, any other pixel keeps its value. */
  function NextCell(prev: Grid, row: Index, col: Index): u8 {
    var n := Neighbours(prev, row, col);
    if prev[row][col] == 1 && (n < 2 || n > 3) then 0
    else if prev[row][col] == 0 && n == 3 then 1
    else prev[row][col]
  }

  /** The board `life` leaves behind: every pixel computed from the snapshot alone. */
  function Successor(prev: Grid): Grid {
    seq(Size, r requires 0 <= r < Size => seq(Size, c requires 0 <= c < Size => NextCell(prev, r, c)))
  }

  /** On a 0/1 board the rule is Conway's B3/S23: a cell is alive in the next generation exactly
      when it has three live neighbours, or is alive and has two; otherwise it is dead. */
  lemma SuccessorIsB3S23(prev: Grid, row: Index, col: Index)
    requires Binary(prev)
    ensures var n := Neighbours(prev, row, col);
      (Successor(prev)[row][col] == 1 <==> n == 3 || (prev[row][col] == 1 && n == 2))
      && (Successor(prev)[row][col] == 0 <==> !(n == 3 || (prev[row][col] == 1 && n == 2)))
  {
  }

  /** A generation keeps every pixel in {0, 1}. */
  lemma SuccessorBinary(prev: Grid)
    requires Binary(prev)
    ensures Binary(Successor(prev))
  {
  }

  /** The empty board stays empty, so `done` stays true. */
  lemma SuccessorOfDone(prev: Grid)
    requires Done(prev)
    ensures Successor(prev) == Empty && Done(Successor(prev))
  {
    forall r, c | 0 <= r < Size && 0 <= c < Size
      ensures Successor(prev)[r][c] == 0
    {
      assert SumAt(prev, NeighbourCoords(r, c)) == 0 by {
        ZeroSum(prev, NeighbourCoords(r, c));
      }
    }
    GridsEqual(Successor(prev), Empty);
  }

  lemma {:induction false} ZeroSum(g: Grid, cs: seq<(Index, Index)>)
    requires Done(g)
    ensures SumAt(g, cs) == 0
  {
    if cs != [] {
      ZeroSum(g, cs[..|cs| - 1]);
    }
  }

  /** `life`: computes every new pixel from a snapshot of the buffer and writes it into the live
      buffer, in place. */
  method Life(fb: array2<u8>)
    requires fb.Length0 == Size && fb.Length1 == Size
    modifies fb
    ensures Snapshot(fb) == Successor(old(Snapshot(fb)))
  {
    var prev := Snapshot(fb);
    for row := 0 to Size
      invariant forall r, c :: 0 <= r < row && 0 <= c < Size ==> fb[r, c] == NextCell(prev, r, c)
      invariant forall r, c :: row <= r < Size && 0 <= c < Size ==> fb[r, c] == prev[r][c]
    {
      for col := 0 to Size
        invariant forall r, c :: 0 <= r < row && 0 <= c < Size ==> fb[r, c] == NextCell(prev, r, c)
        invariant forall c :: 0 <= c < col ==> fb[row, c] == NextCell(prev, row, c)
        invariant forall r, c :: row <= r < Size && 0 <= c < Size && (r > row || c >= col) ==> fb[r, c] == prev[r][c]
      {
        var neighbours := Neighbours(prev, row, col);
        if prev[row][col] == 1 && (neighbours < 2 || neighbours > 3) {
          fb[row, col] := 0;
        } else if prev[row][col] == 0 && neighbours == 3 {
          fb[row, col] := 1;
        }
      }
    }
    GridsEqual(Snapshot(fb), Successor(prev));
  }
}
