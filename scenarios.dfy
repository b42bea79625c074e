/** Concrete boards through one `life` generation (src/main.rs), on the 5x5 torus. */
module Scenarios {
  import opened GameOfLife

  const AllOnes: Grid := [[1, 1, 1, 1, 1], [1, 1, 1, 1, 1], [1, 1, 1, 1, 1], [1, 1, 1, 1, 1], [1, 1, 1, 1, 1]]

  const BlinkerHorizontal: Grid := [[0, 0, 0, 0, 0], [0, 0, 0, 0, 0], [0, 1, 1, 1, 0], [0, 0, 0, 0, 0], [0, 0, 0, 0, 0]]
  const BlinkerVertical: Grid := [[0, 0, 0, 0, 0], [0, 0, 1, 0, 0], [0, 0, 1, 0, 0], [0, 0, 1, 0, 0], [0, 0, 0, 0, 0]]

  const Block: Grid := [[0, 0, 0, 0, 0], [0, 1, 1, 0, 0], [0, 1, 1, 0, 0], [0, 0, 0, 0, 0], [0, 0, 0, 0, 0]]

  /** Live cells at (4, 4), (4, 0) and (0, 4): each is a neighbour of (0, 0) only through the wrap. */
  const CornerWrap: Grid := [[0, 0, 0, 0, 1], [0, 0, 0, 0, 0], [0, 0, 0, 0, 0], [0, 0, 0, 0, 0], [1, 0, 0, 0, 1]]

  /** On a full 5x5 torus every cell has eight live neighbours, so the whole board dies. */
  lemma FullBoardDies()
    ensures Successor(AllOnes) == Empty
  {
    forall r, c | 0 <= r < Size && 0 <= c < Size
      ensures Successor(AllOnes)[r][c] == 0
    {
      NeighboursAreTheWrappedSum(AllOnes, r, c);
    }
    GridsEqual(Successor(AllOnes), Empty);
  }

  /** A horizontal blinker turns vertical ... */
  lemma BlinkerTurnsVertical()
    ensures Successor(BlinkerHorizontal) == BlinkerVertical
  {
    forall r, c | 0 <= r < Size && 0 <= c < Size
      ensures Successor(BlinkerHorizontal)[r][c] == BlinkerVertical[r][c]
    {
      NeighboursAreTheWrappedSum(BlinkerHorizontal, r, c);
    }
    GridsEqual(Successor(BlinkerHorizontal), BlinkerVertical);
  }

  /** ... and back. */
  lemma BlinkerTurnsHorizontal()
    ensures Successor(BlinkerVertical) == BlinkerHorizontal
  {
    forall r, c | 0 <= r < Size && 0 <= c < Size
      ensures Successor(BlinkerVertical)[r][c] == BlinkerHorizontal[r][c]
    {
      NeighboursAreTheWrappedSum(BlinkerVertical, r, c);
    }
    GridsEqual(Successor(BlinkerVertical), BlinkerHorizontal);
  }

  /** A 2x2 block is a still life. */
  lemma BlockIsStill()
    ensures Successor(Block) == Block
  {
    forall r, c | 0 <= r < Size && 0 <= c < Size
      ensures Successor(Block)[r][c] == Block[r][c]
    {
      NeighboursAreTheWrappedSum(Block, r, c);
    }
    GridsEqual(Successor(Block), Block);
  }

  /** Cell (0, 0) counts (4, 4), (4, 0) and (0, 4) as neighbours through the wrap, so it is born. */
  lemma CornerBornThroughWrap()
    ensures Neighbours(CornerWrap, 0, 0) == 3
    ensures Successor(CornerWrap)[0][0] == 1
  {
    NeighboursAreTheWrappedSum(CornerWrap, 0, 0);
  }
}
