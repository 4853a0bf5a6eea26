/** The single authority on which coordinates lie on the 10x10 board. */
module Coordinates {
  import opened Types

  const BoardSize: int := 10

  predicate IsPositionValid(row: int, col: int)
  {
    row >= 0 && row < BoardSize && col >= 0 && col < BoardSize
  }

  predicate InBounds(p: Position)
  {
    IsPositionValid(p.row, p.col)
  }

  /** No position occurs twice. */
  predicate Distinct(cells: seq<Position>)
  {
    forall i, j :: 0 <= i < j < |cells| ==> cells[i] != cells[j]
  }

  /** Corners and the centre are valid; anything negative or >= 10 is not. */
  lemma PositionValidityExamples()
    ensures IsPositionValid(0, 0) && IsPositionValid(5, 5) && IsPositionValid(9, 9)
    ensures !IsPositionValid(-1, 5) && !IsPositionValid(5, -1)
    ensures !IsPositionValid(10, 5) && !IsPositionValid(5, 10) && !IsPositionValid(10, 10)
  {
  }
}
