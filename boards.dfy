/** The board: a 10x10 grid of cells, updated in place. `Grid` is the value
    of a board at one moment; the specifications below are stated on it. */
module Boards {
  import opened Types
  import opened Coordinates

  type Grid = seq<seq<Cell>>

  predicate IsGrid(g: Grid)
  {
    |g| == BoardSize && forall r :: 0 <= r < |g| ==> |g[r]| == BoardSize
  }

  function At(g: Grid, p: Position): Cell
    requires IsGrid(g) && InBounds(p)
  {
    g[p.row][p.col]
  }

  predicate IsBoard(b: array2<Cell>)
  {
    b.Length0 == BoardSize && b.Length1 == BoardSize
  }

  /** The value held by a board. */
  ghost function Snap(b: array2<Cell>): (g: Grid)
    reads b
    requires IsBoard(b)
    ensures IsGrid(g)
    ensures forall r, c :: 0 <= r < BoardSize && 0 <= c < BoardSize ==> g[r][c] == b[r, c]
  {
    seq(BoardSize, r requires 0 <= r < BoardSize reads b =>
      seq(BoardSize, c requires 0 <= c < BoardSize reads b => b[r, c]))
  }

  /** Two grids are equal when they agree on every cell. */
  lemma GridExtensionality(g: Grid, h: Grid)
    requires IsGrid(g) && IsGrid(h)
    requires forall r, c :: 0 <= r < BoardSize && 0 <= c < BoardSize ==> g[r][c] == h[r][c]
    ensures g == h
  {
    forall r | 0 <= r < BoardSize
      ensures g[r] == h[r]
    {
    }
  }

  function FreshCell(row: int, col: int): Cell
  {
    Cell(Position(row, col), CellStatus.Empty, None)
  }

  /** Every cell empty, positioned at its own coordinates, with no ship. */
  ghost predicate IsEmptyGrid(g: Grid)
  {
    IsGrid(g) && forall r, c :: 0 <= r < BoardSize && 0 <= c < BoardSize ==> g[r][c] == FreshCell(r, c)
  }

  method CreateEmptyBoard() returns (b: array2<Cell>)
    ensures fresh(b) && IsBoard(b)
    ensures IsEmptyGrid(Snap(b))
  {
    b := new Cell[BoardSize, BoardSize];
    var row := 0;
    while row < BoardSize
      invariant 0 <= row <= BoardSize
      invariant forall r, c :: 0 <= r < row && 0 <= c < BoardSize ==> b[r, c] == FreshCell(r, c)
    {
      var col := 0;
      while col < BoardSize
        invariant 0 <= col <= BoardSize
        invariant forall r, c :: 0 <= r < row && 0 <= c < BoardSize ==> b[r, c] == FreshCell(r, c)
        invariant forall c :: 0 <= c < col ==> b[row, c] == FreshCell(row, c)
      {
        b[row, col] := FreshCell(row, col);
        col := col + 1;
      }
      row := row + 1;
    }
  }

  function IsCellEmpty(b: array2<Cell>, p: Position): (r: bool)
    reads b
    requires IsBoard(b)
    ensures r ==> InBounds(p)
  {
    if !IsPositionValid(p.row, p.col) then false
    else b[p.row, p.col].status == CellStatus.Empty
  }

  /** On a fresh board a position is empty exactly when it is on the board. */
  lemma FreshBoardCellsEmpty(b: array2<Cell>, p: Position)
    requires IsBoard(b) && IsEmptyGrid(Snap(b))
    ensures IsCellEmpty(b, p) <==> InBounds(p)
  {
    if InBounds(p) {
      assert Snap(b)[p.row][p.col] == FreshCell(p.row, p.col);
    }
  }
}
