/** Ship placement: footprints, the no-touch rule and writing a ship onto a board. */
module ShipPlacement {
  import opened Types
  import opened Coordinates
  import opened Boards

  /** Cell `i` of a footprint anchored at `anchor`. */
  function CellOf(anchor: Position, o: Orientation, i: int): Position
  {
    if o == Horizontal then Position(anchor.row, anchor.col + i)
    else Position(anchor.row + i, anchor.col)
  }

  /** The cells a ship of `length` occupies: `length` cells from the anchor,
      one step along the orientation's axis each; no bounds filtering. */
  function ShipCells(anchor: Position, length: int, o: Orientation): (cells: seq<Position>)
  {
    seq(if length < 0 then 0 else length, i => CellOf(anchor, o, i))
  }

  function Footprint(s: Ship): seq<Position>
  {
    ShipCells(s.position, s.length, s.orientation)
  }

  /** Geometric description of footprint membership. */
  predicate OnLine(p: Position, anchor: Position, length: int, o: Orientation)
  {
    if o == Horizontal then p.row == anchor.row && anchor.col <= p.col < anchor.col + length
    else p.col == anchor.col && anchor.row <= p.row < anchor.row + length
  }

  lemma {:induction false} ShipCellsShape(anchor: Position, length: int, o: Orientation)
    ensures |ShipCells(anchor, length, o)| == if length < 0 then 0 else length
    ensures forall p :: p in ShipCells(anchor, length, o) <==> OnLine(p, anchor, length, o)
    ensures forall i, j :: 0 <= i < j < |ShipCells(anchor, length, o)| ==>
              ShipCells(anchor, length, o)[i] != ShipCells(anchor, length, o)[j]
  {
    var cells := ShipCells(anchor, length, o);
    forall p | OnLine(p, anchor, length, o)
      ensures p in cells
    {
      var k := if o == Horizontal then p.col - anchor.col else p.row - anchor.row;
      assert cells[k] == p;
    }
  }

  /** A footprint is on the board iff its first and last cells are. */
  lemma ShipCellsInBoundsIff(anchor: Position, length: int, o: Orientation)
    requires length >= 1
    ensures (forall p :: p in ShipCells(anchor, length, o) ==> InBounds(p))
            <==> InBounds(anchor) && InBounds(CellOf(anchor, o, length - 1))
  {
    var cells := ShipCells(anchor, length, o);
    assert cells[0] == anchor;
    assert cells[length - 1] == CellOf(anchor, o, length - 1);
  }

  method GetShipCells(anchor: Position, length: int, o: Orientation) returns (cells: seq<Position>)
    ensures cells == ShipCells(anchor, length, o)
  {
    cells := [];
    var i := 0;
    while i < length
      invariant 0 <= i <= if length < 0 then 0 else length
      invariant cells == ShipCells(anchor, i, o)
    {
      if o == Horizontal {
        cells := cells + [Position(anchor.row, anchor.col + i)];
      } else {
        cells := cells + [Position(anchor.row + i, anchor.col)];
      }
      assert cells == ShipCells(anchor, i + 1, o);
      i := i + 1;
    }
  }

  /** Two distinct cells that share a side or a corner. */
  predicate Touches(p: Position, q: Position)
  {
    p != q && -1 <= q.row - p.row <= 1 && -1 <= q.col - p.col <= 1
  }

  predicate ShipAt(g: Grid, q: Position)
    requires IsGrid(g)
  {
    InBounds(q) && At(g, q).status == CellStatus.Ship
  }

  /** Some in-bounds cell touching `p` holds an undamaged ship part. */
  ghost predicate HasAdjacentShip(g: Grid, p: Position)
    requires IsGrid(g)
  {
    exists q :: Touches(p, q) && ShipAt(g, q)
  }

  /** The eight offsets `hasAdjacentShips` inspects around a cell. */
  const Directions: seq<(int, int)> :=
    [(-1, -1), (-1, 0), (-1, 1), (0, -1), (0, 1), (1, -1), (1, 0), (1, 1)]

  function Offset(p: Position, d: (int, int)): Position
  {
    Position(p.row + d.0, p.col + d.1)
  }

  lemma TouchingIsADirection(p: Position, q: Position)
    requires Touches(p, q)
    ensures exists k :: 0 <= k < |Directions| && q == Offset(p, Directions[k])
  {
    var dr, dc := q.row - p.row, q.col - p.col;
    var k := if dr == -1 then 1 + dc else if dr == 0 then (if dc == -1 then 3 else 4) else 6 + dc;
    assert q == Offset(p, Directions[k]);
  }

  method HasAdjacentShips(b: array2<Cell>, p: Position) returns (r: bool)
    requires IsBoard(b)
    ensures r <==> HasAdjacentShip(Snap(b), p)
  {
    var i := 0;
    while i < |Directions|
      invariant 0 <= i <= |Directions|
      invariant forall k :: 0 <= k < i ==> !ShipAt(Snap(b), Offset(p, Directions[k]))
    {
      var (dr, dc) := Directions[i];
      var checkRow, checkCol := p.row + dr, p.col + dc;
      if IsPositionValid(checkRow, checkCol) {
        if b[checkRow, checkCol].status == CellStatus.Ship {
          assert Touches(p, Offset(p, Directions[i])) && ShipAt(Snap(b), Offset(p, Directions[i]));
          return true;
        }
      }
      i := i + 1;
    }
    forall q | Touches(p, q)
      ensures !ShipAt(Snap(b), q)
    {
      TouchingIsADirection(p, q);
    }
    return false;
  }

  /** The placement rule: every footprint cell is on the board, empty, and
      touches no undamaged ship part (not even diagonally). */
  ghost predicate Placeable(g: Grid, anchor: Position, length: int, o: Orientation)
    requires IsGrid(g)
  {
    forall q :: q in ShipCells(anchor, length, o) ==>
      InBounds(q) && At(g, q).status == CellStatus.Empty && !HasAdjacentShip(g, q)
  }

  method CanPlaceShip(b: array2<Cell>, anchor: Position, length: int, o: Orientation) returns (ok: bool)
    requires IsBoard(b)
    ensures ok <==> Placeable(Snap(b), anchor, length, o)
  {
    var cells := GetShipCells(anchor, length, o);
    var i := 0;
    while i < |cells|
      invariant 0 <= i <= |cells|
      invariant forall k :: 0 <= k < i ==>
        InBounds(cells[k]) && At(Snap(b), cells[k]).status == CellStatus.Empty && !HasAdjacentShip(Snap(b), cells[k])
    {
      var cell := cells[i];
      assert cell in ShipCells(anchor, length, o);
      if !IsPositionValid(cell.row, cell.col) {
        return false;
      }
      if b[cell.row, cell.col].status != CellStatus.Empty {
        return false;
      }
      var adjacent := HasAdjacentShips(b, cell);
      if adjacent {
        return false;
      }
      i := i + 1;
    }
    return true;
  }

  predicate FootprintInBounds(s: Ship)
  {
    forall q :: q in Footprint(s) ==> InBounds(q)
  }

  /** The grid after writing `s`: its footprint cells become SHIP with its id;
      every other cell is unchanged. */
  function PlaceOnGrid(g: Grid, s: Ship): (h: Grid)
    requires IsGrid(g)
    ensures IsGrid(h)
  {
    seq(BoardSize, r requires 0 <= r < BoardSize =>
      seq(BoardSize, c requires 0 <= c < BoardSize =>
        if Position(r, c) in Footprint(s)
        then g[r][c].(status := CellStatus.Ship, shipId := Some(s.id))
        else g[r][c]))
  }

  /** Writes the ship without any check; the caller checks `CanPlaceShip` first.
      The footprint must be on the board: `placeShip` writes `board[row][col]` for every footprint cell. */
  method PlaceShip(b: array2<Cell>, s: Ship)
    requires IsBoard(b) && FootprintInBounds(s)
    modifies b
    ensures Snap(b) == PlaceOnGrid(old(Snap(b)), s)
  {
    var cells := GetShipCells(s.position, s.length, s.orientation);
    var i := 0;
    while i < |cells|
      invariant 0 <= i <= |cells|
      invariant forall r, c :: 0 <= r < BoardSize && 0 <= c < BoardSize ==>
        b[r, c] == if Position(r, c) in cells[..i]
                   then old(b[r, c]).(status := CellStatus.Ship, shipId := Some(s.id))
                   else old(b[r, c])
    {
      var cell := cells[i];
      assert cell in Footprint(s);
      b[cell.row, cell.col] := b[cell.row, cell.col].(status := CellStatus.Ship);
      b[cell.row, cell.col] := b[cell.row, cell.col].(shipId := Some(s.id));
      assert cells[..i + 1] == cells[..i] + [cell];
      i := i + 1;
    }
    assert cells[..i] == cells;
    GridExtensionality(Snap(b), PlaceOnGrid(old(Snap(b)), s));
  }

  /** No two undamaged ship parts of different ships touch. */
  ghost predicate NoTouch(g: Grid)
    requires IsGrid(g)
  {
    forall p, q :: ShipAt(g, p) && ShipAt(g, q) && Touches(p, q) ==> At(g, p).shipId == At(g, q).shipId
  }

  lemma PlaceOnGridAt(g: Grid, s: Ship, p: Position)
    requires IsGrid(g) && InBounds(p)
    ensures At(PlaceOnGrid(g, s), p) ==
      if p in Footprint(s) then At(g, p).(status := CellStatus.Ship, shipId := Some(s.id)) else At(g, p)
  {
  }

  /** Placing a ship where the rule allows keeps ships apart. */
  lemma PlacePreservesNoTouch(g: Grid, s: Ship)
    requires IsGrid(g) && NoTouch(g)
    requires Placeable(g, s.position, s.length, s.orientation)
    ensures NoTouch(PlaceOnGrid(g, s))
  {
    var h := PlaceOnGrid(g, s);
    forall p, q | ShipAt(h, p) && ShipAt(h, q) && Touches(p, q)
      ensures At(h, p).shipId == At(h, q).shipId
    {
      PlaceOnGridAt(g, s, p);
      PlaceOnGridAt(g, s, q);
      var inP, inQ := p in Footprint(s), q in Footprint(s);
      if inP && !inQ {
        assert false;
      } else if inQ && !inP {
        assert Touches(q, p) && ShipAt(g, p);
        assert false;
      } else if !inP && !inQ {
        assert ShipAt(g, p) && ShipAt(g, q);
      }
    }
  }

  /** Once a ship is on the board, any placement that overlaps it or touches
      it, orthogonally or diagonally, is refused. */
  lemma PlacedShipBlocksNeighbours(g: Grid, s: Ship, anchor: Position, length: int, o: Orientation, q: Position, p: Position)
    requires IsGrid(g)
    requires forall c :: c in Footprint(s) ==> ShipAt(g, c)
    requires q in ShipCells(anchor, length, o) && p in Footprint(s)
    requires q == p || Touches(q, p)
    ensures !Placeable(g, anchor, length, o)
  {
    if q != p && InBounds(q) {
      assert ShipAt(g, p);
      assert HasAdjacentShip(g, q);
    }
  }

  /** On an empty board a placement is allowed iff its footprint is on the board;
      so one ending exactly on an edge is accepted and one past it is refused. */
  lemma EmptyGridPlaceable(g: Grid, anchor: Position, length: int, o: Orientation)
    requires IsEmptyGrid(g)
    ensures Placeable(g, anchor, length, o) <==> forall q :: q in ShipCells(anchor, length, o) ==> InBounds(q)
  {
    forall q | q in ShipCells(anchor, length, o) && InBounds(q)
      ensures At(g, q).status == CellStatus.Empty && !HasAdjacentShip(g, q)
    {
      assert g[q.row][q.col] == FreshCell(q.row, q.col);
    }
  }
}
