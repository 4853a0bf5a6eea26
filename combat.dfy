/** Combat: resolving a shot against a board and its fleet. `Shoot` is the
    value-level transition; `ProcessShot` performs it in place. */
module Combat {
  import opened Types
  import opened Coordinates
  import opened Boards
  import opened ShipPlacement
  import opened Players

  predicate IsShipSunk(s: Ship)
  {
    s.hits >= s.length
  }

  /** Index of the first ship with the given id, or -1 when there is none. */
  function FindShipIndex(ships: seq<Ship>, id: string): (k: int)
    ensures -1 <= k < |ships|
    ensures 0 <= k ==> ships[k].id == id && forall j :: 0 <= j < k ==> ships[j].id != id
    ensures k < 0 ==> forall j :: 0 <= j < |ships| ==> ships[j].id != id
  {
    if ships == [] then -1
    else if ships[0].id == id then 0
    else
      var k := FindShipIndex(ships[1..], id);
      if k < 0 then -1 else k + 1
  }

  /** The first ship with the given id, if any. */
  function FindShipById(ships: seq<Ship>, id: string): (r: Option<Ship>)
    ensures r.Some? <==> exists i :: 0 <= i < |ships| && ships[i].id == id
    ensures r.Some? ==> r.value.id == id && r.value in ships
  {
    var k := FindShipIndex(ships, id);
    if k < 0 then None else Some(ships[k])
  }

  /** In a fleet without duplicate ids, the lookup finds exactly the ship
      carrying the id. */
  lemma FindShipIndexUnique(ships: seq<Ship>, i: int)
    requires UniqueIds(ships) && 0 <= i < |ships|
    ensures FindShipIndex(ships, ships[i].id) == i
  {
  }

  /** A cell's ship id counts only when set and non-empty (an empty string
      is as good as no id). */
  predicate Present(id: Option<string>)
  {
    id.Some? && id.value != ""
  }

  /** `id` names an undamaged ship part somewhere on the grid. */
  ghost predicate HasIntactPart(g: Grid, id: string)
    requires IsGrid(g)
  {
    && id != ""
    && exists r, c :: 0 <= r < BoardSize && 0 <= c < BoardSize &&
         g[r][c].status == CellStatus.Ship && g[r][c].shipId == Some(id)
  }

  /** The distinct ids of ships with at least one undamaged part. */
  method GetAllShipsFromBoard(b: array2<Cell>) returns (ids: seq<string>)
    requires IsBoard(b)
    ensures forall i, j :: 0 <= i < j < |ids| ==> ids[i] != ids[j]
    ensures forall id :: id in ids <==> HasIntactPart(Snap(b), id)
  {
    ids := [];
    var row := 0;
    while row < BoardSize
      invariant 0 <= row <= BoardSize
      invariant forall i, j :: 0 <= i < j < |ids| ==> ids[i] != ids[j]
      invariant forall id :: id in ids <==> id != "" && (exists r, c ::
        0 <= r < row && 0 <= c < BoardSize &&
        b[r, c].status == CellStatus.Ship && b[r, c].shipId == Some(id))
    {
      var col := 0;
      while col < BoardSize
        invariant 0 <= col <= BoardSize
        invariant forall i, j :: 0 <= i < j < |ids| ==> ids[i] != ids[j]
        invariant forall id :: id in ids <==> id != "" && (exists r, c ::
          ((0 <= r < row && 0 <= c < BoardSize) || (r == row && 0 <= c < col)) &&
          b[r, c].status == CellStatus.Ship && b[r, c].shipId == Some(id))
      {
        var cell := b[row, col];
        if cell.status == CellStatus.Ship && Present(cell.shipId) {
          if cell.shipId.value !in ids {
            ids := ids + [cell.shipId.value];
          }
        }
        col := col + 1;
      }
      row := row + 1;
    }
    assert forall id :: HasIntactPart(Snap(b), id) ==> id in ids;
  }

  /** The grid with the status of cell `p` replaced. */
  function SetStatus(g: Grid, p: Position, st: CellStatus): (h: Grid)
    requires IsGrid(g)
    ensures IsGrid(h)
  {
    seq(BoardSize, r requires 0 <= r < BoardSize =>
      seq(BoardSize, c requires 0 <= c < BoardSize =>
        if Position(r, c) == p then g[r][c].(status := st) else g[r][c]))
  }

  /** The grid with every footprint cell of `s` repainted SUNK. */
  function MarkSunk(g: Grid, s: Ship): (h: Grid)
    requires IsGrid(g)
    ensures IsGrid(h)
  {
    seq(BoardSize, r requires 0 <= r < BoardSize =>
      seq(BoardSize, c requires 0 <= c < BoardSize =>
        if Position(r, c) in Footprint(s) then g[r][c].(status := CellStatus.Sunk) else g[r][c]))
  }

  method MarkShipAsSunk(b: array2<Cell>, s: Ship)
    requires IsBoard(b) && FootprintInBounds(s)
    modifies b
    ensures Snap(b) == MarkSunk(old(Snap(b)), s)
  {
    var cells := GetShipCells(s.position, s.length, s.orientation);
    var i := 0;
    while i < |cells|
      invariant 0 <= i <= |cells|
      invariant forall r, c :: 0 <= r < BoardSize && 0 <= c < BoardSize ==>
        b[r, c] == if Position(r, c) in cells[..i] then old(b[r, c]).(status := CellStatus.Sunk) else old(b[r, c])
    {
      var cell := cells[i];
      assert cell in Footprint(s);
      b[cell.row, cell.col] := b[cell.row, cell.col].(status := CellStatus.Sunk);
      assert cells[..i + 1] == cells[..i] + [cell];
      i := i + 1;
    }
    assert cells[..i] == cells;
    GridExtensionality(Snap(b), MarkSunk(old(Snap(b)), s));
  }

  /** The board, the fleet and the result after a shot. */
  datatype Shot = Shot(grid: Grid, fleet: seq<Ship>, result: ShotResult)

  /** The shot transition. A MISS cell answers MISS and a HIT or SUNK cell HIT,
      changing nothing; an EMPTY cell becomes MISS; a SHIP cell becomes HIT and,
      when its id names a ship of the fleet, that ship takes one more hit and,
      once its hits reach its length, is sunk and repainted SUNK. */
  function Shoot(g: Grid, fleet: seq<Ship>, p: Position): (r: Shot)
    requires IsGrid(g) && InBounds(p)
    ensures IsGrid(r.grid) && |r.fleet| == |fleet|
    ensures forall i :: 0 <= i < |fleet| ==>
      r.fleet[i] == fleet[i].(hits := r.fleet[i].hits, isSunk := r.fleet[i].isSunk)
    ensures r.result == ShotResult.Miss <==> At(g, p).status == CellStatus.Empty || At(g, p).status == CellStatus.Miss
    ensures r.result == ShotResult.Miss <==> At(r.grid, p).status == CellStatus.Miss
    ensures At(r.grid, p).status != CellStatus.Empty && At(r.grid, p).status != CellStatus.Ship
    ensures At(g, p).status != CellStatus.Ship ==> r.fleet == fleet && r.result != ShotResult.Sunk
    ensures At(g, p).status != CellStatus.Ship && At(g, p).status != CellStatus.Empty ==> r.grid == g
  {
    var cell := At(g, p);
    match cell.status
    case Miss => Shot(g, fleet, ShotResult.Miss)
    case Hit => Shot(g, fleet, ShotResult.Hit)
    case Sunk => Shot(g, fleet, ShotResult.Hit)
    case Empty => Shot(SetStatus(g, p, CellStatus.Miss), fleet, ShotResult.Miss)
    case Ship =>
      var g1 := SetStatus(g, p, CellStatus.Hit);
      if !Present(cell.shipId) then Shot(g1, fleet, ShotResult.Hit)
      else
        var k := FindShipIndex(fleet, cell.shipId.value);
        if k < 0 then Shot(g1, fleet, ShotResult.Hit)
        else
          var s := fleet[k].(hits := fleet[k].hits + 1);
          if IsShipSunk(s) then
            var sunk := s.(isSunk := true);
            Shot(MarkSunk(g1, sunk), fleet[k := sunk], ShotResult.Sunk)
          else
            Shot(g1, fleet[k := s], ShotResult.Hit)
  }

  /** Resolves a shot at an in-bounds position, updating the board and the
      hit ship in place. */
  method ProcessShot(b: array2<Cell>, p: Position, ships: array<Ship>) returns (result: ShotResult)
    requires IsBoard(b) && InBounds(p)
    requires forall i :: 0 <= i < ships.Length ==> FootprintInBounds(ships[i])
    modifies b, ships
    ensures Shot(Snap(b), ships[..], result) == Shoot(old(Snap(b)), old(ships[..]), p)
  {
    var cell := b[p.row, p.col];
    if cell.status == CellStatus.Miss {
      return ShotResult.Miss;
    }
    if cell.status == CellStatus.Hit || cell.status == CellStatus.Sunk {
      return ShotResult.Hit;
    }
    if cell.status == CellStatus.Empty {
      b[p.row, p.col] := cell.(status := CellStatus.Miss);
      GridExtensionality(Snap(b), SetStatus(old(Snap(b)), p, CellStatus.Miss));
      return ShotResult.Miss;
    }
    b[p.row, p.col] := cell.(status := CellStatus.Hit);
    GridExtensionality(Snap(b), SetStatus(old(Snap(b)), p, CellStatus.Hit));
    var shipId := cell.shipId;
    if !Present(shipId) {
      return ShotResult.Hit;
    }
    var k := FindShipIndex(ships[..], shipId.value);
    if k < 0 {
      return ShotResult.Hit;
    }
    ships[k] := ships[k].(hits := ships[k].hits + 1);
    if IsShipSunk(ships[k]) {
      ships[k] := ships[k].(isSunk := true);
      MarkShipAsSunk(b, ships[k]);
      return ShotResult.Sunk;
    }
    return ShotResult.Hit;
  }

  /** Shooting the same cell again changes nothing and answers MISS after a
      miss and HIT otherwise. */
  lemma ShootAgainChangesNothing(g: Grid, fleet: seq<Ship>, p: Position)
    requires IsGrid(g) && InBounds(p)
    ensures var r := Shoot(g, fleet, p);
      Shoot(r.grid, r.fleet, p) ==
        Shot(r.grid, r.fleet, if r.result == ShotResult.Miss then ShotResult.Miss else ShotResult.Hit)
  {
  }
}
