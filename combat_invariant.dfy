/** The invariant that ties a board to its fleet during a game, and what a
    shot does to it: each ship's hits count its damaged footprint cells, a
    ship is sunk exactly when none of its cells is intact, and the number of
    sunk ships rises by one exactly on a SUNK result. */
module CombatInvariant {
  import opened Types
  import opened Coordinates
  import opened Boards
  import opened ShipPlacement
  import opened Players
  import opened Combat

  /** Number of the given cells that hold an undamaged ship part. */
  function Intact(g: Grid, cells: seq<Position>): (n: nat)
    requires IsGrid(g)
    ensures n <= |cells|
  {
    if cells == [] then 0
    else Intact(g, cells[..|cells| - 1]) + (if ShipAt(g, cells[|cells| - 1]) then 1 else 0)
  }

  /** No cell is intact exactly when none holds an undamaged ship part, and
      all are exactly when each does. */
  lemma {:induction false} IntactBounds(g: Grid, cells: seq<Position>)
    requires IsGrid(g)
    ensures Intact(g, cells) == 0 <==> forall q :: q in cells ==> !ShipAt(g, q)
    ensures Intact(g, cells) == |cells| <==> forall q :: q in cells ==> ShipAt(g, q)
  {
    if cells != [] {
      var front := cells[..|cells| - 1];
      assert cells == front + [cells[|cells| - 1]];
      IntactBounds(g, front);
    }
  }

  lemma {:induction false} IntactFrame(g: Grid, h: Grid, cells: seq<Position>)
    requires IsGrid(g) && IsGrid(h)
    requires forall q :: q in cells ==> ShipAt(g, q) == ShipAt(h, q)
    ensures Intact(g, cells) == Intact(h, cells)
  {
    if cells != [] {
      IntactFrame(g, h, cells[..|cells| - 1]);
    }
  }

  /** Damaging one intact cell of a footprint lowers its intact count by one. */
  lemma {:induction false} IntactPoint(g: Grid, h: Grid, cells: seq<Position>, p: Position)
    requires IsGrid(g) && IsGrid(h) && Distinct(cells)
    requires p in cells && ShipAt(g, p) && !ShipAt(h, p)
    requires forall q :: q in cells && q != p ==> ShipAt(g, q) == ShipAt(h, q)
    ensures Intact(h, cells) == Intact(g, cells) - 1
  {
    var n := |cells|;
    var front := cells[..n - 1];
    var last := cells[n - 1];
    if last == p {
      assert p !in front;
      IntactFrame(g, h, front);
    } else {
      assert cells == front + [last];
      IntactPoint(g, h, front, p);
    }
  }

  predicate Occupied(st: CellStatus)
  {
    st == CellStatus.Ship || st == CellStatus.Hit || st == CellStatus.Sunk
  }

  /** A ship agrees with the board: its footprint is on the board and carries
      its id; its hits are its damaged cells; its cells read SUNK exactly when
      it is sunk, which is exactly when its hits reach its length. */
  ghost predicate ShipConsistent(g: Grid, s: Ship)
    requires IsGrid(g)
  {
    && s.id != "" && s.length >= 1 && FootprintInBounds(s)
    && (forall q :: q in Footprint(s) ==>
          && At(g, q).shipId == Some(s.id)
          && Occupied(At(g, q).status)
          && (At(g, q).status == CellStatus.Sunk <==> s.isSunk))
    && s.hits == s.length - Intact(g, Footprint(s))
    && (s.isSunk <==> IsShipSunk(s))
  }

  /** On an agreeing board a ship has taken as many hits as it is long
      exactly when none of its cells still reads SHIP. */
  lemma SunkIffNoPartLeft(g: Grid, s: Ship)
    requires IsGrid(g) && ShipConsistent(g, s)
    ensures IsShipSunk(s) <==> forall q :: q in Footprint(s) ==> !ShipAt(g, q)
  {
    IntactBounds(g, Footprint(s));
  }

  /** Board and fleet agree: ids are unique, every ship agrees with the board,
      and every undamaged ship part belongs to some ship's footprint. */
  ghost predicate Consistent(g: Grid, fleet: seq<Ship>)
    requires IsGrid(g)
  {
    && UniqueIds(fleet)
    && (forall i :: 0 <= i < |fleet| ==> ShipConsistent(g, fleet[i]))
    && (forall q :: ShipAt(g, q) ==> exists i :: 0 <= i < |fleet| && q in Footprint(fleet[i]))
  }

  /** Before any ship is placed, an empty board and an empty fleet agree. */
  lemma EmptyConsistent(g: Grid)
    requires IsEmptyGrid(g)
    ensures Consistent(g, [])
  {
  }

  lemma SetStatusAt(g: Grid, p: Position, st: CellStatus, q: Position)
    requires IsGrid(g) && InBounds(q)
    ensures At(SetStatus(g, p, st), q) == if q == p then At(g, q).(status := st) else At(g, q)
  {
  }

  lemma MarkSunkAt(g: Grid, s: Ship, q: Position)
    requires IsGrid(g) && InBounds(q)
    ensures At(MarkSunk(g, s), q) == if q in Footprint(s) then At(g, q).(status := CellStatus.Sunk) else At(g, q)
  {
  }

  /** Placing a fresh ship where the placement rule allows keeps board and
      fleet in agreement. */
  lemma PlacementKeepsConsistent(g: Grid, fleet: seq<Ship>, s: Ship)
    requires IsGrid(g) && Consistent(g, fleet)
    requires Placeable(g, s.position, s.length, s.orientation)
    requires s.id != "" && s.length >= 1 && s.hits == 0 && !s.isSunk
    requires forall i :: 0 <= i < |fleet| ==> fleet[i].id != s.id
    ensures Consistent(PlaceOnGrid(g, s), fleet + [s])
  {
    var h := PlaceOnGrid(g, s);
    var f := fleet + [s];
    PlacedShipConsistent(g, s);
    forall i | 0 <= i < |fleet|
      ensures ShipConsistent(h, fleet[i])
    {
      PlacementKeepsShipConsistent(g, s, fleet[i]);
    }
    assert forall i :: 0 <= i < |f| ==> ShipConsistent(h, f[i]);
    assert UniqueIds(f);
    PlacementKeepsOwnership(g, fleet, s);
  }

  lemma PlacementKeepsOwnership(g: Grid, fleet: seq<Ship>, s: Ship)
    requires IsGrid(g)
    requires forall q :: ShipAt(g, q) ==> exists i :: 0 <= i < |fleet| && q in Footprint(fleet[i])
    ensures forall q :: ShipAt(PlaceOnGrid(g, s), q) ==>
      exists i :: 0 <= i < |fleet + [s]| && q in Footprint((fleet + [s])[i])
  {
    var h := PlaceOnGrid(g, s);
    var f := fleet + [s];
    forall q | ShipAt(h, q)
      ensures exists i :: 0 <= i < |f| && q in Footprint(f[i])
    {
      PlaceOnGridAt(g, s, q);
      if q in Footprint(s) {
        assert f[|fleet|] == s;
      } else {
        assert ShipAt(g, q);
        var i :| 0 <= i < |fleet| && q in Footprint(fleet[i]);
        assert f[i] == fleet[i];
      }
    }
  }

  lemma PlacedShipConsistent(g: Grid, s: Ship)
    requires IsGrid(g)
    requires Placeable(g, s.position, s.length, s.orientation)
    requires s.id != "" && s.length >= 1 && s.hits == 0 && !s.isSunk
    ensures ShipConsistent(PlaceOnGrid(g, s), s)
  {
    var h := PlaceOnGrid(g, s);
    forall q | q in Footprint(s)
      ensures At(h, q).shipId == Some(s.id) && At(h, q).status == CellStatus.Ship && ShipAt(h, q)
    {
      PlaceOnGridAt(g, s, q);
    }
    ShipCellsShape(s.position, s.length, s.orientation);
    IntactBounds(h, Footprint(s));
  }

  lemma PlacementKeepsShipConsistent(g: Grid, s: Ship, t: Ship)
    requires IsGrid(g) && ShipConsistent(g, t)
    requires Placeable(g, s.position, s.length, s.orientation)
    ensures ShipConsistent(PlaceOnGrid(g, s), t)
  {
    var h := PlaceOnGrid(g, s);
    forall q | q in Footprint(t)
      ensures At(h, q) == At(g, q)
    {
      PlaceOnGridAt(g, s, q);
    }
    IntactFrame(g, h, Footprint(t));
  }

  /** The ship owning an undamaged part, and the lookup that finds it. */
  lemma OwnerOf(g: Grid, fleet: seq<Ship>, p: Position) returns (i: int)
    requires IsGrid(g) && Consistent(g, fleet) && ShipAt(g, p)
    ensures 0 <= i < |fleet| && p in Footprint(fleet[i])
    ensures Present(At(g, p).shipId) && At(g, p).shipId.value == fleet[i].id
    ensures FindShipIndex(fleet, fleet[i].id) == i
  {
    i :| 0 <= i < |fleet| && p in Footprint(fleet[i]);
    FindShipIndexUnique(fleet, i);
  }

  /** No cell lies in two ships' footprints. */
  lemma FootprintsDisjoint(g: Grid, fleet: seq<Ship>, i: int, j: int, q: Position)
    requires IsGrid(g) && Consistent(g, fleet)
    requires 0 <= i < |fleet| && 0 <= j < |fleet| && i != j && q in Footprint(fleet[i])
    ensures q !in Footprint(fleet[j])
  {
  }

  lemma {:induction false} SunkCountUpdate(f: seq<Ship>, k: int, s: Ship)
    requires 0 <= k < |f|
    ensures SunkCount(f[k := s]) ==
      SunkCount(f) - (if f[k].isSunk then 1 else 0) + (if s.isSunk then 1 else 0)
  {
    var n := |f|;
    var g := f[k := s];
    if k == n - 1 {
      assert g[..n - 1] == f[..n - 1];
    } else {
      assert g[..n - 1] == f[..n - 1][k := s];
      SunkCountUpdate(f[..n - 1], k, s);
    }
  }

  /** A shot at an undamaged part of ship i: that ship takes exactly one hit,
      every other ship is unchanged, and the result is SUNK exactly when this
      was the ship's last intact cell. */
  lemma ShotOnShip(g: Grid, fleet: seq<Ship>, p: Position, i: int)
    requires IsGrid(g) && InBounds(p) && Consistent(g, fleet)
    requires 0 <= i < |fleet| && p in Footprint(fleet[i]) && ShipAt(g, p)
    ensures var r := Shoot(g, fleet, p);
      && r.fleet[i].hits == fleet[i].hits + 1
      && (forall j :: 0 <= j < |fleet| && j != i ==> r.fleet[j] == fleet[j])
      && (r.result == ShotResult.Sunk <==> forall q :: q in Footprint(fleet[i]) && q != p ==> !ShipAt(g, q))
      && (r.result == ShotResult.Sunk <==> r.fleet[i].isSunk)
      && !fleet[i].isSunk
      && r.result != ShotResult.Miss
  {
    var k := OwnerOf(g, fleet, p);
    assert k == i;
    TargetShot(g, fleet, p, i);
  }

  /** A shot keeps board and fleet in agreement, and the number of sunk ships
      rises by one exactly when the result is SUNK (so each ship is reported
      sunk once). */
  lemma ShotPreservesConsistency(g: Grid, fleet: seq<Ship>, p: Position)
    requires IsGrid(g) && InBounds(p) && Consistent(g, fleet)
    ensures var r := Shoot(g, fleet, p);
      && Consistent(r.grid, r.fleet)
      && SunkCount(r.fleet) == SunkCount(fleet) + (if r.result == ShotResult.Sunk then 1 else 0)
  {
    var st := At(g, p).status;
    if st == CellStatus.Empty {
      EmptyShotKeepsConsistent(g, fleet, p);
    } else if st == CellStatus.Ship {
      var i := OwnerOf(g, fleet, p);
      ShipShotKeepsConsistent(g, fleet, p, i);
    }
  }

  lemma EmptyShotKeepsConsistent(g: Grid, fleet: seq<Ship>, p: Position)
    requires IsGrid(g) && InBounds(p) && Consistent(g, fleet)
    requires At(g, p).status == CellStatus.Empty
    ensures Consistent(SetStatus(g, p, CellStatus.Miss), fleet)
  {
    var h := SetStatus(g, p, CellStatus.Miss);
    forall q | InBounds(q)
      ensures ShipAt(h, q) == ShipAt(g, q)
    {
      SetStatusAt(g, p, CellStatus.Miss, q);
    }
    forall i | 0 <= i < |fleet|
      ensures ShipConsistent(h, fleet[i])
    {
      forall q | q in Footprint(fleet[i])
        ensures At(h, q) == At(g, q)
      {
        SetStatusAt(g, p, CellStatus.Miss, q);
      }
      ShipConsistentFrame(g, h, fleet[i]);
    }
  }

  /** Ship i owns the undamaged part at p, agrees with the board, and the
      fleet lookup by its id finds it. */
  ghost predicate HitTarget(g: Grid, fleet: seq<Ship>, p: Position, i: int)
    requires IsGrid(g)
  {
    && InBounds(p) && 0 <= i < |fleet| && p in Footprint(fleet[i]) && ShipAt(g, p)
    && At(g, p).shipId == Some(fleet[i].id)
    && ShipConsistent(g, fleet[i]) && FindShipIndex(fleet, fleet[i].id) == i
  }

  lemma ShootTarget(g: Grid, fleet: seq<Ship>, p: Position, i: int)
    requires IsGrid(g) && HitTarget(g, fleet, p, i)
    ensures var s1 := fleet[i].(hits := fleet[i].hits + 1);
      var g1 := SetStatus(g, p, CellStatus.Hit);
      Shoot(g, fleet, p) ==
        if IsShipSunk(s1) then Shot(MarkSunk(g1, s1.(isSunk := true)), fleet[i := s1.(isSunk := true)], ShotResult.Sunk)
        else Shot(g1, fleet[i := s1], ShotResult.Hit)
  {
  }

  lemma TargetShot(g: Grid, fleet: seq<Ship>, p: Position, i: int)
    requires IsGrid(g) && HitTarget(g, fleet, p, i)
    ensures var r := Shoot(g, fleet, p);
      && r.fleet[i].hits == fleet[i].hits + 1
      && (forall j :: 0 <= j < |fleet| && j != i ==> r.fleet[j] == fleet[j])
      && (r.result == ShotResult.Sunk <==> forall q :: q in Footprint(fleet[i]) && q != p ==> !ShipAt(g, q))
      && (r.result == ShotResult.Sunk <==> r.fleet[i].isSunk)
      && (r.result == ShotResult.Sunk <==> Intact(SetStatus(g, p, CellStatus.Hit), Footprint(fleet[i])) == 0)
      && !fleet[i].isSunk
      && r.result != ShotResult.Miss
  {
    TargetShotFleet(g, fleet, p, i);
    TargetShotSinks(g, fleet, p, i);
  }

  /** What the shot does to the fleet: one more hit on ship i, nothing else
      changes, and the result is HIT or SUNK, SUNK exactly when ship i is now
      sunk. */
  lemma TargetShotFleet(g: Grid, fleet: seq<Ship>, p: Position, i: int)
    requires IsGrid(g) && HitTarget(g, fleet, p, i)
    ensures var r := Shoot(g, fleet, p);
      && r.fleet[i].hits == fleet[i].hits + 1
      && (forall j :: 0 <= j < |fleet| && j != i ==> r.fleet[j] == fleet[j])
      && (r.result == ShotResult.Sunk <==> r.fleet[i].isSunk)
      && !fleet[i].isSunk
      && r.result != ShotResult.Miss
  {
    ShootTarget(g, fleet, p, i);
  }

  /** The shot sinks ship i exactly when p was the last undamaged cell of its
      footprint. */
  lemma TargetShotSinks(g: Grid, fleet: seq<Ship>, p: Position, i: int)
    requires IsGrid(g) && HitTarget(g, fleet, p, i)
    ensures var r := Shoot(g, fleet, p);
      && (r.result == ShotResult.Sunk <==> forall q :: q in Footprint(fleet[i]) && q != p ==> !ShipAt(g, q))
      && (r.result == ShotResult.Sunk <==> Intact(SetStatus(g, p, CellStatus.Hit), Footprint(fleet[i])) == 0)
  {
    ShootTarget(g, fleet, p, i);
    var s := fleet[i];
    var g1 := SetStatus(g, p, CellStatus.Hit);
    ShipCellsShape(s.position, s.length, s.orientation);
    forall q | q in Footprint(s)
      ensures ShipAt(g1, q) == (q != p && ShipAt(g, q))
    {
      SetStatusAt(g, p, CellStatus.Hit, q);
    }
    IntactPoint(g, g1, Footprint(s), p);
    IntactBounds(g1, Footprint(s));
  }

  lemma ShipShotKeepsConsistent(g: Grid, fleet: seq<Ship>, p: Position, i: int)
    requires IsGrid(g) && InBounds(p) && Consistent(g, fleet)
    requires 0 <= i < |fleet| && p in Footprint(fleet[i]) && ShipAt(g, p)
    ensures var r := Shoot(g, fleet, p);
      && Consistent(r.grid, r.fleet)
      && SunkCount(r.fleet) == SunkCount(fleet) + (if r.result == ShotResult.Sunk then 1 else 0)
  {
    var k := OwnerOf(g, fleet, p);
    assert k == i;
    assert HitTarget(g, fleet, p, i);
    ShipShotCount(g, fleet, p, i);
    ShipShotShips(g, fleet, p, i);
    ShotKeepsOwnership(g, fleet, p, i);
  }

  lemma ShipShotCount(g: Grid, fleet: seq<Ship>, p: Position, i: int)
    requires IsGrid(g) && HitTarget(g, fleet, p, i)
    ensures var r := Shoot(g, fleet, p);
      SunkCount(r.fleet) == SunkCount(fleet) + (if r.result == ShotResult.Sunk then 1 else 0)
  {
    TargetShot(g, fleet, p, i);
    var r := Shoot(g, fleet, p);
    var t := r.fleet[i];
    assert r.fleet == fleet[i := t];
    SunkCountUpdate(fleet, i, t);
  }

  lemma ShipShotShips(g: Grid, fleet: seq<Ship>, p: Position, i: int)
    requires IsGrid(g) && Consistent(g, fleet) && HitTarget(g, fleet, p, i)
    ensures var r := Shoot(g, fleet, p);
      UniqueIds(r.fleet) && forall j :: 0 <= j < |r.fleet| ==> ShipConsistent(r.grid, r.fleet[j])
  {
    TargetShot(g, fleet, p, i);
    OtherShipsConsistent(g, fleet, p, i);
    HitShipConsistent(g, fleet, p, i);
  }

  lemma OtherShipsConsistent(g: Grid, fleet: seq<Ship>, p: Position, i: int)
    requires IsGrid(g) && InBounds(p) && Consistent(g, fleet) && HitTarget(g, fleet, p, i)
    ensures var r := Shoot(g, fleet, p);
      forall j :: 0 <= j < |fleet| && j != i ==> ShipConsistent(r.grid, r.fleet[j])
  {
    TargetShot(g, fleet, p, i);
    ShotCells(g, fleet, p, i);
    var r := Shoot(g, fleet, p);
    forall j | 0 <= j < |fleet| && j != i
      ensures ShipConsistent(r.grid, r.fleet[j])
    {
      forall q | q in Footprint(fleet[j])
        ensures At(r.grid, q) == At(g, q)
      {
        FootprintsDisjoint(g, fleet, j, i, q);
      }
      ShipConsistentFrame(g, r.grid, fleet[j]);
    }
  }

  lemma ShotKeepsOwnership(g: Grid, fleet: seq<Ship>, p: Position, i: int)
    requires IsGrid(g) && InBounds(p) && HitTarget(g, fleet, p, i)
    requires forall q :: ShipAt(g, q) ==> exists j :: 0 <= j < |fleet| && q in Footprint(fleet[j])
    ensures var r := Shoot(g, fleet, p);
      forall q :: ShipAt(r.grid, q) ==> exists j :: 0 <= j < |r.fleet| && q in Footprint(r.fleet[j])
  {
    ShotCells(g, fleet, p, i);
    var r := Shoot(g, fleet, p);
    forall q | ShipAt(r.grid, q)
      ensures exists j :: 0 <= j < |r.fleet| && q in Footprint(r.fleet[j])
    {
      assert ShipAt(g, q);
      var j :| 0 <= j < |fleet| && q in Footprint(fleet[j]);
      assert Footprint(r.fleet[j]) == Footprint(fleet[j]);
    }
  }

  lemma ShipConsistentFrame(g: Grid, h: Grid, t: Ship)
    requires IsGrid(g) && IsGrid(h) && ShipConsistent(g, t)
    requires forall q :: q in Footprint(t) ==> At(h, q) == At(g, q)
    ensures ShipConsistent(h, t)
  {
    IntactFrame(g, h, Footprint(t));
  }

  /** Where a shot at ship i's undamaged part changes the board: the shot cell
      and, on a sink, the ship's footprint. */
  lemma ShotCells(g: Grid, fleet: seq<Ship>, p: Position, i: int)
    requires IsGrid(g) && HitTarget(g, fleet, p, i)
    ensures var r := Shoot(g, fleet, p);
      forall q :: InBounds(q) ==>
        At(r.grid, q) ==
          if q in Footprint(fleet[i]) && r.result == ShotResult.Sunk then At(g, q).(status := CellStatus.Sunk)
          else if q == p then At(g, q).(status := CellStatus.Hit)
          else At(g, q)
  {
    ShootTarget(g, fleet, p, i);
    var s1 := fleet[i].(hits := fleet[i].hits + 1);
    var t := s1.(isSunk := true);
    var g1 := SetStatus(g, p, CellStatus.Hit);
    var r := Shoot(g, fleet, p);
    assert Footprint(t) == Footprint(fleet[i]);
    forall q | InBounds(q)
      ensures At(r.grid, q) ==
        if q in Footprint(fleet[i]) && r.result == ShotResult.Sunk then At(g, q).(status := CellStatus.Sunk)
        else if q == p then At(g, q).(status := CellStatus.Hit)
        else At(g, q)
    {
      SetStatusAt(g, p, CellStatus.Hit, q);
      if IsShipSunk(s1) {
        MarkSunkAt(g1, t, q);
      }
    }
  }

  lemma HitShipConsistent(g: Grid, fleet: seq<Ship>, p: Position, i: int)
    requires IsGrid(g) && HitTarget(g, fleet, p, i)
    ensures var r := Shoot(g, fleet, p);
      ShipConsistent(r.grid, r.fleet[i])
  {
    TargetShot(g, fleet, p, i);
    ShootTarget(g, fleet, p, i);
    var s := fleet[i];
    var g1 := SetStatus(g, p, CellStatus.Hit);
    if Intact(g1, Footprint(s)) == 0 {
      SunkShipConsistent(g, p, s);
    } else {
      DamagedShipConsistent(g, p, s);
    }
  }

  /** The last intact cell of a ship is hit: the ship, sunk, agrees with the
      board once its footprint is repainted SUNK. */
  lemma SunkShipConsistent(g: Grid, p: Position, s: Ship)
    requires IsGrid(g) && InBounds(p) && ShipConsistent(g, s) && p in Footprint(s) && ShipAt(g, p)
    requires Intact(SetStatus(g, p, CellStatus.Hit), Footprint(s)) == 0
    ensures var t := s.(hits := s.hits + 1, isSunk := true);
      ShipConsistent(MarkSunk(SetStatus(g, p, CellStatus.Hit), t), t)
  {
    var g1 := SetStatus(g, p, CellStatus.Hit);
    var t := s.(hits := s.hits + 1, isSunk := true);
    var h := MarkSunk(g1, t);
    assert Footprint(t) == Footprint(s);
    forall q | q in Footprint(t)
      ensures At(h, q) == At(g, q).(status := CellStatus.Sunk)
    {
      SetStatusAt(g, p, CellStatus.Hit, q);
      MarkSunkAt(g1, t, q);
    }
    ShipCellsShape(s.position, s.length, s.orientation);
    forall q | q in Footprint(s)
      ensures ShipAt(g1, q) == (q != p && ShipAt(g, q))
    {
      SetStatusAt(g, p, CellStatus.Hit, q);
    }
    IntactPoint(g, g1, Footprint(s), p);
    IntactBounds(h, Footprint(t));
    assert Intact(g, Footprint(s)) == 1;
    assert FootprintInBounds(t);
    assert t.hits == t.length;
    assert forall q :: q in Footprint(t) ==>
      && At(h, q).shipId == Some(t.id)
      && Occupied(At(h, q).status)
      && (At(h, q).status == CellStatus.Sunk <==> t.isSunk);
    assert t.id != "" && t.length >= 1;
    assert ShipConsistent(h, t);
  }

  /** A hit that leaves an intact cell: the ship, one hit more and afloat,
      agrees with the board where the shot cell now reads HIT. */
  lemma DamagedShipConsistent(g: Grid, p: Position, s: Ship)
    requires IsGrid(g) && InBounds(p) && ShipConsistent(g, s) && p in Footprint(s) && ShipAt(g, p)
    requires Intact(SetStatus(g, p, CellStatus.Hit), Footprint(s)) != 0
    ensures ShipConsistent(SetStatus(g, p, CellStatus.Hit), s.(hits := s.hits + 1))
  {
    var g1 := SetStatus(g, p, CellStatus.Hit);
    var t := s.(hits := s.hits + 1);
    assert Footprint(t) == Footprint(s);
    forall q | q in Footprint(t)
      ensures At(g1, q) == if q == p then At(g, q).(status := CellStatus.Hit) else At(g, q)
    {
      SetStatusAt(g, p, CellStatus.Hit, q);
    }
    ShipCellsShape(s.position, s.length, s.orientation);
    IntactPoint(g, g1, Footprint(s), p);
    assert Intact(g, Footprint(s)) != 0;
    assert !s.isSunk;
    assert FootprintInBounds(t);
    assert t.isSunk <==> IsShipSunk(t);
    assert t.hits == t.length - Intact(g1, Footprint(t));
    assert forall q :: q in Footprint(t) ==>
      && At(g1, q).shipId == Some(t.id)
      && Occupied(At(g1, q).status)
      && (At(g1, q).status == CellStatus.Sunk <==> t.isSunk);
    assert t.id != "" && t.length >= 1;
    assert ShipConsistent(g1, t);
  }
}
