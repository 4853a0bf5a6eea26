/** A player's turn: validate the shot, fire it at the opponent's board and
    fleet, keep the statistics, decide the game, and pass the turn on a miss. */
module TurnManager {
  import opened Types
  import opened Coordinates
  import opened Boards
  import opened ShipPlacement
  import opened Players
  import opened Combat
  import opened CombatInvariant
  import opened GameStates

  /** What a turn reports back. */
  datatype TurnResult = TurnResult(
    shotResult: ShotResult,
    continuesTurn: bool,
    winner: Option<PlayerId>,
    sunkShip: Option<Ship>,
    error: Option<string>)

  /** A hit earns another shot; a miss passes the turn. */
  function CanShootAgain(result: ShotResult): (again: bool)
    ensures again <==> result != ShotResult.Miss
  {
    result == ShotResult.Hit || result == ShotResult.Sunk
  }

  const InvalidPositionError: string := "Invalid position - outside board boundaries"

  function PhaseError(phase: GamePhase): string
  {
    "Cannot shoot - game is " + (if phase == GameOver then "over" else "not in BATTLE phase")
  }

  /** Outside BATTLE the message says whether the game is over or has not
      started; the two messages differ. */
  lemma PhaseErrorsDiffer()
    ensures PhaseError(GameOver) == "Cannot shoot - game is over"
    ensures PhaseError(Setup) == PhaseError(Battle) == "Cannot shoot - game is not in BATTLE phase"
    ensures PhaseError(GameOver) != PhaseError(Setup)
  {
  }

  /** The ship a SUNK result reports: the fleet's first ship carrying the
      shot cell's id, looked up after the shot. */
  function SunkShipOf(g: Grid, fleet: seq<Ship>, p: Position, result: ShotResult): Option<Ship>
    requires IsGrid(g) && InBounds(p)
  {
    if result != ShotResult.Sunk || !Present(At(g, p).shipId) then None
    else FindShipById(fleet, At(g, p).shipId.value)
  }

  lemma {:induction false} FindShipIndexSameIds(a: seq<Ship>, b: seq<Ship>, id: string)
    requires |a| == |b| && forall i :: 0 <= i < |a| ==> a[i].id == b[i].id
    ensures FindShipIndex(a, id) == FindShipIndex(b, id)
  {
    if a != [] {
      FindShipIndexSameIds(a[1..], b[1..], id);
    }
  }

  /** A SUNK result always comes with a sunk ship to report, and only a SUNK
      result does. */
  lemma SunkShipResolved(g: Grid, fleet: seq<Ship>, p: Position)
    requires IsGrid(g) && InBounds(p)
    ensures var r := Shoot(g, fleet, p);
      var found := SunkShipOf(r.grid, r.fleet, p, r.result);
      && (found.Some? <==> r.result == ShotResult.Sunk)
      && (found.Some? ==> found.value.isSunk && Some(found.value.id) == At(g, p).shipId)
  {
    var r := Shoot(g, fleet, p);
    if r.result == ShotResult.Sunk {
      var id := At(g, p).shipId.value;
      var k := FindShipIndex(fleet, id);
      var g1 := SetStatus(g, p, CellStatus.Hit);
      SetStatusAt(g, p, CellStatus.Hit, p);
      MarkSunkAt(g1, r.fleet[k], p);
      FindShipIndexSameIds(fleet, r.fleet, id);
    }
  }

  /** The opponent's books balance: board and fleet agree, and the count of
      ships remaining is the number not yet sunk. */
  ghost predicate Accounted(pl: Players.Player)
    reads pl, pl.ships, pl.board
    requires IsBoard(pl.board)
  {
    && Consistent(Snap(pl.board), pl.ships[..])
    && pl.shipsRemaining == pl.ships.Length - SunkCount(pl.ships[..])
  }

  /** Books balance from the start: a fleet that agrees with its board, with
      no ship sunk and every ship counted as remaining (as `initializeGame`
      sets `shipsRemaining`), is accounted for. */
  lemma FreshFleetAccounted(pl: Players.Player)
    requires IsBoard(pl.board) && Consistent(Snap(pl.board), pl.ships[..])
    requires forall i :: 0 <= i < pl.ships.Length ==> !pl.ships[i].isSunk
    requires pl.shipsRemaining == pl.ships.Length
    ensures Accounted(pl)
  {
    NoneSunk(pl.ships[..]);
  }

  /** With balanced books, a fleet is destroyed exactly when it has ships and
      none remains. */
  lemma RemainingZeroIffDestroyed(pl: Players.Player)
    requires IsBoard(pl.board) && Accounted(pl)
    ensures IsFleetDestroyed(pl) <==> pl.ships.Length > 0 && pl.shipsRemaining == 0
  {
  }

  /** One shot keeps the books balanced: the remaining count drops by one
      exactly when a sunk ship is reported. */
  lemma TurnAccounting(g: Grid, fleet: seq<Ship>, p: Position, remaining: int)
    requires IsGrid(g) && InBounds(p) && Consistent(g, fleet)
    requires remaining == |fleet| - SunkCount(fleet)
    ensures var r := Shoot(g, fleet, p);
      var found := SunkShipOf(r.grid, r.fleet, p, r.result);
      && Consistent(r.grid, r.fleet)
      && remaining - (if found.Some? then 1 else 0) == |r.fleet| - SunkCount(r.fleet)
  {
    ShotPreservesConsistency(g, fleet, p);
    SunkShipResolved(g, fleet, p);
  }

  /** The books kept after a shot: the shooter fires one more shot, counted
      as a hit or a miss; a SUNK result whose cell names a ship of the target's
      fleet reports that ship, costs the target one remaining ship and credits
      the shooter with one destroyed. */
  method Tally(shooter: Players.Player, target: Players.Player, p: Position, result: ShotResult)
    returns (sunkShip: Option<Ship>)
    requires shooter != target && IsBoard(target.board) && InBounds(p)
    modifies shooter, target
    ensures target.ships == old(target.ships) && shooter.ships == old(shooter.ships)
    ensures sunkShip == SunkShipOf(Snap(target.board), target.ships[..], p, result)
    ensures shooter.stats == PlayerStats(
      old(shooter.stats.shotsFired) + 1,
      old(shooter.stats.hits) + (if result != ShotResult.Miss then 1 else 0),
      old(shooter.stats.misses) + (if result == ShotResult.Miss then 1 else 0),
      old(shooter.stats.shipsDestroyed) + (if sunkShip.Some? then 1 else 0))
    ensures target.shipsRemaining == old(target.shipsRemaining) - (if sunkShip.Some? then 1 else 0)
    ensures target.stats == old(target.stats) && shooter.shipsRemaining == old(shooter.shipsRemaining)
  {
    shooter.stats := shooter.stats.(shotsFired := shooter.stats.shotsFired + 1);
    if result == ShotResult.Hit || result == ShotResult.Sunk {
      shooter.stats := shooter.stats.(hits := shooter.stats.hits + 1);
    } else if result == ShotResult.Miss {
      shooter.stats := shooter.stats.(misses := shooter.stats.misses + 1);
    }

    sunkShip := None;
    if result == ShotResult.Sunk {
      var cell := target.board[p.row, p.col];
      if Present(cell.shipId) {
        sunkShip := FindShipById(target.ships[..], cell.shipId.value);
        if sunkShip.Some? {
          target.shipsRemaining := target.shipsRemaining - 1;
          shooter.stats := shooter.stats.(shipsDestroyed := shooter.stats.shipsDestroyed + 1);
        }
      }
    }
  }

  /** One shot of `shooter` at `target`, against the state before it: the
      target's board and fleet are what Shoot makes of the old ones, the
      result and the reported sunk ship are Shoot's and SunkShipOf's, the
      books are kept as Tally keeps them, the shooter's own board and fleet
      are untouched, and books that balanced still balance. */
  twostate predicate ShotBooked(shooter: Players.Player, target: Players.Player, p: Position,
                                new result: ShotResult, new sunkShip: Option<Ship>)
    requires IsBoard(target.board) && IsBoard(shooter.board) && InBounds(p)
    reads shooter, target, shooter.board, target.board, shooter.ships, target.ships
  {
    var shot := Shoot(old(Snap(target.board)), old(target.ships[..]), p);
    && Snap(target.board) == shot.grid && target.ships[..] == shot.fleet && result == shot.result
    && sunkShip == SunkShipOf(shot.grid, shot.fleet, p, shot.result)
    && shooter.stats == PlayerStats(
         old(shooter.stats.shotsFired) + 1,
         old(shooter.stats.hits) + (if result != ShotResult.Miss then 1 else 0),
         old(shooter.stats.misses) + (if result == ShotResult.Miss then 1 else 0),
         old(shooter.stats.shipsDestroyed) + (if sunkShip.Some? then 1 else 0))
    && target.shipsRemaining == old(target.shipsRemaining) - (if sunkShip.Some? then 1 else 0)
    && target.stats == old(target.stats) && shooter.shipsRemaining == old(shooter.shipsRemaining)
    && Snap(shooter.board) == old(Snap(shooter.board)) && shooter.ships[..] == old(shooter.ships[..])
    && (old(Accounted(target)) ==> Accounted(target))
  }

  /** The shot lands on the target's board and fleet. Books that balanced
      before it balance again once the reported sunk ship is taken off the
      count of ships remaining. */
  method LandShot(target: Players.Player, p: Position) returns (result: ShotResult)
    requires IsBoard(target.board) && InBounds(p) && FleetInBounds(target.ships[..])
    modifies target.board, target.ships
    ensures FleetInBounds(target.ships[..])
    ensures var shot := Shoot(old(Snap(target.board)), old(target.ships[..]), p);
      && Snap(target.board) == shot.grid && target.ships[..] == shot.fleet && result == shot.result
    ensures old(Accounted(target)) ==>
      && Consistent(Snap(target.board), target.ships[..])
      && target.shipsRemaining - (if SunkShipOf(Snap(target.board), target.ships[..], p, result).Some? then 1 else 0)
         == target.ships.Length - SunkCount(target.ships[..])
  {
    ghost var g0 := Snap(target.board);
    ghost var f0 := target.ships[..];
    ghost var accounted := Accounted(target);
    result := ProcessShot(target.board, p, target.ships);
    ghost var shot := Shoot(g0, f0, p);
    assert forall i :: 0 <= i < |f0| ==> Footprint(shot.fleet[i]) == Footprint(f0[i]);
    if accounted {
      TurnAccounting(g0, f0, p, target.shipsRemaining);
    }
  }

  /** The shot at the target's board and fleet, then the books. */
  method FireAt(shooter: Players.Player, target: Players.Player, p: Position)
    returns (result: ShotResult, sunkShip: Option<Ship>)
    requires shooter != target && shooter.board != target.board && shooter.ships != target.ships
    requires IsBoard(target.board) && IsBoard(shooter.board) && InBounds(p)
    requires FleetInBounds(target.ships[..])
    modifies shooter, target, target.board, target.ships
    ensures target.ships == old(target.ships) && shooter.ships == old(shooter.ships)
    ensures FleetInBounds(target.ships[..])
    ensures var shot := Shoot(old(Snap(target.board)), old(target.ships[..]), p);
      && Snap(target.board) == shot.grid && target.ships[..] == shot.fleet && result == shot.result
    ensures sunkShip == SunkShipOf(Snap(target.board), target.ships[..], p, result)
    ensures shooter.stats == PlayerStats(
      old(shooter.stats.shotsFired) + 1,
      old(shooter.stats.hits) + (if result != ShotResult.Miss then 1 else 0),
      old(shooter.stats.misses) + (if result == ShotResult.Miss then 1 else 0),
      old(shooter.stats.shipsDestroyed) + (if sunkShip.Some? then 1 else 0))
    ensures target.shipsRemaining == old(target.shipsRemaining) - (if sunkShip.Some? then 1 else 0)
    ensures target.stats == old(target.stats) && shooter.shipsRemaining == old(shooter.shipsRemaining)
    ensures old(Accounted(target)) ==> Accounted(target)
  {
    result := LandShot(target, p);
    sunkShip := Tally(shooter, target, p, result);
  }

  /** The BATTLE part of a turn before the verdict: the current player fires
      at the opponent. The phase, the turn and the winner are left alone. */
  method FireAtOpponent(st: GameState, p: Position) returns (result: ShotResult, sunkShip: Option<Ship>)
    requires st.Valid() && InBounds(p)
    modifies st.player1, st.player2, st.player1.board, st.player2.board, st.player1.ships, st.player2.ships
    ensures st.Valid()
    ensures ShotBooked(st.CurrentPlayer(), st.OpponentPlayer(), p, result, sunkShip)
  {
    var opponent := st.OpponentPlayer();
    var currentPlayer := st.CurrentPlayer();
    result, sunkShip := FireAt(currentPlayer, opponent, p);
    assert ShotBooked(currentPlayer, opponent, p, result, sunkShip);
    assert st.CurrentPlayer() == currentPlayer && st.OpponentPlayer() == opponent;
  }

  /** The verdict after a shot, as ProcessTurn reports it: the winner is the
      one recorded, player 1 wins when player 2's fleet is destroyed (looked
      at first), player 2 when player 1's is; a winner means GAME_OVER; and
      the turn passes, counted, only after a miss that decides nothing. */
  twostate predicate Decided(st: GameState, new res: TurnResult)
    reads st, st.player1, st.player2, st.player1.ships, st.player2.ships
  {
    && res.winner == st.winner
    && res.winner == (if IsFleetDestroyed(st.player2) then Some(Player1)
                      else if IsFleetDestroyed(st.player1) then Some(Player2) else None)
    && (res.winner.Some? <==> st.phase == GameOver)
    && (if res.continuesTurn || res.winner.Some?
        then st.currentPlayer == old(st.currentPlayer) && st.turnCount == old(st.turnCount)
        else st.currentPlayer == GetOpponent(old(st.currentPlayer)) && st.turnCount == old(st.turnCount) + 1)
  }

  /** After the shot: decide the game, and pass the turn on a miss that
      decides nothing. Only the game state itself changes. */
  method Conclude(st: GameState, shotResult: ShotResult) returns (winner: Option<PlayerId>, continuesTurn: bool)
    requires st.Valid() && st.phase == Battle
    modifies st
    ensures st.Valid()
    ensures continuesTurn == CanShootAgain(shotResult)
    ensures Decided(st, TurnResult(shotResult, continuesTurn, winner, None, None))
  {
    winner := st.CheckVictory();
    continuesTurn := CanShootAgain(shotResult);
    if !continuesTurn && winner.None? {
      st.SwitchTurn();
    }
  }

  /** A turn in BATTLE at a position on the board: the current player fires
      at the opponent, the game is decided, and a miss passes the turn. */
  method PlayBattleTurn(st: GameState, p: Position) returns (res: TurnResult)
    requires st.Valid() && InBounds(p) && st.phase == Battle
    modifies st, st.player1, st.player2, st.player1.board, st.player2.board, st.player1.ships, st.player2.ships
    ensures st.Valid()
    ensures res.error == None && res.continuesTurn == CanShootAgain(res.shotResult)
    ensures ShotBooked(st.PlayerOf(old(st.currentPlayer)), st.PlayerOf(GetOpponent(old(st.currentPlayer))),
                       p, res.shotResult, res.sunkShip)
    ensures Decided(st, res)
  {
    ghost var cur := st.CurrentPlayer();
    ghost var opp := st.OpponentPlayer();
    var shotResult, sunkShip := FireAtOpponent(st, p);
    var winner, continuesTurn := Conclude(st, shotResult);
    assert ShotBooked(cur, opp, p, shotResult, sunkShip);
    assert cur == st.PlayerOf(old(st.currentPlayer)) && opp == st.PlayerOf(GetOpponent(old(st.currentPlayer)));
    return TurnResult(shotResult, continuesTurn, winner, sunkShip, None);
  }

  /** Plays one shot of the current player at `p`. */
  method ProcessTurn(st: GameState, p: Position) returns (res: TurnResult)
    requires st.Valid()
    modifies st, st.player1, st.player2, st.player1.board, st.player2.board, st.player1.ships, st.player2.ships
    ensures st.Valid()
    ensures !InBounds(p) ==>
      res == TurnResult(ShotResult.Miss, false, None, None, Some(InvalidPositionError))
    ensures InBounds(p) && old(st.phase) != Battle ==>
      res == TurnResult(ShotResult.Miss, false, None, None, Some(PhaseError(old(st.phase))))
    ensures !InBounds(p) || old(st.phase) != Battle ==>
      unchanged(st, st.player1, st.player2, st.player1.board, st.player2.board, old(st.player1.ships), old(st.player2.ships))
    ensures InBounds(p) && old(st.phase) == Battle ==>
      && res.error == None && res.continuesTurn == CanShootAgain(res.shotResult)
      && ShotBooked(st.PlayerOf(old(st.currentPlayer)), st.PlayerOf(GetOpponent(old(st.currentPlayer))),
                    p, res.shotResult, res.sunkShip)
      && Decided(st, res)
  {
    if !IsPositionValid(p.row, p.col) {
      return TurnResult(ShotResult.Miss, false, None, None, Some(InvalidPositionError));
    }
    if st.phase != Battle {
      return TurnResult(ShotResult.Miss, false, None, None, Some(PhaseError(st.phase)));
    }
    res := PlayBattleTurn(st, p);
  }
}
