/** The game state: two players, the phase machine SETUP -> BATTLE ->
    GAME_OVER, whose turn it is, and victory detection. */
module GameStates {
  import opened Types
  import opened Coordinates
  import opened Boards
  import opened ShipPlacement
  import opened Players

  function GetOpponent(id: PlayerId): (r: PlayerId)
    ensures r != id
  {
    if id == Player1 then Player2 else Player1
  }

  /** Taking the opponent twice gives the player back. */
  lemma OpponentInvolution(id: PlayerId)
    ensures GetOpponent(GetOpponent(id)) == id
  {
  }

  predicate FleetInBounds(ships: seq<Ship>)
  {
    forall i :: 0 <= i < |ships| ==> FootprintInBounds(ships[i])
  }

  /** A freshly built fleet sits at (0,0) horizontally, which is on the board
      for every ship type. */
  lemma BuiltFleetInBounds(config: FleetConfig)
    ensures FleetInBounds(FleetOf(config))
  {
    var fleet := FleetOf(config);
    FleetOfShape(config);
    forall i | 0 <= i < |fleet|
      ensures FootprintInBounds(fleet[i])
    {
      var s := fleet[i];
      assert s in fleet;
      ShipCellsShape(s.position, s.length, s.orientation);
    }
  }

  /** A player without ships gets the default fleet, and as many ships
      remaining; a player with ships keeps them. */
  method GiveDefaultFleet(pl: Player)
    requires FleetInBounds(pl.ships[..])
    modifies pl
    ensures FleetInBounds(pl.ships[..]) && pl.stats == old(pl.stats)
    ensures old(pl.ships.Length) == 0 ==>
      fresh(pl.ships) && pl.ships[..] == FleetOf(DefaultFleetConfig) && pl.shipsRemaining == pl.ships.Length
    ensures old(pl.ships.Length) != 0 ==>
      pl.ships == old(pl.ships) && pl.shipsRemaining == old(pl.shipsRemaining)
  {
    if pl.ships.Length == 0 {
      var fleet := CreateFleet(DefaultFleetConfig);
      BuiltFleetInBounds(DefaultFleetConfig);
      pl.ships := NewShipArray(fleet);
      pl.shipsRemaining := pl.ships.Length;
    }
  }

  method NewShipArray(fleet: seq<Ship>) returns (a: array<Ship>)
    ensures fresh(a) && a[..] == fleet
  {
    a := new Ship[|fleet|](i requires 0 <= i < |fleet| => fleet[i]);
  }

  class GameState {
    var phase: GamePhase
    var currentPlayer: PlayerId
    const player1: Player
    const player2: Player
    var winner: Option<PlayerId>
    var turnCount: int

    /** Two separate players keyed PLAYER_1 and PLAYER_2, each with a board of
        their own and a fleet on the board; a winner is recorded exactly when
        the game is over. */
    ghost predicate Valid()
      reads this, player1, player2, player1.ships, player2.ships
    {
      && player1 != player2
      && player1.id == Player1 && player2.id == Player2
      && player1.board != player2.board && player1.ships != player2.ships
      && IsBoard(player1.board) && IsBoard(player2.board)
      && FleetInBounds(player1.ships[..]) && FleetInBounds(player2.ships[..])
      && (winner.Some? <==> phase == GameOver)
    }

    /** A new game in SETUP: player 1 to move, turn 0, no winner, two fresh
        players with the given names. */
    constructor (player1Name: string, player2Name: string)
      ensures Valid()
      ensures phase == Setup && currentPlayer == Player1 && winner == None && turnCount == 0
      ensures fresh(player1) && fresh(player2) && fresh(player1.board) && fresh(player2.board)
      ensures player1.name == player1Name && player2.name == player2Name
      ensures player1.ships.Length == 0 && player2.ships.Length == 0
      ensures player1.shipsRemaining == 0 && player2.shipsRemaining == 0
      ensures player1.stats == PlayerStats(0, 0, 0, 0) && player2.stats == PlayerStats(0, 0, 0, 0)
      ensures IsEmptyGrid(Snap(player1.board)) && IsEmptyGrid(Snap(player2.board))
    {
      var p1 := new Player(Player1, player1Name);
      var p2 := new Player(Player2, player2Name);
      player1 := p1;
      player2 := p2;
      phase := Setup;
      currentPlayer := Player1;
      winner := None;
      turnCount := 0;
    }

    function PlayerOf(id: PlayerId): (p: Player)
      reads this, player1, player2, player1.ships, player2.ships
      requires Valid()
      ensures p.id == id && (p == player1 || p == player2)
    {
      if id == Player1 then player1 else player2
    }

    function CurrentPlayer(): (p: Player)
      reads this, player1, player2, player1.ships, player2.ships
      requires Valid()
      ensures p.id == currentPlayer && (p == player1 || p == player2)
    {
      PlayerOf(currentPlayer)
    }

    function OpponentPlayer(): (p: Player)
      reads this, player1, player2, player1.ships, player2.ships
      requires Valid()
      ensures p.id != currentPlayer && p != CurrentPlayer() && (p == player1 || p == player2)
    {
      PlayerOf(GetOpponent(currentPlayer))
    }

    /** Starts the battle. Only in SETUP: each player without ships gets the
        default fleet (and as many ships remaining); players who have ships
        keep them. Then BATTLE, player 1 to move, turn 1. */
    method InitializeGame()
      requires Valid()
      modifies this, player1, player2
      ensures Valid()
      ensures old(phase) != Setup ==> unchanged(this, player1, player2)
      ensures old(phase) == Setup ==>
        phase == Battle && currentPlayer == Player1 && turnCount == 1 && winner == old(winner)
      ensures old(phase) == Setup && old(player1.ships.Length) == 0 ==>
        fresh(player1.ships) && player1.ships[..] == FleetOf(DefaultFleetConfig) &&
        player1.shipsRemaining == player1.ships.Length
      ensures old(phase) == Setup && old(player2.ships.Length) == 0 ==>
        fresh(player2.ships) && player2.ships[..] == FleetOf(DefaultFleetConfig) &&
        player2.shipsRemaining == player2.ships.Length
      ensures old(player1.ships.Length) != 0 ==>
        player1.ships == old(player1.ships) && player1.shipsRemaining == old(player1.shipsRemaining)
      ensures old(player2.ships.Length) != 0 ==>
        player2.ships == old(player2.ships) && player2.shipsRemaining == old(player2.shipsRemaining)
      ensures player1.stats == old(player1.stats) && player2.stats == old(player2.stats)
    {
      if phase != Setup {
        return;
      }
      GiveDefaultFleet(player1);
      GiveDefaultFleet(player2);
      phase := Battle;
      currentPlayer := Player1;
      turnCount := 1;
    }

    /** Passes the turn to the opponent and counts one more turn. */
    method SwitchTurn()
      requires Valid()
      modifies this
      ensures Valid()
      ensures currentPlayer == GetOpponent(old(currentPlayer)) && turnCount == old(turnCount) + 1
      ensures phase == old(phase) && winner == old(winner)
    {
      currentPlayer := GetOpponent(currentPlayer);
      turnCount := turnCount + 1;
    }

    /** Decides the game. No verdict in SETUP; after the game the recorded
        winner. In BATTLE, player 1 wins when player 2's fleet is destroyed
        (looked at first), player 2 when player 1's is; the winner and
        GAME_OVER are then set together. Otherwise nothing changes. */
    method CheckVictory() returns (w: Option<PlayerId>)
      requires Valid()
      modifies this
      ensures Valid()
      ensures currentPlayer == old(currentPlayer) && turnCount == old(turnCount)
      ensures old(phase) == Setup ==> w == None && phase == Setup && winner == old(winner)
      ensures old(phase) == GameOver ==> w == old(winner) && phase == GameOver && winner == old(winner)
      ensures old(phase) == Battle && IsFleetDestroyed(player2) ==>
        w == Some(Player1) && winner == w && phase == GameOver
      ensures old(phase) == Battle && !IsFleetDestroyed(player2) && IsFleetDestroyed(player1) ==>
        w == Some(Player2) && winner == w && phase == GameOver
      ensures old(phase) == Battle && !IsFleetDestroyed(player2) && !IsFleetDestroyed(player1) ==>
        w == None && winner == None && phase == Battle
    {
      if phase == Setup {
        return None;
      }
      if phase == GameOver && winner.Some? {
        return winner;
      }
      var player1Destroyed := IsFleetDestroyed(player1);
      var player2Destroyed := IsFleetDestroyed(player2);
      if player2Destroyed {
        phase := GameOver;
        winner := Some(Player1);
        return Some(Player1);
      }
      if player1Destroyed {
        phase := GameOver;
        winner := Some(Player2);
        return Some(Player2);
      }
      return None;
    }
  }

  /** Two switches give the turn back to the same player, two turns later. */
  method SwitchTwice(st: GameState)
    requires st.Valid()
    modifies st
    ensures st.currentPlayer == old(st.currentPlayer) && st.turnCount == old(st.turnCount) + 2
  {
    st.SwitchTurn();
    st.SwitchTurn();
    OpponentInvolution(old(st.currentPlayer));
  }
}
