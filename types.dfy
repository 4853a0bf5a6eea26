/** Value types of the Battleship rules engine: positions, cells, ships,
    statistics, phases, shot results and the fleet configuration. */
module Types {

  datatype Option<+T> = None | Some(value: T)

  /** Outcome of an operation that can only fail (`autoPlaceShips` throws an Error). */
  datatype Outcome = Pass | Fail(message: string)

  /** Outcome of an operation that yields a value or fails. */
  datatype Result<+T> = Ok(value: T) | Err(message: string)

  /** A board coordinate; the board itself decides which ones are valid. */
  datatype Position = Position(row: int, col: int)

  datatype Orientation = Horizontal | Vertical

  /** The five states a board cell can be in; a cell is in exactly one. */
  datatype CellStatus = Empty | Ship | Miss | Hit | Sunk

  /** A board cell. `shipId` is the id of the ship occupying it, if any. */
  datatype Cell = Cell(position: Position, status: CellStatus, shipId: Option<string>)

  /** Ship types; the value of each type is also the length of its ships. */
  datatype ShipType = Carrier | Battleship | Cruiser | Submarine
  {
    function Value(): (v: int)
      ensures 1 <= v <= 4
    {
      match this
      case Carrier => 4
      case Battleship => 3
      case Cruiser => 2
      case Submarine => 1
    }
  }

  /** A ship. `kind` is `Ship.type` (a reserved word here). */
  datatype Ship = Ship(
    id: string,
    kind: ShipType,
    length: int,
    position: Position,
    orientation: Orientation,
    hits: int,
    isSunk: bool)

  datatype PlayerId = Player1 | Player2

  datatype PlayerStats = PlayerStats(shotsFired: int, hits: int, misses: int, shipsDestroyed: int)

  datatype GamePhase = Setup | Battle | GameOver

  datatype ShotResult = Miss | Hit | Sunk

  /** How many ships of each type a fleet holds. */
  datatype FleetConfig = FleetConfig(carrier: int, battleship: int, cruiser: int, submarine: int)
  {
    function Count(t: ShipType): int
    {
      match t
      case Carrier => carrier
      case Battleship => battleship
      case Cruiser => cruiser
      case Submarine => submarine
    }
  }

  const DefaultFleetConfig: FleetConfig := FleetConfig(1, 2, 3, 4)

  /** Distinct ship types have distinct values, so the value is a faithful key. */
  lemma ShipTypeValueInjective(s: ShipType, t: ShipType)
    ensures s.Value() == t.Value() <==> s == t
  {
  }

  /** The default fleet: 1/2/3/4 ships of lengths 4/3/2/1, ten ships in all. */
  lemma DefaultFleetConfigShape()
    ensures DefaultFleetConfig.Count(Carrier) == 1 && Carrier.Value() == 4
    ensures DefaultFleetConfig.Count(Battleship) == 2 && Battleship.Value() == 3
    ensures DefaultFleetConfig.Count(Cruiser) == 3 && Cruiser.Value() == 2
    ensures DefaultFleetConfig.Count(Submarine) == 4 && Submarine.Value() == 1
    ensures DefaultFleetConfig.Count(Carrier) + DefaultFleetConfig.Count(Battleship)
          + DefaultFleetConfig.Count(Cruiser) + DefaultFleetConfig.Count(Submarine) == 10
  {
  }
}
