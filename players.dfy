/** Players and fleets: creating a player, building a fleet from a
    configuration, and deciding whether a fleet is destroyed. */
module Players {
  import opened Types
  import opened Coordinates
  import opened Boards

  /** A player: a board and a fleet of their own, a count of ships still
      afloat and shooting statistics. */
  class Player {
    const id: PlayerId
    const name: string
    const board: array2<Cell>
    var ships: array<Ship>
    var shipsRemaining: int
    var stats: PlayerStats

    /** A new player with a fresh empty board, no ships and zeroed statistics. */
    constructor (id: PlayerId, name: string)
      ensures this.id == id && this.name == name
      ensures fresh(board) && IsBoard(board) && IsEmptyGrid(Snap(board))
      ensures fresh(ships) && ships.Length == 0
      ensures shipsRemaining == 0
      ensures stats == PlayerStats(0, 0, 0, 0)
    {
      this.id := id;
      this.name := name;
      var b := CreateEmptyBoard();
      board := b;
      ships := new Ship[0];
      shipsRemaining := 0;
      stats := PlayerStats(0, 0, 0, 0);
    }
  }

  function ShipTypeName(t: ShipType): (name: string)
    ensures |name| >= 7
  {
    match t
    case Carrier => "carrier"
    case Battleship => "battleship"
    case Cruiser => "cruiser"
    case Submarine => "submarine"
  }

  /** Names of distinct types already differ in their first two letters. */
  lemma ShipTypeNamesDiffer(s: ShipType, t: ShipType)
    requires s != t
    ensures ShipTypeName(s)[0] != ShipTypeName(t)[0] || ShipTypeName(s)[1] != ShipTypeName(t)[1]
  {
  }

  function DigitChar(d: int): char
    requires 0 <= d < 10
  {
    (48 + d) as char
  }

  /** Decimal rendering of a natural number, as string interpolation gives it. */
  function NatToString(n: nat): (s: string)
    ensures |s| >= 1
    ensures n >= 10 ==> |s| >= 2
  {
    if n < 10 then [DigitChar(n)] else NatToString(n / 10) + [DigitChar(n % 10)]
  }

  lemma {:induction false} NatToStringInjective(m: nat, n: nat)
    requires NatToString(m) == NatToString(n)
    ensures m == n
  {
    var sm, sn := NatToString(m), NatToString(n);
    if m >= 10 && n >= 10 {
      assert sm[|sm| - 1] == DigitChar(m % 10) && sn[|sn| - 1] == DigitChar(n % 10);
      assert sm[..|sm| - 1] == NatToString(m / 10);
      assert sn[..|sn| - 1] == NatToString(n / 10);
      NatToStringInjective(m / 10, n / 10);
    } else if m < 10 && n < 10 {
      assert sm[0] == DigitChar(m) && sn[0] == DigitChar(n);
    }
  }

  /** The k-th ship of type t, as a fleet is built: id `<name>-<k>`, length the
      type's value, unhit, afloat, at the placeholder (0,0), horizontal. */
  function NewShip(t: ShipType, k: nat): Ship
  {
    Ship.Ship(ShipTypeName(t) + "-" + NatToString(k), t, t.Value(), Position(0, 0), Horizontal, 0, false)
  }

  /** A new ship's id names its type and its number within the type. */
  lemma NewShipIdInjective(s: ShipType, k: nat, t: ShipType, m: nat)
    requires NewShip(s, k).id == NewShip(t, m).id
    ensures s == t && k == m
  {
    var a, b := NewShip(s, k).id, NewShip(t, m).id;
    if s != t {
      assert a[0] == ShipTypeName(s)[0] && a[1] == ShipTypeName(s)[1];
      assert b[0] == ShipTypeName(t)[0] && b[1] == ShipTypeName(t)[1];
      ShipTypeNamesDiffer(s, t);
    } else {
      var n := |ShipTypeName(s)| + 1;
      assert a[n..] == NatToString(k);
      assert b[n..] == NatToString(m);
      NatToStringInjective(k, m);
    }
  }

  /** Configuration entries are visited in ascending order of their numeric
      keys: submarine (1), cruiser (2), battleship (3), carrier (4). */
  const ConfigOrder: seq<ShipType> := [Submarine, Cruiser, Battleship, Carrier]

  /** The e-th entry is the type whose value is e + 1. */
  lemma ConfigOrderByValue()
    ensures |ConfigOrder| == 4
    ensures forall e :: 0 <= e < |ConfigOrder| ==> ConfigOrder[e].Value() == e + 1
  {
  }

  function ShipsOfType(t: ShipType, count: int): seq<Ship>
  {
    seq(if count < 0 then 0 else count, i requires 0 <= i => NewShip(t, i + 1))
  }

  /** The fleet built from the first n configuration entries. */
  function FleetPrefix(config: FleetConfig, n: nat): seq<Ship>
    requires n <= |ConfigOrder|
  {
    if n == 0 then []
    else FleetPrefix(config, n - 1) + ShipsOfType(ConfigOrder[n - 1], config.Count(ConfigOrder[n - 1]))
  }

  function FleetOf(config: FleetConfig): seq<Ship>
  {
    FleetPrefix(config, |ConfigOrder|)
  }

  method CreateFleet(config: FleetConfig) returns (fleet: seq<Ship>)
    ensures fleet == FleetOf(config)
  {
    fleet := [];
    var shipCounter := map[Carrier := 0, Battleship := 0, Cruiser := 0, Submarine := 0];
    var e := 0;
    while e < |ConfigOrder|
      invariant 0 <= e <= |ConfigOrder|
      invariant fleet == FleetPrefix(config, e)
      invariant forall t :: t in ConfigOrder[e..] ==> t in shipCounter && shipCounter[t] == 0
    {
      var shipType := ConfigOrder[e];
      var count := config.Count(shipType);
      var i := 0;
      while i < count
        invariant 0 <= i <= if count < 0 then 0 else count
        invariant shipType in shipCounter && shipCounter[shipType] == i
        invariant forall t :: t in ConfigOrder[e + 1..] ==> t in shipCounter && shipCounter[t] == 0
        invariant fleet == FleetPrefix(config, e) + ShipsOfType(shipType, i)
      {
        shipCounter := shipCounter[shipType := shipCounter[shipType] + 1];
        var ship := NewShip(shipType, shipCounter[shipType]);
        fleet := fleet + [ship];
        assert ShipsOfType(shipType, i + 1) == ShipsOfType(shipType, i) + [ship];
        i := i + 1;
      }
      e := e + 1;
    }
  }

  function SumOfCounts(config: FleetConfig, n: nat): int
    requires n <= |ConfigOrder|
  {
    if n == 0 then 0
    else
      var c := config.Count(ConfigOrder[n - 1]);
      SumOfCounts(config, n - 1) + (if c < 0 then 0 else c)
  }

  /** A ship exactly as the fleet builder creates it. */
  ghost predicate IsNewShip(s: Ship)
  {
    exists k: nat :: s == NewShip(s.kind, k)
  }

  /** No two ships of a fleet share an id. */
  predicate UniqueIds(fleet: seq<Ship>)
  {
    forall i, j :: 0 <= i < |fleet| && 0 <= j < |fleet| && fleet[i].id == fleet[j].id ==> i == j
  }

  /** The fleet built from the first n entries holds as many ships as their
      non-negative counts add up to, each one a freshly built ship of one of
      those n types, and no two with the same id. */
  lemma {:induction false} FleetPrefixShape(config: FleetConfig, n: nat)
    requires n <= |ConfigOrder|
    ensures |FleetPrefix(config, n)| == SumOfCounts(config, n)
    ensures forall s :: s in FleetPrefix(config, n) ==> IsNewShip(s) && s.kind.Value() <= n
    ensures UniqueIds(FleetPrefix(config, n))
  {
    if n > 0 {
      ConfigOrderByValue();
      FleetPrefixShape(config, n - 1);
      var a := FleetPrefix(config, n - 1);
      var t := ConfigOrder[n - 1];
      var b := ShipsOfType(t, config.Count(t));
      var f := a + b;
      assert f == FleetPrefix(config, n);
      forall s | s in b
        ensures IsNewShip(s) && s.kind.Value() <= n
      {
        var k :| 0 <= k < |b| && b[k] == s;
        assert s == NewShip(s.kind, k + 1);
      }
      AppendTypeUnique(a, t, config.Count(t));
    }
  }

  /** Built ships of different types have different ids. */
  lemma NewShipsOfTypesDiffer(s: Ship, u: Ship)
    requires IsNewShip(s) && IsNewShip(u) && s.kind != u.kind
    ensures s.id != u.id
  {
    var k: nat :| s == NewShip(s.kind, k);
    var m: nat :| u == NewShip(u.kind, m);
    if s.id == u.id {
      NewShipIdInjective(s.kind, k, u.kind, m);
    }
  }

  /** The ships built for one type have distinct ids. */
  lemma ShipsOfTypeUnique(t: ShipType, count: int)
    ensures UniqueIds(ShipsOfType(t, count))
  {
    var b := ShipsOfType(t, count);
    forall i, j | 0 <= i < |b| && 0 <= j < |b| && b[i].id == b[j].id
      ensures i == j
    {
      NewShipIdInjective(t, i + 1, t, j + 1);
    }
  }

  /** Every ship built for one type is a built ship of that type. */
  lemma ShipsOfTypeAreNew(t: ShipType, count: int)
    ensures forall u :: u in ShipsOfType(t, count) ==> IsNewShip(u) && u.kind == t
  {
    var b := ShipsOfType(t, count);
    forall u | u in b
      ensures IsNewShip(u) && u.kind == t
    {
      var k :| 0 <= k < |b| && b[k] == u;
      assert u == NewShip(t, k + 1);
    }
  }

  /** Two fleets with unique ids and no id in common join into one with
      unique ids. */
  lemma AppendUnique(a: seq<Ship>, b: seq<Ship>)
    requires UniqueIds(a) && UniqueIds(b)
    requires forall x, y :: x in a && y in b ==> x.id != y.id
    ensures UniqueIds(a + b)
  {
    var f := a + b;
    forall i, j | 0 <= i < |f| && 0 <= j < |f| && f[i].id == f[j].id
      ensures i == j
    {
      if i < |a| && j < |a| {
        assert f[i] == a[i] && f[j] == a[j];
      } else if i >= |a| && j >= |a| {
        assert f[i] == b[i - |a|] && f[j] == b[j - |a|];
      }
    }
  }

  /** Ships built for a type not yet used in a fleet of built ships keep the
      ids unique. */
  lemma AppendTypeUnique(a: seq<Ship>, t: ShipType, count: int)
    requires UniqueIds(a)
    requires forall s :: s in a ==> IsNewShip(s) && s.kind != t
    ensures UniqueIds(a + ShipsOfType(t, count))
  {
    var b := ShipsOfType(t, count);
    ShipsOfTypeUnique(t, count);
    ShipsOfTypeAreNew(t, count);
    forall x, y | x in a && y in b
      ensures x.id != y.id
    {
      NewShipsOfTypesDiffer(x, y);
    }
    AppendUnique(a, b);
  }

  /** A built fleet: every ship unhit, afloat, at (0,0), horizontal, with a
      non-empty id and the length its type gives; ids are unique. */
  lemma FleetOfShape(config: FleetConfig)
    ensures |FleetOf(config)| == SumOfCounts(config, |ConfigOrder|)
    ensures UniqueIds(FleetOf(config))
    ensures forall s :: s in FleetOf(config) ==>
      && s.length == s.kind.Value() && s.hits == 0 && !s.isSunk
      && s.position == Position(0, 0) && s.orientation == Horizontal && s.id != ""
  {
    FleetPrefixShape(config, |ConfigOrder|);
    forall s | s in FleetOf(config)
      ensures s.length == s.kind.Value() && s.hits == 0 && !s.isSunk
      ensures s.position == Position(0, 0) && s.orientation == Horizontal && s.id != ""
    {
      var k: nat :| s == NewShip(s.kind, k);
    }
  }

  function CountOfKind(fleet: seq<Ship>, t: ShipType): nat
  {
    if fleet == [] then 0
    else CountOfKind(fleet[..|fleet| - 1], t) + (if fleet[|fleet| - 1].kind == t then 1 else 0)
  }

  lemma {:induction false} CountOfKindAppend(a: seq<Ship>, b: seq<Ship>, t: ShipType)
    ensures CountOfKind(a + b, t) == CountOfKind(a, t) + CountOfKind(b, t)
    decreases |b|
  {
    if b != [] {
      var c := a + b;
      assert c[..|c| - 1] == a + b[..|b| - 1];
      CountOfKindAppend(a, b[..|b| - 1], t);
    } else {
      assert a + b == a;
    }
  }

  lemma {:induction false} CountOfKindShipsOfType(s: ShipType, count: nat, t: ShipType)
    ensures CountOfKind(ShipsOfType(s, count), t) == if s == t then count else 0
  {
    if count > 0 {
      assert ShipsOfType(s, count)[..count - 1] == ShipsOfType(s, count - 1);
      CountOfKindShipsOfType(s, count - 1, t);
    }
  }

  lemma {:induction false} FleetPrefixCounts(config: FleetConfig, n: nat, t: ShipType)
    requires n <= |ConfigOrder|
    ensures CountOfKind(FleetPrefix(config, n), t) ==
      if t.Value() <= n && config.Count(t) > 0 then config.Count(t) else 0
  {
    if n > 0 {
      ConfigOrderByValue();
      var u := ConfigOrder[n - 1];
      var c := config.Count(u);
      FleetPrefixCounts(config, n - 1, t);
      CountOfKindAppend(FleetPrefix(config, n - 1), ShipsOfType(u, c), t);
      CountOfKindShipsOfType(u, if c < 0 then 0 else c, t);
      ShipTypeValueInjective(u, t);
    }
  }

  /** A fleet holds exactly as many ships of each type as the configuration
      asks for (none for a count of zero or less). */
  lemma FleetOfCounts(config: FleetConfig, t: ShipType)
    ensures CountOfKind(FleetOf(config), t) == if config.Count(t) > 0 then config.Count(t) else 0
  {
    FleetPrefixCounts(config, |ConfigOrder|, t);
  }

  /** The default fleet: ten ships, one carrier, two battleships, three
      cruisers and four submarines. */
  lemma DefaultFleet()
    ensures |FleetOf(DefaultFleetConfig)| == 10
    ensures CountOfKind(FleetOf(DefaultFleetConfig), Carrier) == 1
    ensures CountOfKind(FleetOf(DefaultFleetConfig), Battleship) == 2
    ensures CountOfKind(FleetOf(DefaultFleetConfig), Cruiser) == 3
    ensures CountOfKind(FleetOf(DefaultFleetConfig), Submarine) == 4
  {
    FleetOfShape(DefaultFleetConfig);
    FleetOfCounts(DefaultFleetConfig, Carrier);
    FleetOfCounts(DefaultFleetConfig, Battleship);
    FleetOfCounts(DefaultFleetConfig, Cruiser);
    FleetOfCounts(DefaultFleetConfig, Submarine);
  }

  /** Number of sunk ships in a fleet. */
  function SunkCount(fleet: seq<Ship>): (n: nat)
    ensures n <= |fleet|
  {
    if fleet == [] then 0
    else SunkCount(fleet[..|fleet| - 1]) + (if fleet[|fleet| - 1].isSunk then 1 else 0)
  }

  /** Every ship of a fleet is sunk exactly when the sunk count is the whole
      fleet. */
  lemma {:induction false} SunkCountAll(fleet: seq<Ship>)
    ensures SunkCount(fleet) == |fleet| <==> forall i :: 0 <= i < |fleet| ==> fleet[i].isSunk
  {
    if fleet != [] {
      SunkCountAll(fleet[..|fleet| - 1]);
    }
  }

  /** A fleet with no sunk ship has a sunk count of zero. */
  lemma {:induction false} NoneSunk(fleet: seq<Ship>)
    requires forall i :: 0 <= i < |fleet| ==> !fleet[i].isSunk
    ensures SunkCount(fleet) == 0
  {
    if fleet != [] {
      NoneSunk(fleet[..|fleet| - 1]);
    }
  }

  /** A fleet is destroyed when it has ships and all of them are sunk, which
      is when its sunk count reaches its size. */
  function IsFleetDestroyed(player: Player): (r: bool)
    reads player, player.ships
    ensures r <==> player.ships.Length > 0 && SunkCount(player.ships[..]) == player.ships.Length
  {
    SunkCountAll(player.ships[..]);
    player.ships.Length > 0 && forall i :: 0 <= i < player.ships.Length ==> player.ships[i].isSunk
  }
}
