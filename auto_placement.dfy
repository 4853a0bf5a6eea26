/** Random placement of a whole fleet: ships go on the board longest first,
    each with up to 1000 random tries of anchor and orientation. The random
    draws are supplied by the caller as a numbered stream. */
module AutoPlacement {
  import opened Types
  import opened Coordinates
  import opened Boards
  import opened ShipPlacement
  import opened Players
  import opened CombatInvariant

  const MaxAttempts: int := 1000

  /** One random try: an anchor and an orientation. */
  datatype Draw = Draw(row: int, col: int, orientation: Orientation)

  function FailMessage(id: string): string
  {
    "Failed to place ship " + id + " after 1000 attempts. This should not happen."
  }

  /** The ship moved to the drawn anchor and orientation. */
  function Moved(s: Ship, d: Draw): (m: Ship)
    ensures m.id == s.id && m.length == s.length && m.hits == s.hits && m.isSunk == s.isSunk
    ensures m.position == Position(d.row, d.col) && m.orientation == d.orientation
  {
    s.(position := Position(d.row, d.col), orientation := d.orientation)
  }

  /** The draw puts the ship where it may go. */
  ghost predicate Fits(g: Grid, s: Ship, d: Draw)
    requires IsGrid(g)
  {
    Placeable(g, Position(d.row, d.col), s.length, d.orientation)
  }

  // ---------------------------------------------------------------------
  // The placing order: a stable sort of the ship indices by length,
  // longest first.
  // ---------------------------------------------------------------------

  /** Inserts index `i` after every index whose ship is at least as long. */
  function InsertByLength(order: seq<int>, i: int, ships: seq<Ship>): (r: seq<int>)
    requires forall j :: 0 <= j < |order| ==> 0 <= order[j] < |ships|
    requires 0 <= i < |ships|
    ensures |r| == |order| + 1
    ensures forall x :: x in r <==> x in order || x == i
    ensures forall j :: 0 <= j < |r| ==> 0 <= r[j] < |ships|
  {
    if order == [] then [i]
    else
      var last := order[|order| - 1];
      if ships[last].length >= ships[i].length then order + [i]
      else
        var init := order[..|order| - 1];
        assert order == init + [last];
        InsertByLength(init, i, ships) + [last]
  }

  /** The indices of the first `n` ships in placing order. */
  function SortByLength(ships: seq<Ship>, n: nat): (r: seq<int>)
    requires n <= |ships|
    ensures |r| == n
    ensures forall j :: 0 <= j < |r| ==> 0 <= r[j] < n
  {
    if n == 0 then []
    else
      var r := InsertByLength(SortByLength(ships, n - 1), n - 1, ships);
      assert forall j :: 0 <= j < |r| ==> r[j] in r;
      r
  }

  /** Longest first; ships of equal length keep their original order. */
  predicate SortedStable(order: seq<int>, ships: seq<Ship>)
    requires forall j :: 0 <= j < |order| ==> 0 <= order[j] < |ships|
  {
    forall a, b :: 0 <= a < b < |order| ==>
      ships[order[a]].length > ships[order[b]].length ||
      (ships[order[a]].length == ships[order[b]].length && order[a] < order[b])
  }

  lemma {:induction false} InsertKeepsSorted(order: seq<int>, i: int, ships: seq<Ship>)
    requires forall j :: 0 <= j < |order| ==> 0 <= order[j] < i
    requires 0 <= i < |ships| && SortedStable(order, ships)
    ensures SortedStable(InsertByLength(order, i, ships), ships)
  {
    if order != [] {
      var last := order[|order| - 1];
      if ships[last].length < ships[i].length {
        var init := order[..|order| - 1];
        InsertKeepsSorted(init, i, ships);
        var front := InsertByLength(init, i, ships);
        var r := front + [last];
        forall a, b | 0 <= a < b < |r|
          ensures ships[r[a]].length > ships[r[b]].length ||
            (ships[r[a]].length == ships[r[b]].length && r[a] < r[b])
        {
          if b == |front| {
            assert r[a] == front[a] && front[a] in front;
            if r[a] != i {
              var k :| 0 <= k < |init| && init[k] == r[a];
              assert order[k] == r[a] && order[|order| - 1] == last;
            }
          }
        }
      }
    }
  }

  /** The placing order is a permutation of all the indices, longest ship
      first, ships of equal length in their original order; no index comes
      twice. */
  lemma {:induction false} SortByLengthSorted(ships: seq<Ship>, n: nat)
    requires n <= |ships|
    ensures SortedStable(SortByLength(ships, n), ships)
    ensures forall j :: 0 <= j < n ==> j in SortByLength(ships, n)
    ensures NoRepeats(SortByLength(ships, n))
  {
    if n > 0 {
      SortByLengthSorted(ships, n - 1);
      InsertKeepsSorted(SortByLength(ships, n - 1), n - 1, ships);
    }
  }

  predicate NoRepeats(order: seq<int>)
  {
    forall a, b :: 0 <= a < b < |order| ==> order[a] != order[b]
  }

  /** No ship is placed twice. */
  lemma PlacingOrderNoRepeats(ships: seq<Ship>)
    ensures NoRepeats(SortByLength(ships, |ships|))
  {
    SortByLengthSorted(ships, |ships|);
  }

  // ---------------------------------------------------------------------
  // Placing ships one after another.
  // ---------------------------------------------------------------------

  /** The grid after writing the ships in order. */
  function PlaceAll(g: Grid, ss: seq<Ship>): (h: Grid)
    requires IsGrid(g)
    ensures IsGrid(h)
  {
    if ss == [] then g else PlaceOnGrid(PlaceAll(g, ss[..|ss| - 1]), ss[|ss| - 1])
  }

  /** Each ship was placeable on the grid left by the ships before it. */
  ghost predicate PlacedOneByOne(g: Grid, ss: seq<Ship>)
    requires IsGrid(g)
  {
    ss == [] ||
    (var s := ss[|ss| - 1];
     PlacedOneByOne(g, ss[..|ss| - 1]) && Placeable(PlaceAll(g, ss[..|ss| - 1]), s.position, s.length, s.orientation))
  }

  /** Ships placed one by one never touch one another. */
  lemma {:induction false} OneByOneNoTouch(g: Grid, ss: seq<Ship>)
    requires IsGrid(g) && NoTouch(g) && PlacedOneByOne(g, ss)
    ensures NoTouch(PlaceAll(g, ss))
  {
    if ss != [] {
      OneByOneNoTouch(g, ss[..|ss| - 1]);
      PlacePreservesNoTouch(PlaceAll(g, ss[..|ss| - 1]), ss[|ss| - 1]);
    }
  }

  /** New ships with distinct ids, placed one by one on a board that agrees
      with no fleet, give a board that agrees with them: each footprint
      holds its ship, undamaged. */
  lemma {:induction false} OneByOneConsistent(g: Grid, ss: seq<Ship>)
    requires IsGrid(g) && Consistent(g, []) && PlacedOneByOne(g, ss)
    requires UniqueIds(ss)
    requires forall j :: 0 <= j < |ss| ==> ss[j].id != "" && ss[j].length >= 1 && ss[j].hits == 0 && !ss[j].isSunk
    ensures Consistent(PlaceAll(g, ss), ss)
  {
    if ss != [] {
      var init := ss[..|ss| - 1];
      var s := ss[|ss| - 1];
      assert ss == init + [s];
      assert UniqueIds(init);
      OneByOneConsistent(g, init);
      PlacementKeepsConsistent(PlaceAll(g, init), init, s);
    }
  }

  /** Board-fleet agreement does not depend on the order of the fleet: the
      same ships listed under a rearrangement of their indices still agree
      with the board. */
  lemma ConsistentReordered(g: Grid, a: seq<Ship>, b: seq<Ship>, order: seq<int>)
    requires IsGrid(g) && Consistent(g, a)
    requires |order| == |a|
    requires forall k :: 0 <= k < |a| ==> 0 <= order[k] < |b| && b[order[k]] == a[k]
    requires forall j :: 0 <= j < |b| ==> j in order
    ensures Consistent(g, b)
  {
    forall i, j | 0 <= i < |b| && 0 <= j < |b| && b[i].id == b[j].id
      ensures i == j
    {
      assert i in order && j in order;
      var k :| 0 <= k < |order| && order[k] == i;
      var m :| 0 <= m < |order| && order[m] == j;
      assert a[k].id == a[m].id;
    }
    forall j | 0 <= j < |b|
      ensures ShipConsistent(g, b[j])
    {
      assert j in order;
      var k :| 0 <= k < |order| && order[k] == j;
      assert b[j] == a[k];
    }
    forall q | ShipAt(g, q)
      ensures exists j :: 0 <= j < |b| && q in Footprint(b[j])
    {
      var i :| 0 <= i < |a| && q in Footprint(a[i]);
      assert q in Footprint(b[order[i]]);
    }
  }

  /** Ships not yet placed or shot at, with distinct non-empty ids. */
  predicate NewFleet(fleet: seq<Ship>)
  {
    && UniqueIds(fleet)
    && forall j :: 0 <= j < |fleet| ==>
         fleet[j].id != "" && fleet[j].length >= 1 && fleet[j].hits == 0 && !fleet[j].isSunk
  }

  /** A fleet of new ships with distinct ids that an automatic placement
      puts entirely onto an empty board agrees with that board, in the
      fleet's own array order (the premises are what `AutoPlaceShips`
      ensures on success). */
  lemma AutoPlacedFleetConsistent(g: Grid, ships0: seq<Ship>, ships: seq<Ship>, placed: seq<Ship>)
    requires IsEmptyGrid(g) && NewFleet(ships0)
    requires |ships| == |ships0|
    requires forall j :: 0 <= j < |ships| ==>
      ships[j] == ships0[j].(position := ships[j].position, orientation := ships[j].orientation)
    requires var order := SortByLength(ships0, |ships|);
      |placed| == |order| && Lists(placed, ships, order) && PlacedOneByOne(g, placed)
    ensures Consistent(PlaceAll(g, placed), ships)
  {
    var order := SortByLength(ships0, |ships|);
    SortByLengthSorted(ships0, |ships|);
    PlacedAreNew(ships0, ships, placed, order);
    EmptyConsistent(g);
    OneByOneConsistent(g, placed);
    ConsistentReordered(PlaceAll(g, placed), placed, ships, order);
  }

  /** Ships taken from a new fleet at distinct indices, and moved without
      other change, form a new fleet again. */
  lemma PlacedAreNew(ships0: seq<Ship>, ships: seq<Ship>, placed: seq<Ship>, order: seq<int>)
    requires NewFleet(ships0) && |ships| == |ships0|
    requires forall j :: 0 <= j < |ships| ==>
      ships[j] == ships0[j].(position := ships[j].position, orientation := ships[j].orientation)
    requires Lists(placed, ships, order) && NoRepeats(order)
    ensures NewFleet(placed)
  {
    forall x, y | 0 <= x < |placed| && 0 <= y < |placed| && placed[x].id == placed[y].id
      ensures x == y
    {
      assert ships0[order[x]].id == ships0[order[y]].id;
    }
  }

  /** One more placeable ship extends a one-by-one placement. */
  lemma PlaceNext(g: Grid, log: seq<Ship>, s: Ship)
    requires IsGrid(g) && PlacedOneByOne(g, log)
    requires Placeable(PlaceAll(g, log), s.position, s.length, s.orientation)
    ensures PlacedOneByOne(g, log + [s])
    ensures PlaceAll(g, log + [s]) == PlaceOnGrid(PlaceAll(g, log), s)
  {
    assert (log + [s])[..|log|] == log;
  }

  /** `placed` are the ships at the first indices of `order`, in order. */
  predicate Lists(placed: seq<Ship>, ships: seq<Ship>, order: seq<int>)
  {
    && |placed| <= |order|
    && forall j :: 0 <= j < |placed| ==> 0 <= order[j] < |ships| && placed[j] == ships[order[j]]
  }

  /** Moving the ship at the next index of the order extends the list by
      that ship and leaves the listed ones alone. */
  lemma ListsNext(placed: seq<Ship>, ships: seq<Ship>, order: seq<int>, s: Ship)
    requires Lists(placed, ships, order) && |placed| < |order|
    requires 0 <= order[|placed|] < |ships| && NoRepeats(order)
    ensures Lists(placed + [s], ships[order[|placed|] := s], order)
  {
  }

  /** Up to 1000 tries, each with the next draw, to place ship `i`: on the
      first try that fits, the ship takes the drawn anchor and orientation
      and is written onto the board. `next` is the first draw not used. */
  method TryPlaceShip(board: array2<Cell>, ships: array<Ship>, i: int, draws: nat -> Draw, k: nat)
    returns (placed: bool, next: nat)
    requires IsBoard(board) && 0 <= i < ships.Length
    modifies board, ships
    ensures k < next <= k + MaxAttempts
    ensures forall j :: k <= j < (if placed then next - 1 else next) ==>
      !Fits(old(Snap(board)), old(ships[i]), draws(j))
    ensures !placed ==>
      next == k + MaxAttempts && Snap(board) == old(Snap(board)) && ships[..] == old(ships[..])
    ensures placed ==>
      var s := Moved(old(ships[i]), draws(next - 1));
      && Fits(old(Snap(board)), old(ships[i]), draws(next - 1))
      && ships[..] == old(ships[..])[i := s]
      && Snap(board) == PlaceOnGrid(old(Snap(board)), s)
  {
    placed := false;
    var attempts := 0;
    next := k;
    while !placed && attempts < MaxAttempts
      invariant 0 <= attempts <= MaxAttempts && next == k + attempts
      invariant placed ==> attempts > 0
      invariant forall j :: k <= j < (if placed then next - 1 else next) ==>
        !Fits(old(Snap(board)), old(ships[i]), draws(j))
      invariant !placed ==> Snap(board) == old(Snap(board)) && ships[..] == old(ships[..])
      invariant placed ==>
        var s := Moved(old(ships[i]), draws(next - 1));
        && Fits(old(Snap(board)), old(ships[i]), draws(next - 1))
        && ships[..] == old(ships[..])[i := s]
        && Snap(board) == PlaceOnGrid(old(Snap(board)), s)
      decreases MaxAttempts - attempts
    {
      attempts := attempts + 1;
      var d := draws(next);
      next := next + 1;
      var ok := CanPlaceShip(board, Position(d.row, d.col), ships[i].length, d.orientation);
      if ok {
        ships[i] := Moved(ships[i], d);
        PlaceShip(board, ships[i]);
        placed := true;
      }
    }
  }

  /** Places every ship, longest first, each through `TryPlaceShip`; gives
      up with the failing ship's id when one cannot be placed. `placed` are
      the ships that ended up on the board, in placing order. */
  method AutoPlaceShips(board: array2<Cell>, ships: array<Ship>, draws: nat -> Draw)
    returns (r: Outcome, ghost placed: seq<Ship>)
    requires IsBoard(board)
    modifies board, ships
    ensures forall j :: 0 <= j < ships.Length ==>
      ships[j] == old(ships[j]).(position := ships[j].position, orientation := ships[j].orientation)
    ensures var order := SortByLength(old(ships[..]), ships.Length);
      && |placed| <= |order|
      && Lists(placed, ships[..], order)
      && PlacedOneByOne(old(Snap(board)), placed)
      && Snap(board) == PlaceAll(old(Snap(board)), placed)
      && (r.Pass? <==> |placed| == |order|)
      && (r.Fail? ==> r.message == FailMessage(ships[order[|placed|]].id))
  {
    ghost var g0 := Snap(board);
    ghost var ships0 := ships[..];
    var order := SortByLength(ships[..], ships.Length);
    PlacingOrderNoRepeats(ships[..]);
    placed := [];
    var k: nat := 0;
    for n := 0 to |order|
      invariant forall j :: 0 <= j < ships.Length ==>
        ships[j] == ships0[j].(position := ships[j].position, orientation := ships[j].orientation)
      invariant |placed| == n && Lists(placed, ships[..], order)
      invariant PlacedOneByOne(g0, placed)
      invariant Snap(board) == PlaceAll(g0, placed)
    {
      var i := order[n];
      ghost var before := ships[..];
      var ok;
      ok, k := TryPlaceShip(board, ships, i, draws, k);
      if !ok {
        return Fail(FailMessage(ships[i].id)), placed;
      }
      PlaceNext(g0, placed, ships[i]);
      ListsNext(placed, before, order, ships[i]);
      placed := placed + [ships[i]];
    }
    return Pass, placed;
  }
}
