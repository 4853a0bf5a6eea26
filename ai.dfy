/** The computer opponent. It hunts at random until it hits a ship, then works
    through a queue of the hit cells' neighbours, preferring the line the last
    two hits lie on, and goes back to hunting once the ship sinks. */
module AI {
  import opened Types
  import opened Coordinates
  import opened Boards
  import opened Combat

  datatype Mode = Hunt | Target

  const NoCellsError: string := "No available cells to shoot at"

  /** The four orthogonal neighbours, in the order up, down, left, right. */
  function Neighbours(p: Position): seq<Position>
  {
    [Position(p.row - 1, p.col), Position(p.row + 1, p.col),
     Position(p.row, p.col - 1), Position(p.row, p.col + 1)]
  }

  predicate Orthogonal(p: Position, q: Position)
  {
    (q.row == p.row && (q.col == p.col - 1 || q.col == p.col + 1)) ||
    (q.col == p.col && (q.row == p.row - 1 || q.row == p.row + 1))
  }

  /** The cells of `cells` that lie on the board, in their order. */
  function OnBoard(cells: seq<Position>): seq<Position>
  {
    if cells == [] then []
    else
      var rest := OnBoard(cells[..|cells| - 1]);
      var last := cells[|cells| - 1];
      if InBounds(last) then rest + [last] else rest
  }

  lemma {:induction false} OnBoardShape(cells: seq<Position>)
    ensures forall q :: q in OnBoard(cells) <==> q in cells && InBounds(q)
    ensures Distinct(cells) ==> Distinct(OnBoard(cells))
  {
    if cells != [] {
      var init := cells[..|cells| - 1];
      OnBoardShape(init);
      assert cells == init + [cells[|cells| - 1]];
    }
  }

  /** The in-bounds orthogonal neighbours of a cell, each once. */
  lemma AdjacentCellsShape(p: Position)
    ensures forall q :: q in OnBoard(Neighbours(p)) <==> InBounds(q) && Orthogonal(p, q)
    ensures Distinct(OnBoard(Neighbours(p)))
  {
    OnBoardShape(Neighbours(p));
  }

  /** A cell as a list of itself when on the board, else nothing. */
  function Keep(p: Position): seq<Position>
  {
    if InBounds(p) then [p] else []
  }

  /** The neighbours come in the order up, down, left, right, each one
      dropped when it is off the board. */
  lemma AdjacentCellsOrder(p: Position)
    ensures OnBoard(Neighbours(p)) ==
      Keep(Position(p.row - 1, p.col)) + Keep(Position(p.row + 1, p.col)) +
      Keep(Position(p.row, p.col - 1)) + Keep(Position(p.row, p.col + 1))
  {
    var s := Neighbours(p);
    assert s[..1][..0] == [];
    assert OnBoard(s[..1]) == Keep(s[0]);
    assert s[..2][..1] == s[..1];
    assert OnBoard(s[..2]) == Keep(s[0]) + Keep(s[1]);
    assert s[..3][..2] == s[..2];
    assert OnBoard(s[..3]) == Keep(s[0]) + Keep(s[1]) + Keep(s[2]);
    assert s[..4][..3] == s[..3];
    assert s[..4] == s;
  }

  /** An inner cell has four neighbours; a corner has two. */
  lemma AdjacentCellsExamples()
    ensures OnBoard(Neighbours(Position(5, 5))) ==
      [Position(4, 5), Position(6, 5), Position(5, 4), Position(5, 6)]
    ensures OnBoard(Neighbours(Position(0, 0))) == [Position(1, 0), Position(0, 1)]
    ensures OnBoard(Neighbours(Position(9, 9))) == [Position(8, 9), Position(9, 8)]
  {
    AdjacentCellsOrder(Position(5, 5));
    AdjacentCellsOrder(Position(0, 0));
    AdjacentCellsOrder(Position(9, 9));
  }

  method GetAdjacentCells(p: Position) returns (adjacent: seq<Position>)
    ensures adjacent == OnBoard(Neighbours(p))
  {
    var directions := Neighbours(p);
    adjacent := [];
    for i := 0 to |directions|
      invariant adjacent == OnBoard(directions[..i])
    {
      var pos := directions[i];
      assert directions[..i + 1][..i] == directions[..i];
      if IsPositionValid(pos.row, pos.col) {
        adjacent := adjacent + [pos];
      }
    }
    assert directions[..|directions|] == directions;
  }

  /** A cell the AI may still shoot at: EMPTY or SHIP. */
  predicate Available(g: Grid, p: Position)
    requires IsGrid(g) && InBounds(p)
  {
    At(g, p).status == CellStatus.Empty || At(g, p).status == CellStatus.Ship
  }

  function IsCellAvailable(b: array2<Cell>, p: Position): (r: bool)
    reads b
    requires IsBoard(b) && InBounds(p)
    ensures r == Available(Snap(b), p)
  {
    b[p.row, p.col].status == CellStatus.Empty || b[p.row, p.col].status == CellStatus.Ship
  }

  /** The available cells are exactly those a shot still changes; shooting
      any other cell leaves the board as it was. */
  lemma AvailableIffShotChangesBoard(g: Grid, fleet: seq<Ship>, p: Position)
    requires IsGrid(g) && InBounds(p)
    ensures Available(g, p) <==> Shoot(g, fleet, p).grid != g
  {
    var r := Shoot(g, fleet, p);
    if Available(g, p) {
      assert At(r.grid, p) != At(g, p);
    }
  }

  /** A shot uses a cell up: afterwards it is no longer available. */
  lemma ShotUsesUpCell(g: Grid, fleet: seq<Ship>, p: Position)
    requires IsGrid(g) && InBounds(p)
    ensures !Available(Shoot(g, fleet, p).grid, p)
  {
  }

  /** Row-major number of a cell, and the cell with a given number. */
  function Index(p: Position): int
  {
    p.row * BoardSize + p.col
  }

  function CellAt(k: int): (p: Position)
    requires 0 <= k < BoardSize * BoardSize
    ensures InBounds(p) && Index(p) == k
  {
    Position(k / BoardSize, k % BoardSize)
  }

  lemma CellAtIndex(p: Position)
    requires InBounds(p)
    ensures 0 <= Index(p) < BoardSize * BoardSize && CellAt(Index(p)) == p
  {
    var q := CellAt(Index(p));
    assert q.row * BoardSize + q.col == p.row * BoardSize + p.col;
  }

  /** The available cells among the first `n` in row-major order. */
  function AvailableBefore(g: Grid, n: int): seq<Position>
    requires IsGrid(g) && 0 <= n <= BoardSize * BoardSize
  {
    if n == 0 then []
    else
      var p := CellAt(n - 1);
      AvailableBefore(g, n - 1) + (if Available(g, p) then [p] else [])
  }

  /** Every available cell of the board, in row-major order. */
  function AvailableCells(g: Grid): seq<Position>
    requires IsGrid(g)
  {
    AvailableBefore(g, BoardSize * BoardSize)
  }

  lemma {:induction false} AvailableBeforeShape(g: Grid, n: int)
    requires IsGrid(g) && 0 <= n <= BoardSize * BoardSize
    ensures forall p :: p in AvailableBefore(g, n) ==> InBounds(p) && Index(p) < n && Available(g, p)
    ensures forall p :: InBounds(p) && Index(p) < n && Available(g, p) ==> p in AvailableBefore(g, n)
    ensures forall i, j :: 0 <= i < j < |AvailableBefore(g, n)| ==>
      Index(AvailableBefore(g, n)[i]) < Index(AvailableBefore(g, n)[j])
  {
    if n > 0 {
      AvailableBeforeShape(g, n - 1);
      forall p | InBounds(p) && Index(p) < n && Available(g, p)
        ensures p in AvailableBefore(g, n)
      {
        CellAtIndex(p);
      }
    }
  }

  /** The list the hunt draws from holds exactly the available cells, each
      once, in row-major order. */
  lemma AvailableCellsIff(g: Grid)
    requires IsGrid(g)
    ensures forall p :: p in AvailableCells(g) <==> InBounds(p) && Available(g, p)
    ensures forall i, j :: 0 <= i < j < |AvailableCells(g)| ==>
      Index(AvailableCells(g)[i]) < Index(AvailableCells(g)[j])
  {
    AvailableBeforeShape(g, BoardSize * BoardSize);
    forall p | InBounds(p)
      ensures Index(p) < BoardSize * BoardSize
    {
      CellAtIndex(p);
    }
  }

  /** A random available cell: every available cell is collected in
      row-major order and one of them is picked. The pick is left open, so
      any available cell may come back. With none, the error. */
  method GetRandomAvailableCell(b: array2<Cell>) returns (r: Result<Position>)
    requires IsBoard(b)
    ensures r.Err? <==> AvailableCells(Snap(b)) == []
    ensures r.Err? ==> r.message == NoCellsError
    ensures r.Ok? ==> r.value in AvailableCells(Snap(b))
  {
    ghost var g := Snap(b);
    var available: seq<Position> := [];
    for row := 0 to BoardSize
      invariant available == AvailableBefore(g, row * BoardSize)
    {
      for col := 0 to BoardSize
        invariant available == AvailableBefore(g, row * BoardSize + col)
      {
        CellAtIndex(Position(row, col));
        if IsCellAvailable(b, Position(row, col)) {
          available := available + [Position(row, col)];
        }
      }
    }
    if |available| == 0 {
      return Err(NoCellsError);
    }
    var i :| 0 <= i < |available|;
    return Ok(available[i]);
  }

  /** The queue after discarding heads that are no longer available. */
  function Skip(g: Grid, q: seq<Position>): seq<Position>
    requires IsGrid(g) && forall i :: 0 <= i < |q| ==> InBounds(q[i])
  {
    if q == [] then []
    else if Available(g, q[0]) then q
    else Skip(g, q[1..])
  }

  /** Skipping drops a prefix of unavailable cells and stops at the first
      available one. */
  lemma {:induction false} SkipShape(g: Grid, q: seq<Position>)
    requires IsGrid(g) && forall i :: 0 <= i < |q| ==> InBounds(q[i])
    ensures |Skip(g, q)| <= |q| && Skip(g, q) == q[|q| - |Skip(g, q)|..]
    ensures forall i :: 0 <= i < |q| - |Skip(g, q)| ==> !Available(g, q[i])
    ensures Skip(g, q) != [] ==> Available(g, Skip(g, q)[0])
  {
    if q != [] && !Available(g, q[0]) {
      SkipShape(g, q[1..]);
      assert forall i :: 1 <= i < |q| ==> q[i] == q[1..][i - 1];
    }
  }

  /** `q` with those of `cells` not yet in it appended, in order. */
  function AppendNew(q: seq<Position>, cells: seq<Position>): seq<Position>
  {
    if cells == [] then q
    else
      var r := AppendNew(q, cells[..|cells| - 1]);
      var c := cells[|cells| - 1];
      if c in r then r else r + [c]
  }

  lemma {:induction false} AppendNewShape(q: seq<Position>, cells: seq<Position>)
    ensures q <= AppendNew(q, cells)
    ensures forall x :: x in AppendNew(q, cells) <==> x in q || x in cells
    ensures Distinct(q) ==> Distinct(AppendNew(q, cells))
  {
    if cells != [] {
      var init := cells[..|cells| - 1];
      AppendNewShape(q, init);
      assert cells == init + [cells[|cells| - 1]];
    }
  }

  /** Whether `a` lies on the line through `last`: its row when the last two
      hits share a row, its column otherwise. */
  predicate InLine(sameRow: bool, last: Position, a: Position)
  {
    if sameRow then a.row == last.row else a.col == last.col
  }

  /** The cells of `q` whose in-line test is `keep`, in their order. */
  function Select(q: seq<Position>, sameRow: bool, last: Position, keep: bool): seq<Position>
  {
    if q == [] then []
    else
      var rest := Select(q[..|q| - 1], sameRow, last, keep);
      var c := q[|q| - 1];
      if InLine(sameRow, last, c) == keep then rest + [c] else rest
  }

  /** The queue after direction prioritisation: when the last two hits share
      a row (or else a column), the cells on that line move to the front,
      both groups keeping their order; otherwise the queue is left alone. */
  function Prioritize(q: seq<Position>, hits: seq<Position>): seq<Position>
  {
    if |hits| < 2 then q
    else
      var last := hits[|hits| - 1];
      var second := hits[|hits| - 2];
      var sameRow := last.row == second.row;
      var sameCol := last.col == second.col;
      if !sameRow && !sameCol then q
      else Select(q, sameRow, last, true) + Select(q, sameRow, last, false)
  }

  lemma {:induction false} SelectShape(q: seq<Position>, sameRow: bool, last: Position, keep: bool)
    ensures forall x :: x in Select(q, sameRow, last, keep) <==> x in q && InLine(sameRow, last, x) == keep
    ensures Distinct(q) ==> Distinct(Select(q, sameRow, last, keep))
  {
    if q != [] {
      var init := q[..|q| - 1];
      SelectShape(init, sameRow, last, keep);
      assert q == init + [q[|q| - 1]];
    }
  }

  lemma {:induction false} SelectSplits(q: seq<Position>, sameRow: bool, last: Position)
    ensures multiset(Select(q, sameRow, last, true)) + multiset(Select(q, sameRow, last, false)) == multiset(q)
  {
    if q != [] {
      var init := q[..|q| - 1];
      SelectSplits(init, sameRow, last);
      assert q == init + [q[|q| - 1]];
    }
  }

  lemma {:induction false} SelectAppend(a: seq<Position>, b: seq<Position>, sameRow: bool, last: Position, keep: bool)
    ensures Select(a + b, sameRow, last, keep) == Select(a, sameRow, last, keep) + Select(b, sameRow, last, keep)
  {
    if b != [] {
      var init := b[..|b| - 1];
      SelectAppend(a, init, sameRow, last, keep);
      assert (a + b)[..|a + b| - 1] == a + init;
    } else {
      assert a + b == a;
    }
  }

  lemma {:induction false} SelectAll(q: seq<Position>, sameRow: bool, last: Position, keep: bool)
    requires forall i :: 0 <= i < |q| ==> InLine(sameRow, last, q[i]) == keep
    ensures Select(q, sameRow, last, keep) == q
    ensures Select(q, sameRow, last, !keep) == []
  {
    if q != [] {
      SelectAll(q[..|q| - 1], sameRow, last, keep);
    }
  }

  /** Prioritising only reorders the queue. */
  lemma PrioritizeIsPermutation(q: seq<Position>, hits: seq<Position>)
    ensures multiset(Prioritize(q, hits)) == multiset(q)
  {
    if |hits| >= 2 {
      var last := hits[|hits| - 1];
      SelectSplits(q, last.row == hits[|hits| - 2].row, last);
    }
  }

  /** After prioritising on a line, no cell off the line comes before a cell
      on it. */
  lemma PrioritizeInLineFirst(q: seq<Position>, hits: seq<Position>)
    requires |hits| >= 2
    requires var last := hits[|hits| - 1];
      last.row == hits[|hits| - 2].row || last.col == hits[|hits| - 2].col
    ensures var last := hits[|hits| - 1];
      var sameRow := last.row == hits[|hits| - 2].row;
      var r := Prioritize(q, hits);
      forall i, j :: 0 <= i < j < |r| && InLine(sameRow, last, r[j]) ==> InLine(sameRow, last, r[i])
  {
    var last := hits[|hits| - 1];
    var sameRow := last.row == hits[|hits| - 2].row;
    var front := Select(q, sameRow, last, true);
    var back := Select(q, sameRow, last, false);
    SelectShape(q, sameRow, last, true);
    SelectShape(q, sameRow, last, false);
    var r := front + back;
    forall i, j | 0 <= i < j < |r| && InLine(sameRow, last, r[j])
      ensures InLine(sameRow, last, r[i])
    {
      assert r[i] in front;
    }
  }

  /** Prioritising keeps the queue free of duplicates. */
  lemma PrioritizeDistinct(q: seq<Position>, hits: seq<Position>)
    requires Distinct(q)
    ensures Distinct(Prioritize(q, hits))
    ensures forall x :: x in Prioritize(q, hits) <==> x in q
  {
    if |hits| >= 2 {
      var last := hits[|hits| - 1];
      var sameRow := last.row == hits[|hits| - 2].row;
      var front := Select(q, sameRow, last, true);
      var back := Select(q, sameRow, last, false);
      SelectShape(q, sameRow, last, true);
      SelectShape(q, sameRow, last, false);
      var r := front + back;
      forall i, j | 0 <= i < j < |r|
        ensures r[i] != r[j]
      {
        if i < |front| && j >= |front| {
          assert r[i] in front && r[j] in back;
        }
      }
    }
  }

  /** A queue already ordered line first is kept as it is by a stable
      partition on that line. */
  lemma {:induction false} PartitionedSelect(front: seq<Position>, back: seq<Position>, sameRow: bool, last: Position)
    requires forall i :: 0 <= i < |front| ==> InLine(sameRow, last, front[i])
    requires forall i :: 0 <= i < |back| ==> !InLine(sameRow, last, back[i])
    ensures Select(front + back, sameRow, last, true) + Select(front + back, sameRow, last, false) == front + back
  {
    SelectAll(front, sameRow, last, true);
    SelectAll(back, sameRow, last, false);
    SelectAppend(front, back, sameRow, last, true);
    SelectAppend(front, back, sameRow, last, false);
  }

  /** Prioritising twice changes nothing more: the result is already
      ordered line first, and a stable reordering keeps such a queue. */
  lemma PrioritizeIdempotent(q: seq<Position>, hits: seq<Position>)
    ensures Prioritize(Prioritize(q, hits), hits) == Prioritize(q, hits)
  {
    if |hits| >= 2 {
      var last := hits[|hits| - 1];
      var sameRow := last.row == hits[|hits| - 2].row;
      if last.row == hits[|hits| - 2].row || last.col == hits[|hits| - 2].col {
        var front := Select(q, sameRow, last, true);
        var back := Select(q, sameRow, last, false);
        SelectShape(q, sameRow, last, true);
        SelectShape(q, sameRow, last, false);
        assert forall i :: 0 <= i < |front| ==> front[i] in front;
        assert forall i :: 0 <= i < |back| ==> back[i] in back;
        PartitionedSelect(front, back, sameRow, last);
      }
    }
  }

  class AIState {
    var mode: Mode
    var targetQueue: seq<Position>
    var lastHit: Option<Position>
    var hits: seq<Position>

    /** The queue holds board cells, each once, and is empty while hunting. */
    ghost predicate Valid()
      reads this
    {
      && (forall i :: 0 <= i < |targetQueue| ==> InBounds(targetQueue[i]))
      && Distinct(targetQueue)
      && (mode == Hunt ==> targetQueue == [])
    }

    /** Hunting, with nothing queued, no last hit and no hits. */
    constructor ()
      ensures Valid()
      ensures mode == Hunt && targetQueue == [] && lastHit == None && hits == []
    {
      mode := Hunt;
      targetQueue := [];
      lastHit := None;
      hits := [];
    }

    /** Picks the next shot at board `b`. In target mode the queue is popped
        until an available cell comes up, which is the shot. When the queue
        runs dry the AI goes back to hunting and picks a random available
        cell, failing only when none is left. */
    method CalculateAIShot(b: array2<Cell>) returns (r: Result<Position>)
      requires Valid() && IsBoard(b)
      modifies this
      ensures Valid()
      ensures hits == old(hits) && lastHit == old(lastHit)
      ensures var s := Skip(Snap(b), old(targetQueue));
        old(mode) == Target && s != [] ==>
          mode == Target && r == Ok(s[0]) && targetQueue == s[1..]
      ensures var s := Skip(Snap(b), old(targetQueue));
        old(mode) == Hunt || s == [] ==>
          && mode == Hunt && targetQueue == []
          && (r.Err? <==> AvailableCells(Snap(b)) == [])
          && (r.Err? ==> r.message == NoCellsError)
          && (r.Ok? ==> r.value in AvailableCells(Snap(b)))
      ensures r.Ok? ==> InBounds(r.value) && Available(Snap(b), r.value)
      ensures old(mode) == Target && old(targetQueue) != [] ==> |targetQueue| < |old(targetQueue)|
    {
      ghost var g := Snap(b);
      ghost var q0 := targetQueue;
      SkipShape(g, q0);
      AvailableCellsIff(g);
      while mode == Target && |targetQueue| > 0
        invariant Valid()
        invariant mode == old(mode) && hits == old(hits) && lastHit == old(lastHit)
        invariant mode == Target ==> Skip(g, targetQueue) == Skip(g, q0)
        invariant |targetQueue| <= |q0|
        decreases |targetQueue|
      {
        var target := targetQueue[0];
        ghost var before := targetQueue;
        targetQueue := targetQueue[1..];
        assert forall i :: 0 <= i < |targetQueue| ==> targetQueue[i] == before[i + 1];
        if IsCellAvailable(b, target) {
          return Ok(target);
        }
      }
      if mode == Target && |targetQueue| == 0 {
        mode := Hunt;
      }
      r := GetRandomAvailableCell(b);
    }

    /** Moves queued cells on the line of the last two hits to the front. */
    method PrioritizeDirection()
      requires Valid()
      modifies this
      ensures Valid()
      ensures targetQueue == Prioritize(old(targetQueue), hits)
      ensures mode == old(mode) && lastHit == old(lastHit) && hits == old(hits)
    {
      PrioritizeDistinct(targetQueue, hits);
      if |hits| < 2 {
        return;
      }
      var latest := hits[|hits| - 1];
      var previous := hits[|hits| - 2];
      var sameRow := latest.row == previous.row;
      var sameCol := latest.col == previous.col;
      if !sameRow && !sameCol {
        return;
      }
      var front: seq<Position> := [];
      var back: seq<Position> := [];
      for i := 0 to |targetQueue|
        invariant front == Select(targetQueue[..i], sameRow, latest, true)
        invariant back == Select(targetQueue[..i], sameRow, latest, false)
      {
        assert targetQueue[..i + 1][..i] == targetQueue[..i];
        if InLine(sameRow, latest, targetQueue[i]) {
          front := front + [targetQueue[i]];
        } else {
          back := back + [targetQueue[i]];
        }
      }
      assert targetQueue[..|targetQueue|] == targetQueue;
      ghost var q0 := targetQueue;
      targetQueue := front + back;
      assert forall i :: 0 <= i < |targetQueue| ==> targetQueue[i] in q0;
    }

    /** Learns from the last shot at `p`. A miss changes nothing. A hit is
        recorded; a sinking hit returns to hunting with an empty queue and
        no last hit; any other hit switches to target mode, queues the
        cell's neighbours that are not queued yet and prioritises the line. */
    method UpdateAIState(p: Position, wasHit: bool, wasSunk: bool)
      requires Valid()
      modifies this
      ensures Valid()
      ensures !wasHit ==>
        mode == old(mode) && targetQueue == old(targetQueue) && lastHit == old(lastHit) && hits == old(hits)
      ensures wasHit ==> hits == old(hits) + [p]
      ensures wasHit && wasSunk ==> mode == Hunt && targetQueue == [] && lastHit == None
      ensures wasHit && !wasSunk ==>
        && mode == Target && lastHit == Some(p)
        && targetQueue == Prioritize(AppendNew(old(targetQueue), OnBoard(Neighbours(p))), hits)
    {
      if !wasHit {
        return;
      }
      hits := hits + [p];
      lastHit := Some(p);
      if wasSunk {
        mode := Hunt;
        targetQueue := [];
        lastHit := None;
        return;
      }
      mode := Target;
      var adjacent := GetAdjacentCells(p);
      ghost var q0 := targetQueue;
      OnBoardShape(Neighbours(p));
      for i := 0 to |adjacent|
        invariant targetQueue == AppendNew(q0, adjacent[..i])
        invariant hits == old(hits) + [p] && mode == Target && lastHit == Some(p)
      {
        assert adjacent[..i + 1][..i] == adjacent[..i];
        var cell := adjacent[i];
        if cell !in targetQueue {
          targetQueue := targetQueue + [cell];
        }
      }
      assert adjacent[..|adjacent|] == adjacent;
      AppendNewShape(q0, adjacent);
      assert forall i :: 0 <= i < |targetQueue| ==> targetQueue[i] in targetQueue;
      if |hits| >= 2 {
        PrioritizeDirection();
      }
    }
  }

  /** After a hit that does not sink, the queue holds what it held before
      and every on-board neighbour of the hit cell, and nothing else, each
      once. */
  lemma QueueAfterHit(q: seq<Position>, p: Position, hits: seq<Position>)
    requires Distinct(q)
    ensures var r := Prioritize(AppendNew(q, OnBoard(Neighbours(p))), hits);
      && Distinct(r)
      && forall x :: x in r <==> x in q || (InBounds(x) && Orthogonal(p, x))
  {
    AdjacentCellsShape(p);
    AppendNewShape(q, OnBoard(Neighbours(p)));
    PrioritizeDistinct(AppendNew(q, OnBoard(Neighbours(p))), hits);
  }
}
