# Battleship rules engine in Dafny

This project models the rules engine of a two-player Battleship game on a
10×10 board. The engine covers:

- the coordinate check and the board of cells (EMPTY, SHIP, HIT, MISS, SUNK);
- ship footprints, the no-touching placement rule and placing a ship;
- the shot that marks a cell and damages or sinks a ship;
- building the fleet from a fleet configuration (1 carrier of 4, 2 battleships
  of 3, 3 cruisers of 2 and 4 submarines of 1 by default);
- the game state: two players, the SETUP → BATTLE → GAME_OVER phases, the
  turn switch and victory detection;
- the turn processor, which validates a shot, fires it, updates statistics
  and the count of ships remaining, decides the game and passes the turn on
  a miss;
- the computer opponent's hunt/target state machine;
- random automatic placement of a fleet.

The source mutates boards, fleets, players, the game state and the AI state
in place. The model keeps that form:

- a board is an `array2<Cell>`, a fleet an `array<Ship>`;
- `Player`, `GameState` and `AIState` are classes whose methods modify their
  fields.

Every in-place method is proved against a function on values. The board's
value is `Boards.Snap`. For example, `Combat.ProcessShot` leaves the board and
the fleet equal to `Combat.Shoot` of their old values. The properties of the
game are lemmas about those functions. The central one is
`CombatInvariant.Consistent`, the agreement between a board and its fleet:

- each ship's footprint lies on the board, marked with the ship's id;
- its hit count equals its footprint cells that are no longer SHIP;
- it is sunk exactly when none is left;
- every SHIP cell belongs to a ship of the fleet;
- ids are unique.

Placement and shots preserve that invariant. A shot adds one to the sunk count
exactly when it reports SUNK. With these facts, the turn processor keeps the
count of ships remaining equal to the ships that are not sunk. So "fleet
destroyed" and "no ships remaining" agree (`TurnManager.RemainingZeroIffDestroyed`).

Math.random is a parameter:

- the AI's random cell is any available cell (`:|`);
- automatic placement reads its random draws from a function `draws: nat -> Draw`.

## Model

| member | source | states |
|---|---|---|
| Types.ShipTypeValueInjective | src/types/game.ts:44-49 | the four ship types have four different lengths, so a length names its type |
| Types.DefaultFleetConfigShape | src/types/game.ts:144-149 | the default fleet is one carrier of 4, two battleships of 3, three cruisers of 2 and four submarines of 1: ten ships |
| Coordinates.PositionValidityExamples | src/utils/coordinates.ts:19-21 | corners and the centre are valid; a negative coordinate or one of 10 or more is not |
| Coordinates.IsPositionValid | src/utils/coordinates.ts:19-21 | a position is valid exactly when its row and its column both lie in 0..9; it has no contract of its own, and PositionValidityExamples checks the boundary cases |
| Boards.CreateEmptyBoard | src/logic/board.ts:19-37 | a fresh 10×10 board, not shared with any other, whose every cell is EMPTY, knows its own row and column, and has no ship id |
| Boards.IsCellEmpty | src/logic/board.ts:53-61 | a cell off the board is never reported empty |
| Boards.FreshBoardCellsEmpty | src/logic/board.ts:53-61 | on a new board a position is empty exactly when it lies on the board |
| ShipPlacement.ShipCellsShape | src/logic/ship-placement.ts:20-36 | a ship of length n covers exactly n cells, all different, and exactly the cells on its line from the anchor |
| ShipPlacement.ShipCellsInBoundsIff | src/logic/ship-placement.ts:27-33 | the whole footprint is on the board exactly when its first and last cells are |
| ShipPlacement.GetShipCells | src/logic/ship-placement.ts:20-36 | the loop yields the footprint, cell by cell from the anchor |
| ShipPlacement.TouchingIsADirection | src/logic/ship-placement.ts:56-60 | the eight direction offsets reach every cell that touches a cell, diagonals included |
| ShipPlacement.HasAdjacentShips | src/logic/ship-placement.ts:52-76 | true exactly when some touching cell on the board holds SHIP |
| ShipPlacement.CanPlaceShip | src/logic/ship-placement.ts:97-124 | true exactly when every footprint cell is on the board, EMPTY and touches no SHIP cell |
| ShipPlacement.PlaceShip | src/logic/ship-placement.ts:151-158 | the board becomes the old board with the footprint placed |
| ShipPlacement.PlaceOnGridAt | src/logic/ship-placement.ts:151-158 | placing marks exactly the footprint cells SHIP with the ship's id and leaves every other cell as it was |
| ShipPlacement.PlacePreservesNoTouch | src/logic/ship-placement.ts:97-124 | a placement the check allows keeps the board free of SHIP cells of different ships touching |
| ShipPlacement.PlacedShipBlocksNeighbours | src/logic/ship-placement.ts:106-121 | once a ship is on the board, no footprint that overlaps or touches it can be placed |
| ShipPlacement.EmptyGridPlaceable | src/logic/ship-placement.ts:106-121 | on an empty board a ship can be placed exactly when its footprint fits on the board |
| Combat.FindShipIndex | src/logic/combat.ts:34-36 | the index of the first ship with the id, or -1 when no ship has it |
| Combat.FindShipById | src/logic/combat.ts:34-36 | a ship is found exactly when one has the id, and the one found is in the fleet with that id |
| Combat.FindShipIndexUnique | src/logic/combat.ts:34-36 | with unique ids, looking up a ship's id finds that very ship |
| Combat.IsShipSunk | src/logic/combat.ts:20-22 | a ship is sunk once its hits reach its length; it has no contract of its own, and CombatInvariant.SunkIffNoPartLeft ties it to the board |
| Combat.GetAllShipsFromBoard | src/logic/combat.ts:50-65 | the ids listed are without repeats and are exactly the ids on SHIP cells |
| Combat.MarkShipAsSunk | src/logic/combat.ts:73-79 | the board becomes the old board with the ship's footprint set to SUNK |
| Combat.Shoot | src/logic/combat.ts:101-156 | MISS exactly when the cell was EMPTY or MISS, and then the cell reads MISS; the cell never stays EMPTY or SHIP; ships change only in hits and sunk flag; a shot off the ships leaves the fleet alone and never sinks; an already-shot cell leaves the board as it was |
| Combat.ProcessShot | src/logic/combat.ts:101-156 | the board, the fleet and the result in place are those of Shoot on the old board and fleet |
| Combat.ShootAgainChangesNothing | src/logic/combat.ts:110-116 | shooting the same cell twice changes nothing more and reports MISS again or HIT instead of SUNK |
| CombatInvariant.IntactBounds | src/logic/combat.ts:20-22 | the count of a footprint's SHIP cells is 0 exactly when none is SHIP and full exactly when all are |
| CombatInvariant.IntactPoint | src/logic/combat.ts:142 | hitting one SHIP cell of a footprint lowers its intact count by exactly one |
| CombatInvariant.SunkIffNoPartLeft | src/logic/combat.ts:20-22 | on a board that agrees with the ship, its hits reach its length exactly when none of its cells still reads SHIP |
| CombatInvariant.EmptyConsistent | src/logic/board.ts:19-37 | an empty board agrees with an empty fleet |
| CombatInvariant.PlacementKeepsConsistent | src/logic/ship-placement.ts:151-158 | placing a new ship that the check allows, with a fresh id, keeps board and fleet in agreement |
| CombatInvariant.OwnerOf | src/logic/combat.ts:125-139 | on an agreeing board every SHIP cell carries the id of a ship of the fleet whose footprint covers it, and that ship is found by id |
| CombatInvariant.FootprintsDisjoint | src/logic/ship-placement.ts:97-124 | on an agreeing board two ships never share a cell |
| CombatInvariant.ShotOnShip | src/logic/combat.ts:125-151 | a shot on a ship's SHIP cell adds one hit to that ship only; it sinks it exactly when no other cell of it is intact; it never hits a sunk ship and never reports MISS |
| CombatInvariant.ShotPreservesConsistency | src/logic/combat.ts:101-156 | every shot keeps board and fleet in agreement and raises the sunk count by one exactly when it reports SUNK |
| CombatInvariant.ShotCells | src/logic/combat.ts:142-149 | a shot on a ship sets the cell HIT and, when it sinks the ship, the whole footprint SUNK; no other cell changes |
| Players.Player.constructor | src/logic/player.ts:28-42 | a new player with the given id and name, a fresh empty board, no ships, none remaining and zero statistics |
| Players.ShipTypeName | src/logic/player.ts:105-118 | each type has its own lower-case name, at least seven letters long; ShipTypeNamesDiffer shows the names differ; the `'unknown'` default is unreachable (see Left out) |
| Players.ShipTypeNamesDiffer | src/logic/player.ts:105-118 | different ship types get different names |
| Players.NatToStringInjective | src/logic/player.ts:82-86 | the decimal counter text determines the number |
| Players.NewShipIdInjective | src/logic/player.ts:82-86 | a ship id name-k determines the type and the counter k |
| Players.ConfigOrderByValue | src/logic/player.ts:78 | the configuration is walked in ascending ship size |
| Players.CreateFleet | src/logic/player.ts:68-100 | the loops build exactly FleetOf(config) |
| Players.FleetPrefixShape | src/logic/player.ts:78-97 | after each ship type the fleet so far has the summed counts, only new ships of types seen so far, and unique ids |
| Players.FleetOfShape | src/logic/player.ts:85-93 | every built ship has its type's length, no hits, is afloat, sits horizontally at (0,0) with a non-empty id; ids are unique |
| Players.FleetOfCounts | src/logic/player.ts:78-97 | the fleet holds exactly the configured count of each type, none for a count of 0 or less |
| Players.DefaultFleet | src/__tests__/logic/player.test.ts:72-76 | the default fleet has ten ships: 1, 2, 3 and 4 of the four types |
| Players.SunkCountAll | src/logic/player.ts:141-149 | the sunk count equals the fleet size exactly when every ship is sunk |
| Players.IsFleetDestroyed | src/logic/player.ts:141-149 | a fleet is destroyed exactly when it has ships and all of them are sunk |
| GameStates.GetOpponent | src/logic/game-state.ts:119-121 | the opponent is never the player |
| GameStates.OpponentInvolution | src/logic/game-state.ts:119-121 | the opponent's opponent is the player |
| GameStates.BuiltFleetInBounds | src/logic/player.ts:85-93 | every ship of a built fleet has its footprint on the board |
| GameStates.GiveDefaultFleet | src/logic/game-state.ts:68-78 | a player without ships gets a fresh default fleet with all ships remaining; a player with ships keeps them |
| GameStates.GameState.constructor | src/logic/game-state.ts:27-44 | SETUP, player 1 to move, turn 0, no winner, two fresh named players with separate empty boards |
| GameStates.GameState.PlayerOf | src/types/game.ts:120-129 | the state holds exactly the two players, each under its own key |
| GameStates.GameState.CurrentPlayer | src/logic/game-state.ts:134-136 | the player whose turn it is |
| GameStates.GameState.OpponentPlayer | src/logic/game-state.ts:149-152 | the other player, never the current one |
| GameStates.GameState.InitializeGame | src/logic/game-state.ts:61-86 | outside SETUP nothing changes; in SETUP a player without ships gets the default fleet, the phase becomes BATTLE, player 1 moves, turn 1 |
| GameStates.GameState.SwitchTurn | src/logic/game-state.ts:104-107 | the turn passes to the opponent and the turn count rises by one |
| GameStates.GameState.CheckVictory | src/logic/game-state.ts:173-201 | outside BATTLE the winner stays; in BATTLE player 1 wins when player 2's fleet is destroyed, else player 2 when player 1's is, and the game ends; otherwise no winner and BATTLE goes on |
| GameStates.SwitchTwice | src/logic/game-state.ts:104-107 | two switches give the turn back and count two turns |
| TurnManager.CanShootAgain | src/logic/turn-manager.ts:43-45 | a player shoots again exactly after a HIT or SUNK |
| TurnManager.PhaseErrorsDiffer | src/logic/turn-manager.ts:89-99 | the error for a finished game differs from the one for a game not in BATTLE |
| TurnManager.SunkShipResolved | src/logic/turn-manager.ts:117-129 | a sunk ship is reported exactly on SUNK, and it is the sunk ship whose id was on the cell shot |
| TurnManager.RemainingZeroIffDestroyed | src/logic/turn-manager.ts:117-132 | with the books balanced, a fleet is destroyed exactly when it has ships and none remains |
| TurnManager.FreshFleetAccounted | src/logic/game-state.ts:68-78 | a fleet that agrees with its board, with no ship sunk and every ship counted as remaining, has balanced books, the premise of the turn bookkeeping |
| TurnManager.TurnAccounting | src/logic/turn-manager.ts:102-129 | a shot keeps board and fleet in agreement, and taking the reported sunk ship off the count keeps ships remaining equal to ships afloat |
| TurnManager.Tally | src/logic/turn-manager.ts:109-129 | one more shot fired; one more hit on HIT or SUNK, one more miss on MISS; one more ship destroyed for the shooter and one fewer remaining for the target exactly when a sunk ship is found |
| TurnManager.LandShot | src/logic/turn-manager.ts:106 | the target's board and fleet become Shoot of their old values, and balanced books stay balanced |
| TurnManager.FireAt | src/logic/turn-manager.ts:102-129 | the shot lands on the target, the statistics and ships remaining are updated, the shooter's board and fleet are untouched, and balanced books stay balanced |
| TurnManager.FireAtOpponent | src/logic/turn-manager.ts:100-129 | the current player fires at the opponent with the effects of FireAt |
| TurnManager.Conclude | src/logic/turn-manager.ts:132-140 | the winner is decided, the game ends exactly when there is one, and the turn passes only on a miss that decides nothing |
| TurnManager.PlayBattleTurn | src/logic/turn-manager.ts:100-147 | a BATTLE turn: the shot, its bookkeeping, the winner and the turn switch, with no error |
| TurnManager.ProcessTurn | src/logic/turn-manager.ts:78-148 | an off-board position or a phase other than BATTLE gives its error and changes nothing; otherwise the full battle turn |
| AI.AIState.constructor | src/logic/ai.ts:21-28 | hunt mode, empty queue, no last hit, no hits |
| AI.AdjacentCellsShape | src/logic/ai.ts:33-52 | the neighbours are exactly the on-board cells one step away up, down, left or right, each once |
| AI.AdjacentCellsOrder | src/logic/ai.ts:33-52 | the neighbours come in the order up, down, left, right, skipping those off the board |
| AI.AdjacentCellsExamples | src/logic/ai.ts:33-52 | the centre has four neighbours, a corner two |
| AI.GetAdjacentCells | src/logic/ai.ts:33-52 | the loop yields the on-board neighbours in order |
| AI.IsCellAvailable | src/logic/ai.ts:57-60 | a cell is available exactly when it is EMPTY or SHIP |
| AI.AvailableIffShotChangesBoard | src/logic/ai.ts:57-60 | a cell is available exactly when shooting it changes the board |
| AI.ShotUsesUpCell | src/logic/ai.ts:57-60 | a cell that has been shot is no longer available |
| AI.AvailableCellsIff | src/logic/ai.ts:105-114 | the scan lists exactly the available cells, in row-major order |
| AI.GetRandomAvailableCell | src/logic/ai.ts:105-121 | an error exactly when no cell is available, with the source's message; otherwise an available cell |
| AI.SkipShape | src/logic/ai.ts:80-91 | dropping the unavailable head of the queue leaves a suffix whose first cell, if any, is available |
| AI.AppendNewShape | src/logic/ai.ts:155-163 | adding neighbours keeps the queue as a prefix, adds exactly the new cells, and keeps it free of repeats |
| AI.PrioritizeIsPermutation | src/logic/ai.ts:181-202 | prioritising only reorders the queue |
| AI.PrioritizeInLineFirst | src/logic/ai.ts:181-202 | after two hits in a line, every cell in that line comes before every cell off it |
| AI.PrioritizeDistinct | src/logic/ai.ts:181-202 | prioritising keeps the same cells and no repeats |
| AI.PrioritizeIdempotent | src/logic/ai.ts:181-202 | prioritising twice is prioritising once |
| AI.AIState.CalculateAIShot | src/logic/ai.ts:78-100 | in target mode the first available queued cell is shot and the queue shrinks; with none left, or in hunt mode, the AI hunts with an empty queue and shoots any available cell, or reports that none is left |
| AI.AIState.PrioritizeDirection | src/logic/ai.ts:181-202 | the queue is reordered in-line first; nothing else changes |
| AI.AIState.UpdateAIState | src/logic/ai.ts:131-173 | a miss changes nothing; a hit is recorded; a sinking hit returns to hunt with an empty queue; a plain hit targets that cell and queues its new neighbours, prioritised |
| AI.QueueAfterHit | src/logic/ai.ts:149-169 | after a hit the queue holds exactly the old cells plus the hit's on-board neighbours, without repeats |
| AutoPlacement.Moved | src/logic/auto-placement.ts:52-59 | a placed ship keeps its id, length, hits and sunk flag and takes the drawn position and orientation |
| AutoPlacement.SortByLengthSorted | src/logic/auto-placement.ts:33 | the placing order is by non-increasing length, stable for equal lengths, and lists every ship once |
| AutoPlacement.PlacingOrderNoRepeats | src/logic/auto-placement.ts:33 | no ship is placed twice |
| AutoPlacement.OneByOneNoTouch | src/logic/auto-placement.ts:35-68 | ships placed one by one, each after passing the check, never touch |
| AutoPlacement.OneByOneConsistent | src/logic/auto-placement.ts:35-68 | ships placed one by one onto an empty board agree with the board as a fleet |
| AutoPlacement.ConsistentReordered | src/logic/auto-placement.ts:33 | a fleet that agrees with the board still agrees when its ships are listed under a rearrangement of their indices, as the sorted copy is of the array |
| AutoPlacement.AutoPlacedFleetConsistent | src/logic/auto-placement.ts:31-69 | when every ship of a new fleet with distinct ids is placed on an empty board, as AutoPlaceShips ensures on success, the board agrees with the fleet in its own array order |
| AutoPlacement.PlaceNext | src/logic/auto-placement.ts:52-59 | placing a ship that passes the check extends the one-by-one placement |
| AutoPlacement.TryPlaceShip | src/logic/auto-placement.ts:40-61 | at most 1000 draws are used; every draw before the one used does not fit; on success the ship is moved to the fitting draw and placed; on failure nothing changes |
| AutoPlacement.AutoPlaceShips | src/logic/auto-placement.ts:31-69 | ships change only in position and orientation; the board is the old one with the placed ships, in placing order, each placed after passing the check; success exactly when every ship is placed, else the error names the first ship that did not fit |

## Left out

- The user interface (`App.tsx`, `src/components`), the `setTimeout` AI delay, the barrel `index.ts` files and the floating-point accuracy shown on screen are not part of this model.
- Math.random: the AI's random cell is any available cell, and automatic placement reads a draws function; the probability distribution is not modelled.
- JavaScript numbers are unbounded integers here; no counter comes near 2^53.
- Combat.ProcessShot: requires the shot position on the board, where `processShot` would throw reading `board[row][col]`. It also requires every ship's footprint on the board, a stronger demand than the source makes: `markShipAsSunk` throws only when it sinks a ship whose footprint leaves the board, so a shot that sinks no such ship succeeds there. `GameStates.GameState.Valid` carries the same restriction in its `FleetInBounds` conjunct. Fleets built by `createFleet` start on the board (GameStates.BuiltFleetInBounds), and `autoPlaceShips` moves a ship only to a spot `canPlaceShip` accepts, so the fleets the engine builds always meet it.
- ShipPlacement.PlaceShip: requires the footprint on the board, for the same reason; callers only place after `canPlaceShip`.
- Combat.MarkShipAsSunk: requires the footprint on the board, for the same reason.
- AI.IsCellAvailable: requires the position on the board, for the same reason.
- Combat.Shoot: the final `return MISS` after the status switch cannot be reached, since the cell status enum is closed.
- Players.ShipTypeName: the `'unknown'` default cannot be reached, since the ship type enum is closed.
- Combat.GetAllShipsFromBoard: the order of the listed ids is not stated, only the set without repeats.
- AutoPlacement.SortByLength: an insertion sort that is stable by construction; the source relies on the engine's stable `Array.prototype.sort`.
- AI.Prioritize: the in-line cells move to the front with both groups in their old order, which is what the source's comparator gives under a stable `Array.prototype.sort`.
- Ship objects shared between the fleet array and other references are modelled by index into the fleet array; no other alias is kept.
- GameStates.GameState.CheckVictory: `Valid` requires a winner exactly in GAME_OVER, so a GAME_OVER state without a winner is excluded.
- `setPlayerShips` and `startBattle` are imported by `src/components/GameScreen.tsx` from `game-state.ts`, which does not define them; they are not modelled.
- AI.AIState.CalculateAIShot: the source retries through recursion after emptying the queue; the model uses a loop with the same effect.
