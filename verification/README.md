# Roguelike engine model

A Dafny model of the engine behind a small seeded, turn-based roguelike.
It has three layers.

- **Random generator.** A 32-bit linear congruential generator, `Rng`,
  whose state every caller threads explicitly.
- **Dungeon generator.** `MapGen` carves rooms into an all-wall 60 x 30
  grid and joins them with L-shaped corridors. It then lists the floor
  cells in row-major order.
- **Game state machine.** In `Game`, the player moves or attacks, the
  enemies answer, the floor is won or lost, and the next floor is set up.
  A five-entry message log records what happened.

Every operation is a pure function from a state to the next state. The
generator travels inside the state. Where the source throws during floor
setup, the model returns a `Failure` carrying a `GenError`.

Files:

- `types.dfy` (module `Types`): tiles, positions, entities, status, log
  entries, and the `Option`/`Result` wrappers.
- `rng.dfy` (module `Rng`): the generator.
- `map.dfy` (module `MapGen`): room placement, carving and the floor scan.
- `game.dfy` (module `Game`): the log, moves, the enemy turn, pursuit,
  the state invariant `Valid` that every move keeps, floor setup, reset
  and descent.
- `game_proofs.dfy` (module `GameProofs`): the invariant across floor
  setup, reset and descent, plus properties of whole moves and of the log.

Some definitions follow the source directly and are not listed in the
table; the members in the table are stated in their terms:

- `Rng.Step`: one LCG step, src/engine/rng.ts:9.
- `Rng.Advance`: n successive steps, the state reached after n draws,
  src/engine/rng.ts:8-11.
- `MapGen.Intersects`: the padded room test, src/engine/map.ts:92-94.
- `MapGen.CollidesAny`: the new room intersects some accepted room,
  src/engine/map.ts:30.
- `Game.Exhausted`: all 1000 picks from a generator state land in a
  given set of tiles, src/engine/game.ts:134-141.
- `Game.DIRECTIONS` and `Game.Neighbour`: the four step directions in
  their order, src/engine/game.ts:5-10 and 173-175; every step lands on
  an adjacent cell.
- `Game.IsWalkable`: inside the grid and a floor tile,
  src/engine/game.ts:130-132.
- `Game.IsAdjacent`: Manhattan distance exactly 1,
  src/engine/game.ts:165-167.
- `Game.CanEnemyMoveTo` (and `Game.MoveTest`, the same test as a
  function value): walkable, not the player's cell, and held by no enemy
  with another id, src/engine/game.ts:120-128.

## Model

| member | source | states |
|---|---|---|
| Rng.Create | src/engine/rng.ts:4-6 | the state is the seed reduced modulo 2^32, so it is congruent to the seed, negative seeds included |
| Rng.Next | src/engine/rng.ts:8-11 | advances the state exactly one LCG step; the result lies in [0, 1), is below 0.5 exactly when the new state is below 2^31, and times 2^32 gives the new state back |
| Rng.Int | src/engine/rng.ts:13-15 | advances like `next`; the value is min + floor(state * (max - min + 1) / 2^32), which lies in [min, max] whenever min <= max |
| Rng.Pick | src/engine/rng.ts:17-19 | on a non-empty list, advances like `next` and returns the element at an in-range index that scales the new state onto the list |
| Rng.RunAdvancesPerCall | src/engine/rng.ts:8-15 | any sequence of draws produces one output per draw and ends at the state reached by exactly that many LCG steps, whatever the arguments |
| Rng.SeedsAgreeModulo | src/engine/rng.ts:4-15 | seeds congruent modulo 2^32 build the same generator and yield identical draw sequences |
| MapGen.AllWalls | src/engine/map.ts:19 | the starting grid has `height` rows of `width` cells and no floor cell |
| MapGen.CarveRoom | src/engine/map.ts:64-70 | every cell of the room becomes floor, no floor is lost, and every cell outside the room is unchanged |
| MapGen.CarveHorizontal | src/engine/map.ts:72-78 | row y from min(x1, x2) to max(x1, x2) becomes floor and nothing outside that run changes |
| MapGen.CarveVertical | src/engine/map.ts:80-86 | column x from min(y1, y2) to max(y1, y2) becomes floor and nothing outside that run changes |
| MapGen.Center | src/engine/map.ts:88-90 | the floor of x + w/2 computed on reals equals the integer x + w div 2 (likewise for y), and the centre lies inside any room of positive size |
| MapGen.SeparatedRooms | src/engine/map.ts:92-94 | cells of two rooms that pass the padded intersection test are at least three apart on some axis, so at least two cells outside both rooms lie between them on that axis |
| MapGen.IntersectsSymmetric | src/engine/map.ts:92-94 | the padded intersection test is symmetric |
| MapGen.Corridor | src/engine/map.ts:35-45 | either orientation of the L joins the two centres with a floor path and keeps every existing floor cell |
| MapGen.Accept | src/engine/map.ts:34-46 | accepting a fitting, non-colliding room keeps the layout invariant: every room fits and is carved, no two rooms intersect, consecutive centres are linked |
| MapGen.PlaceRooms | src/engine/map.ts:23-50 | the loop keeps the layout invariant, only adds floor, accepts at most 14 rooms and at most one per attempt, stops within 120 attempts, runs all 120 unless it reached 14 rooms, and accepts the first room of a fresh run |
| MapGen.ScanRow | src/engine/map.ts:54-58 | the list holds exactly the floor cells of row y from x on, in increasing x |
| MapGen.ScanRows | src/engine/map.ts:52-59 | the list holds exactly the floor cells of the scanned rows, in strict row-major order |
| MapGen.RowMajorDistinct | src/engine/map.ts:52-59 | the floor list has no repeated cell |
| MapGen.GenerateLayout | src/engine/map.ts:18-50 | generation accepts between 1 and 14 rooms within 120 attempts, all fitting and carved, chained by corridors, and no two of them intersecting under the padded test, in either argument order |
| MapGen.GenerateDungeon | src/engine/map.ts:18-62 | the dungeon has the requested size, its floor list is exactly its floor cells in row-major order, and the list is never empty |
| Game.Log | src/engine/game.ts:159-162 | the new entry comes first, followed by the previous entries in order, and the log is cut to min(old length + 1, 5) |
| GameProofs.LogKeepsNewest | src/engine/game.ts:159-162 | logging several entries one by one leaves them newest first, followed by the old log, cut to five |
| GameProofs.LogHoldsLastFive | src/engine/game.ts:159-162 | after at least five entries, the log is exactly the last five, newest first |
| Game.EnemyAt | src/engine/game.ts:144-146 | no index exactly when no enemy stands on the cell; otherwise the first enemy, in list order, standing on it |
| Game.RemoveId | src/engine/game.ts:57 | the filter never lengthens the list; `RemoveIdMembers` states which enemies survive |
| Game.RemoveIdMembers | src/engine/game.ts:57 | the survivors of the filter are exactly the enemies whose id differs |
| Game.NoIdRemoved | src/engine/game.ts:57 | filtering by an id no enemy carries leaves the list unchanged |
| Game.RemoveIdUnique | src/engine/game.ts:57 | with unique ids, filtering out the k-th enemy's id removes exactly position k and keeps the order |
| Game.BestFrom | src/engine/game.ts:173-184 | scanning the directions from k on, starting from the first nearest allowed one among the first k, ends at the first allowed direction at minimal distance among all four, or at none when none is allowed |
| Game.BestDirection | src/engine/game.ts:169-187 | no direction exactly when no neighbour is allowed; otherwise the first allowed direction, in +x, -x, +y, -y order, at minimal distance to the target |
| Game.BestStep | src/engine/game.ts:169-187 | no step exactly when no neighbour is allowed; otherwise an allowed, adjacent cell no farther from the target than any other allowed neighbour |
| Game.EnemyAct | src/engine/game.ts:105-116 | an adjacent enemy stays put and costs the player 2 hit points; any other enemy takes the neighbour in the direction `BestDirection` picks under the live occupancy test, or stays when that test allows no neighbour; no other enemy changes |
| Game.EnemyActOccupancy | src/engine/game.ts:105-116 | one enemy's action keeps everyone on distinct walkable cells and ids unique |
| Game.EnemyTurnFrom | src/engine/game.ts:104-118 | the enemies from index i on act in list order: those before i are untouched, the player loses 2 per enemy from i on that was adjacent when it acted, ids and hit points are kept, adjacent enemies stay, others stay or step to a free walkable neighbour |
| Game.EnemyTurn | src/engine/game.ts:104-118 | the player loses 2 hit points per enemy that was adjacent when it acted; adjacent enemies stay; others stay or step onto a walkable free cell next to them; all positions stay distinct; which cell a moving enemy takes is stated by `EnemyTurnGreedy` |
| Game.ActFrom | src/engine/game.ts:105-117 | the enemies before k act in list order, and enemy k and those after it are still where they started |
| Game.TurnFromActs | src/engine/game.ts:105-117 | every enemy ends the turn where its own action put it, taken on the positions the enemies before it left |
| Game.EnemyTurnGreedy | src/engine/game.ts:104-118 | over a whole turn, an enemy next to the player stays put; any other takes the first nearest free neighbour as judged on the positions the enemies before it left, and stays exactly when none of its four neighbours is free then |
| Game.CountAdjacentFrame | src/engine/game.ts:104-118 | the damage count depends only on the enemies' positions |
| Game.Attack | src/engine/game.ts:53-63 | an enemy above 4 hit points loses 4 and the status stays; otherwise it is filtered out and the floor is won exactly when none remain; the player, dungeon and generator are untouched |
| Game.PlayerAct | src/engine/game.ts:52-67 | a free target moves the player there; an occupied one is a blow on the first enemy standing there, and the player stays put |
| Game.UpdateStatus | src/engine/game.ts:152-157 | the run is lost when the player's hit points are at or below zero, without clamping; otherwise the status is kept |
| Game.AttemptMove | src/engine/game.ts:39-71 | a no-op unless playing; a bump into a wall or off the board only logs the bump; a walkable move is one turn; the dungeon, floor and generator are kept, positions stay distinct and the log stays at five entries or fewer; a valid state stays valid |
| Game.TakeTurn | src/engine/game.ts:52-70 | the player ends where the player's half left it and loses 2 hit points per enemy adjacent to that cell after the player's half; the run is lost exactly at or below zero, otherwise the status of the player's half stands; no enemy is added or removed by the enemy turn; a valid state stays valid |
| Game.PlayerActOccupancy | src/engine/game.ts:52-67 | the player's half onto a walkable cell keeps everyone on distinct walkable cells |
| Game.PlayerActReady | src/engine/game.ts:52-67 | from a valid state in play, the player's half leaves everyone apart, the player alive at or below 20, the floor won exactly when no enemy is left, and live enemies at 1..8 |
| Game.TurnKeepsValid | src/engine/game.ts:104-118 | from such a state, the enemy turn followed by the status update gives a valid state |
| Game.LogKeepsValid | src/engine/game.ts:159-162 | one more log entry keeps a valid state valid |
| Game.FindOpenTile | src/engine/game.ts:134-142 | fails only when all 1000 picks landed on used tiles; otherwise returns the first pick outside the used set, with the generator advanced once per pick |
| Game.PlaceEnemies | src/engine/game.ts:96-100 | enemy i gets id i + 1 and 8 of 8 hit points on a listed floor tile outside the used set, with no two enemies on one tile; the only error is the missing open tile |
| Game.PlaceEnemiesFails | src/engine/game.ts:96-100 | placement fails only when some enemy's 1000 picks all landed in the used set, which then holds the starting tiles plus one tile per enemy placed before it |
| Game.ListedIsWalkable | src/engine/game.ts:130-132 | on a generated dungeon, a cell is walkable exactly when it is in the floor list |
| Game.NewFloor | src/engine/game.ts:84-102 | the only error is the missing open tile, never the missing floor (`NewFloorFails` says when it arises); otherwise the floor list is non-empty, there are 5 to 10 enemies, the player's hit points, the floor number and the status are kept, and exactly the floor entry is logged |
| Game.NewFloorFails | src/engine/game.ts:84-102 | `newFloor` fails only with the missing open tile, and only when one enemy's 1000 picks all landed on at most 10 tiles of the generated floor: the spawn and the enemies placed before it |
| Game.NewFloorFresh | src/engine/game.ts:84-102 | a new floor has a consistent 60 x 30 dungeon, everyone on distinct walkable cells, and enemies with ids 1..n at 8 of 8 hit points |
| Game.NewGame | src/engine/game.ts:24-27 | a new game is on floor 1, playing, with the player at 20 of 20 and a log of exactly the new-floor entry |
| Game.Reset | src/engine/game.ts:29-37 | the only error is the missing open tile (`ResetFails` says when it arises); otherwise floor 1, playing, full hit points, and a log of exactly the new-floor entry above the new-run entry |
| Game.ResetFails | src/engine/game.ts:29-37 | a reset fails only when, on the dungeon the new seed generates, one enemy's 1000 picks all landed on at most 10 tiles |
| Game.NextFloor | src/engine/game.ts:73-82 | a no-op unless the floor is won; otherwise the only error is the missing open tile (`NextFloorFails` says when it arises), and on success it is one floor deeper, playing, healed by 5 up to the maximum, on a new floor with 5 to 10 enemies, with the descent entry newest |
| Game.NextFloorFails | src/engine/game.ts:73-82 | descent fails only from a won floor, and only when, on the dungeon the current generator yields, one enemy's 1000 picks all landed on at most 10 tiles |
| GameProofs.FreshFloorValid | src/engine/game.ts:84-102 | a new floor built from a state in play with hit points in 1..20 is valid |
| GameProofs.NewGameValid | src/engine/game.ts:24-27 | a new game satisfies the state invariant and is in play |
| GameProofs.ResetValid | src/engine/game.ts:29-37 | a reset of a valid state is valid |
| GameProofs.NextFloorValid | src/engine/game.ts:73-82 | descending from a valid state yields a valid state |
| Game.AttackKeepsCounts | src/engine/game.ts:53-63 | a blow wins exactly when it removes the last enemy, and the survivors keep 1..8 hit points |
| GameProofs.FreshEnemyDiesOnSecondHit | src/engine/game.ts:54-57 | an enemy at 8 survives the first blow at 4 and is removed by the second |
| GameProofs.LastKillWins | src/engine/game.ts:53-70 | the blow that removes the last enemy wins the floor in the same move, and the player neither moves nor takes damage |
| GameProofs.StepDamage | src/engine/game.ts:64-70 | after a step, the player stands on the target and loses 2 hit points per adjacent enemy; the run is lost exactly at or below zero |
| GameProofs.AttackDamage | src/engine/game.ts:52-70 | a blow leaves the player in place, and the damage taken counts the enemies adjacent after the blow |

## Left out

- The 3D raycast view, the canvas and keyboard front end, and seed parsing from the page are not part of this model.
- Message text: entries are constructors of `Message` whose fields are the numbers that the source interpolates into its strings.
- `next` is an exact `real`. The source's double is exact too, because the state is below 2^32. In `Int` the product `next() * n` is modelled exactly; in the source it is a double, and it is exact while |n| stays below 2^21, and every call in the engine has n at most 1800, the number of cells.
- Rng.Create: the source's `seed >>> 0` converts a non-integer or huge seed through ToUint32. The model takes an integer seed and reduces it modulo 2^32, which agrees for every integer.
- MapGen.GenerateDungeon: requires width >= 13 and height >= 11, so that every drawn room keeps a wall border of at least one cell (`Fits`) whatever the draws. The engine always calls it with 60 x 30.
- MapGen.GenerateDungeon: the source's "no floor tiles" error in `newFloor` is modelled, but it is provably unreachable, because the first attempt always accepts a room.
- After a throw in `newFloor`, the source leaves a partially updated game (new dungeon, moved player, a partial enemy list). The model returns only the `Failure`.
- The used set of "x,y" strings in `newFloor` is a `set<Pos>`; the string keys are injective on integer cells.
- Game.EnemyAt returns the index of the found enemy rather than an object reference, because the source mutates the found object in place.
- Game.FindOpenTile also returns the number of picks it took; the source returns only the tile.
- Game.NewGame: the field initialisers build the player at (0, 0) with no dungeon; the model uses an all-wall placeholder dungeon, which `NewFloor` replaces before anything reads it.
- Game.UpdateStatus: the hit points are not clamped at zero when the run is lost; `updateStatus` (src/engine/game.ts:152-157) leaves them negative, and so does the model.
