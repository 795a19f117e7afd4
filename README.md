# GameMap: a verified model of a Halite III bot's map and movement logic

This project models `hlt/GameMap.java`, the per-turn map of a Halite III bot, in Dafny. The map
is a wrap-around (toroidal) grid of cells. Each cell holds some halite, may be inspired, may
hold a structure (shipyard or dropoff) and may be marked as occupied by a ship. On that grid
the class provides:

- the toroidal geometry (`normalize`, `calculateDistance`, `getUnsafeMoves`);
- two single-step navigators that commit the first free greedy step (`naiveNavigate`, and
  `crashNavigate`, which also accepts an occupied structure);
- the affordability test `canMove`;
- a recursive conflict resolver for a whole fleet (`newNavigate`), which detects head-on swaps
  through `canSwap`;
- the enemy threat marker (`markEnemyShips`);
- the nearest-structure search (`getNearestDropoff`);
- the halite-per-distance target scan (`highestValueLocation`).

Files and modules:

- `optional.dfy` (`Optional`): `Option`, which stands for Java's nullable results.
- `geometry.dfy` (`Geometry`):
  - positions and directions;
  - Java's truncating `%` (`JavaRem`);
  - `Normalize`, `Distance` and `UnsafeMoves`, with their lemmas.
- `lists.dfy` (`Lists`): `ArrayList.remove(Object)` (`Remove`) and list filtering (`Except`).
- `world.dfy` (`World`):
  - cells, ships, players and commands;
  - the grid as rows of cells;
  - `Mark`, which is `markUnsafe` or `markSafe` on the cell a position wraps onto;
  - the threat marker's specification `Threaten`: a fold of `Mark` over the enemy ships'
    neighbours, with lemmas that say which ship a cell ends up marked with.
- `resolution.dfy` (`Resolution`): the vocabulary for the decisions `newNavigate` takes:
  - a decision is a move, a swap or a stay (`Event`);
  - `Replay` gives the occupancy a sequence of decisions leaves;
  - `Legal` says each decision was allowed where it was taken;
  - `CommandsOf` lists the commands the decisions emit.
- `steps.dfy` (`Steps`):
  - the state the resolver threads (`Snapshot`: occupancy, ships, pending list, commands);
  - the relation `Traced` between where it starts and where it is;
  - one lemma per kind of decision, showing that the decision keeps the relation.
- `resolver.dfy` (`Resolver`): `newNavigate` as a function, `Navigate`, one loop turn or
  recursive call per step, with lemmas that fix which decision it takes in each situation
  (free head, head-on swap, recursion into a blocker, blocked head, no candidates left), that
  work out two whole situations (a head-on pair, a boxed-in ship), and that show its run is a
  legal trace in the sense of `Steps.Traced`.
- `reservations.dfy` (`Reservations`): the cell each resolved ship ends the turn on, and the
  proof that no two resolved ships end on the same cell.
- `game_map.dfy` (`Navigation`):
  - the class `GameMap`, whose `cells` and `ships` fields its methods update in place;
  - the value-level algorithms those methods run: `Scan`, `Resolve`, `MarkEnemies` and
    `ScanValues`;
  - their specifications `FirstTaken`, `FirstMin` and `Highest`.

Ships live in an arena `ships: seq<Ship>`. A cell's occupant is an index into it, which stands
for Java's object reference. The game constants `MOVE_COST_RATIO` and `EXTRACT_RATIO` are the
fields `moveCostRatio` and `extractRatio`.

## Model

| member | source | states |
|---|---|---|
| Geometry.JavaRem | hlt/GameMap.java:43-47 | Java's `%` for a positive divisor: the remainder lies strictly between `-b` and `b` and carries the sign of the dividend |
| Geometry.Normalize | hlt/GameMap.java:43-47 | the wrapped position is always on the map: `0 <= x < width`, `0 <= y < height` |
| Geometry.WrapIsEuclidean | hlt/GameMap.java:43-47 | `((a % b) + b) % b` with Java's truncating `%` equals the mathematical (Euclidean) `a mod b` |
| Geometry.NormalizeIsMod | hlt/GameMap.java:43-47 | `normalize` is coordinate-wise Euclidean modulo the map size |
| Geometry.NormalizeInBounds | hlt/GameMap.java:43-47 | a position already on the map is left unchanged |
| Geometry.NormalizeIdempotent | hlt/GameMap.java:43-47 | normalizing twice is normalizing once |
| Geometry.NormalizePeriodic | hlt/GameMap.java:43-47 | shifting by whole map widths and heights does not change the wrapped cell |
| Geometry.OffsetNormalize | hlt/GameMap.java:20-23 | one step from the normal form reaches the same cell as one step from the raw position, so `at(position.directionalOffset(d))` does not depend on wrapping first |
| Geometry.OffsetIsUnitStep | hlt/GameMap.java:144 | `directionalOffset` moves exactly one unit along the direction's axis (EAST/WEST keep `y`, NORTH/SOUTH keep `x`), and STILL does not move |
| Geometry.Opposite | hlt/GameMap.java:192-201 | the opposite of a cardinal direction is the other direction on the same axis; STILL has none |
| Geometry.OppositeReturns | hlt/GameMap.java:191-208 | a step followed by a step in the opposite direction returns to the starting cell, so a swap exchanges the two ships' cells |
| Geometry.StepLeavesCell | hlt/GameMap.java:144-163 | on a map at least 2x2, a cardinal step always reaches a different cell |
| Geometry.Distance | hlt/GameMap.java:30-41 | the wrap-aware Manhattan distance never exceeds `width/2 + height/2` (integer halves) |
| Geometry.AxisDistance | hlt/GameMap.java:34-38 | on one axis, the shorter of the two ways round: `dx` or `width - dx`, and no longer than either |
| Geometry.AxisBound | hlt/GameMap.java:30-41 | on each axis `min(d, n - d)` lies between 0 and `n/2` |
| Geometry.DistanceSymmetric | hlt/GameMap.java:30-41 | `calculateDistance(a, b) == calculateDistance(b, a)` |
| Geometry.DistanceZeroIff | hlt/GameMap.java:30-41 | the distance is 0 exactly when both positions wrap onto the same cell |
| Geometry.DistancePositive | hlt/GameMap.java:30-41 | two different on-map positions are at a positive distance, so `highestValueLocation` never divides by zero |
| Geometry.UnsafeMoves | hlt/GameMap.java:49-73 | at most one horizontal direction, then at most one vertical one: one per axis on which the two wrapped cells differ, and none on an axis where they agree |
| Geometry.UnsafeMovesEmptyIff | hlt/GameMap.java:49-73 | no candidate exactly when source and destination wrap onto the same cell |
| Geometry.UnsafeMovesTie | hlt/GameMap.java:49-73 | when both ways round an axis are equally long, the candidate is EAST (horizontal) or SOUTH (vertical) |
| Geometry.AxisStepCloser | hlt/GameMap.java:49-73 | the step chosen on an axis shortens that axis's circular distance by exactly 1 |
| Geometry.UnsafeMovesCloser | hlt/GameMap.java:49-73 | one step in any returned direction lowers the toroidal distance to the destination by exactly 1 |
| Lists.Remove | hlt/GameMap.java:158-159 | `ArrayList.remove(Object)` leaves the list unchanged when the element is absent |
| Lists.Except | hlt/GameMap.java:138-189 | filtering keeps exactly the elements of the list that are not filtered out, and never lengthens it |
| Lists.RemoveDistinct | hlt/GameMap.java:158-159 | in a list with no duplicates, removing the first occurrence removes the element altogether |
| Lists.ExceptTwice | hlt/GameMap.java:138-189 | removing ships one batch after another is the same as removing them all at once |
| Lists.ExceptDistinct | hlt/GameMap.java:138-189 | `shipsToMove` stays free of duplicates as ships are removed |
| World.At | hlt/GameMap.java:20-23 | `at(position)` reads the cell the position wraps onto; a position on the map reads its own cell |
| World.SurroundingCardinals | hlt/GameMap.java:257 | `getSurroundingCardinals`: four distinct positions, each one unit step from the ship |
| World.Mark | hlt/GameMap.java:20-23 | `at(p).markUnsafe(s)` / `markSafe()`: only the cell `p` wraps onto changes, and in that cell only the occupant |
| World.MarkOccupants | hlt/GameMap.java:84-85 | marking with an arena ship keeps every occupant an arena index |
| World.MarkAllHits | hlt/GameMap.java:251-260 | a cell is marked with the ship when some position of the list wraps onto it, and is otherwise left as it was |
| World.MarkAllAt | hlt/GameMap.java:251-260 | a cell hit by a list of positions ends up holding the marking ship |
| World.MarkNeighboursAt | hlt/GameMap.java:256-257 | one enemy ship marks exactly its four wrapped cardinal neighbours with itself and changes nothing else |
| World.ThreatenUntouched | hlt/GameMap.java:251-260 | a cell no enemy ship is next to keeps its occupant |
| World.ThreatenLast | hlt/GameMap.java:251-260 | a threatened cell ends up holding the last enemy ship, in player and ship order, that is next to it |
| World.LastThreat | hlt/GameMap.java:251-260 | every threatened cell has such a last threatening ship |
| World.ThreatenKeepsCell | hlt/GameMap.java:251-260 | the marker never changes a cell's halite, inspiration or structure |
| World.ThreatenOccupants | hlt/GameMap.java:251-260 | after marking, every occupant is still an arena index |
| Resolution.CommandsMatchShips | hlt/GameMap.java:138-189 | the decisions emit exactly one command per resolved ship, in the same order, each carrying that ship's id (a move, a stay or its half of a swap) |
| Resolution.ShipsOfAppend | hlt/GameMap.java:138-189 | the ships resolved by a nested call follow those resolved before it |
| Resolution.CommandsOfAppend | hlt/GameMap.java:138-189 | `commands` is only ever appended to: a nested call's commands follow the earlier ones |
| Resolution.ReplayAppend | hlt/GameMap.java:138-189 | the occupancy after a nested call is the replay of its decisions from where the caller stood |
| Resolution.LegalAppend | hlt/GameMap.java:138-189 | a sequence of decisions is legal exactly when both halves are, each from where the one before ends |
| Resolution.LegalTransfer | hlt/GameMap.java:164-171 | popping candidates and setting `visited` flags does not make a decision taken earlier illegal |
| Resolution.CommandsTransfer | hlt/GameMap.java:164-171 | the commands depend on the ships only through their ids |
| Resolution.UnvisitedShrinks | hlt/GameMap.java:164-167 | `visited` flags are only ever set, so the number of unvisited ships never grows and drops when one is set (the resolver's termination measure) |
| Steps.TraceStart | hlt/GameMap.java:138-143 | before any decision, the resolver's state is what it started from |
| Steps.TraceCommit | hlt/GameMap.java:172-180 | a move is committed only to a cell that is unoccupied at that moment; the cell is marked with the mover, the source is cleared, `Move` is emitted, the mover leaves `shipsToMove` and has no candidates left |
| Steps.TraceSwap | hlt/GameMap.java:151-163 | a swap with the visited friendly blocker emits the mover's direction and its exact opposite, each ship's destination is the other's source, occupancy is unchanged and both ships leave `shipsToMove` |
| Steps.TraceVisit | hlt/GameMap.java:164-166 | the caller is marked visited before recursing, which lowers the number of unvisited ships |
| Steps.TraceNest | hlt/GameMap.java:164-168 | the recursive call's decisions continue the caller's; the caller is either still pending with its candidates unchanged, or already resolved by a swap inside the recursion |
| Steps.TracePop | hlt/GameMap.java:170-171 | after a blocked candidate or a recursion, the head candidate is dropped, not retried |
| Steps.TraceStay | hlt/GameMap.java:182-187 | a ship left without candidates while still pending stays still: `Stay` is emitted and the ship leaves `shipsToMove` |
| Navigation.CostIff | hlt/GameMap.java:210-214 | `ship.halite >= cellHalite / MOVE_COST_RATIO` holds exactly when `cellHalite < (ship.halite + 1) * MOVE_COST_RATIO` |
| Navigation.Takes | hlt/GameMap.java:225 | a navigator takes every free target; an occupied one only in `crashNavigate`, and only when it holds a structure (with `crash` false, the test at line 83) |
| Navigation.FirstTaken | hlt/GameMap.java:75-92 | the first candidate whose target `Takes` accepts, with no accepted one before it, or the length when none is accepted |
| Navigation.Scan | hlt/GameMap.java:81-91 | the candidate loop: the first accepted candidate, its target marked with the ship and the source cleared; otherwise `Still` and the grid unchanged |
| Navigation.FirstTakenCloser | hlt/GameMap.java:75-92 | the direction a navigator commits brings the ship exactly one step closer to its destination |
| Navigation.CrashSettlesNoLater | hlt/GameMap.java:217-233 | `crashNavigate` accepts a candidate no later than `naiveNavigate` does on the same grid |
| Navigation.GameMap.CanMove | hlt/GameMap.java:210-214 | a ship can move exactly when its cell's halite is below `(ship.halite + 1) * MOVE_COST_RATIO` |
| Navigation.GameMap.NaiveNavigate | hlt/GameMap.java:75-92 | `Still` with no cell changed when the ship cannot pay or no candidate target is free; otherwise the first free candidate, its target marked with the ship and its own cell cleared; the ships are unchanged |
| Navigation.GameMap.CrashNavigate | hlt/GameMap.java:217-233 | as `NaiveNavigate`, except that an occupied target holding a structure is also accepted |
| Navigation.GameMap.CanSwap | hlt/GameMap.java:191-208 | returns the opposite of `direction` exactly when that opposite appears anywhere in the blocker's list, and nothing otherwise (also for `Still`) |
| Resolver.Navigate | hlt/GameMap.java:138-189 | `newNavigate` terminates: each recursion marks an unvisited ship visited, and each loop turn drops a candidate. Visited flags are only ever set. Every ship keeps its candidates or has none left, and `s` has none left. |
| Resolver.NavigateCommitsFreeHead | hlt/GameMap.java:144-146 | when the head candidate's target is free, the resolver commits to it at once: the target is marked with `s`, its own cell cleared, `Move` emitted, `s` leaves `shipsToMove` with no candidates left, and nothing else happens |
| Resolver.NavigateSwapsWithVisited | hlt/GameMap.java:147-163 | when the head is blocked by a friendly pending ship that is already visited and has the exact opposite direction among its candidates, the two swap: both moves emitted (mover first), both leave `shipsToMove`, occupancy unchanged, and the call ends |
| Resolver.NavigateNests | hlt/GameMap.java:164-171 | when the head is blocked by a friendly pending ship not yet visited, `s` is marked visited, that ship is resolved first, and then the head is dropped, not retried, before the loop goes on |
| Resolver.NavigateDropsBlockedHead | hlt/GameMap.java:146-171 | any other blocker (enemy, threat mark, ship no longer pending, visited friend that cannot swap) makes `s` drop its head and try the next candidate, with nothing else changed |
| Resolver.NavigateStaysWhenSpent | hlt/GameMap.java:182-187 | out of candidates, a ship still in `shipsToMove` stays: `Stay` emitted, ship removed from the list; a ship already resolved inside a recursion is left alone |
| Resolver.NavigateHeadOn | hlt/GameMap.java:147-168 | two friendly pending ships blocking each other head-on in exactly opposite directions: resolving the first marks it visited and recurses into the second, which swaps with it; the second ship's move is emitted first, and nothing else happens |
| Resolver.NavigateBoxedInStays | hlt/GameMap.java:141-187 | a pending ship whose every candidate leads onto a ship that is not a friendly pending ship (an enemy, a threat mark, a ship already resolved) drops them all and stays still |
| Resolver.NavigateTraced | hlt/GameMap.java:138-189 | the run of `newNavigate` is a legal trace of decisions. The new occupancy is the trace's replay, and the new commands are the old ones followed by one per resolved ship. The resolved ships, `s` among them, leave `shipsToMove` and have no candidates left. No other ship changes. |
| Reservations.TraceReserves | hlt/GameMap.java:138-189 | along a legal trace that resolves pending ships at most once each, starting with the pending ships on distinct, occupied cells: no cell is reserved twice, and no reserved cell is the cell of a ship still to move |
| Reservations.MovedReserves | hlt/GameMap.java:172-180 | a committed move reserves a free cell, which no other resolved ship holds, and frees only the mover's own cell |
| Reservations.SwapReserves | hlt/GameMap.java:151-163 | a swap reserves the two ships' own cells, each for the other |
| Reservations.StayReserves | hlt/GameMap.java:182-187 | a ship that stays reserves its own cell |
| Reservations.ResolutionReserves | hlt/GameMap.java:138-189 | one resolution on a map at least 2x2, started with the pending ships on distinct occupied cells: no two resolved ships end on the same cell, none ends on the cell of a ship still to move, and the ships still to move stay on distinct occupied cells |
| Navigation.Resolve | hlt/GameMap.java:138-189 | the loop and recursion of `newNavigate` over the state it threads leave exactly the state `Resolver.Navigate` describes |
| Navigation.GameMap.NewNavigate | hlt/GameMap.java:138-189 | keeps `Valid`. The new `cells`, `ships`, `shipsToMove` and `commands` are `Resolver.Navigate`'s, so it takes the decisions the `Resolver` lemmas describe. Its decisions form a legal trace in which `s` is resolved. On a map at least 2x2 with the pending ships on distinct occupied cells, no two resolved ships end on the same cell. |
| Navigation.GameMap.constructor | hlt/GameMap.java:11-19 | a map of the given size whose grid has `height` rows of `width` cells, holding the cells and ships the turn's input gave it |
| Navigation.FirstMin | hlt/GameMap.java:235-241 | the index of the first least distance: every earlier site is strictly farther, no later one is closer |
| Navigation.GameMap.GetNearestDropoff | hlt/GameMap.java:235-241 | of the shipyard followed by the dropoffs, the first one at the least distance from the ship |
| Navigation.MarkNeighbours | hlt/GameMap.java:256-257 | one enemy ship marks its four cardinal neighbours in order |
| Navigation.MarkShips | hlt/GameMap.java:255-257 | one player's ships mark their neighbours on top of the marks earlier players left |
| Navigation.MarkEnemies | hlt/GameMap.java:251-260 | the grid after the loop is `Threaten` over the ships of every player other than `me`, in order |
| Navigation.GameMap.MarkEnemyShips | hlt/GameMap.java:251-260 | `cells` becomes `Threaten` of the old cells over every enemy ship; the ships are unchanged |
| Navigation.Baseline | hlt/GameMap.java:263 | the value of staying, `((h/EXTRACT_RATIO) + (h/MOVE_COST_RATIO)) * 6`, is at most `12 * h` and is 0 on an empty cell |
| Navigation.Value | hlt/GameMap.java:278-282 | a cell's halite per unit of distance is between 0 and the cell's halite, doubled at most when the cell is inspired |
| Navigation.HighestUnique | hlt/GameMap.java:262-292 | `Highest` determines the result: at most one position satisfies it |
| Navigation.ScanValues | hlt/GameMap.java:265-291 | the x-outer, y-inner scan with `>=` ends on the cell `Highest` describes |
| Navigation.GameMap.HighestValueLocation | hlt/GameMap.java:262-292 | the ship's own position unless some other cell's value reaches `((h/EXTRACT_RATIO) + (h/MOVE_COST_RATIO)) * 6`; otherwise a cell at least that valuable, no less valuable than any scanned cell and strictly more valuable than every cell after it in scan order (the last of equals wins); a cell's value is `(halite/dist)*2` when inspired, `halite/dist` otherwise |

## Left out

- `_update` and `_generate` read the turn's input through `Input.readInput`. They are I/O, and the model starts from the grid and ships they would produce (the `GameMap` constructor takes them).
- `bestDropoffLocation` is an unfinished stub that returns `null`.
- The `Log.log` calls in `newNavigate` are logging side effects only.
- Java `int` overflow is not modelled. Halite amounts and map sizes are small, so all arithmetic is on mathematical integers; every division has a positive divisor and a non-negative dividend, where truncation and flooring agree.
- `Constants.MOVE_COST_RATIO` and `Constants.EXTRACT_RATIO` are the constructor parameters `moveCostRatio` and `extractRatio` (required positive) rather than fixed values.
- `enemy.ships` is a `HashMap` whose iteration order is not specified (hlt/GameMap.java:256). That order decides which enemy ship a cell threatened by several ends up marked with (World.ThreatenLast). The model takes each player's ships as a sequence in whatever order the map iterates them.
- `me.dropoffs` is a `HashMap` whose iteration order is not specified. The model takes the dropoffs as a sequence in whatever order the map iterates them.
- Navigation.GameMap.HighestValueLocation drops the unused `me` parameter. It also drops the locals `bestDistance` and `tempDistance`, which are written but never read, and the commented-out dropoff term.
- Navigation.GameMap.HighestValueLocation and Navigation.GameMap.NaiveNavigate / CrashNavigate require the ship's position to be on the map (part of `Valid`), as the game engine guarantees. For an off-map position, `highestValueLocation`'s `equals` test would not skip the ship's own cell, and the division by a zero distance would throw.
- Navigation.GameMap.GetNearestDropoff takes the ship's value rather than an arena index. It reads only the ship's position, as the Java method does.
- Navigation.GameMap.NewNavigate requires `s in shipsToMove`. It also requires that any cell marked with a ship still in `shipsToMove` is that ship's own cell. This is the start-of-turn state its callers pass in: every occupant is where it stands, and the threat marks are enemy ships, which are never pending. With a stale mark a pending ship could be committed twice, which the code does not guard against.
- Navigation.GameMap.NewNavigate promises distinct destinations only when every ship in `shipsToMove` stands on its own cell and that cell is occupied (`Reservations.Anchored`). It does not require the cell to hold the ship itself, because `markEnemyShips` may overwrite it with an enemy's mark. Without the hypothesis the code can commit two ships to one cell: if a pending ship's cell is free, another ship can move in there and the pending ship can stay.
- Navigation.GameMap.NewNavigate states distinctness of the resolved ships (no ship gets two commands) only for maps at least 2x2. On a 1-wide or 1-high map, a step can land on the ship's own cell, and the code can then swap a ship with itself.
- Navigation.GameMap.NewNavigate runs on a value (`Snapshot`) and writes the resulting occupancy and ships back into the fields. In Java, `Ship` objects are shared between `shipsToMove`, the cells and the players, and are changed in place. The model changes ships through their arena index instead, so that aliasing is not modelled.
- The decision trace (`events`) returned by Navigation.GameMap.NewNavigate is a ghost out-parameter. It exists only to state the outcome and has no Java counterpart.
- After recursing into a blocker, `newNavigate` drops the current candidate even when the recursion freed its target (hlt/GameMap.java:164-171). The model follows the code, not a retry.
- `MyBot.java` is not part of this model. It is the bot's turn loop, spawn policy and ship classification over I/O classes not shown here, and it never calls `newNavigate`.
