# Scene2D game logic, modelled in Dafny

This project models the tile-grid game logic of a 2D platformer scene: the
tile map with its levels, its live-pickup ledger and its A* path finder
(`CMap2D`); the player with its keyboard moves, collisions, pickups and
damage cooldown (`CPlayer2D`); the enemies with their four-state machine
ATTACK / FLEE / KNOCKOUT / SUPPORT (`CEnemy2D`); and the scene that
registers the enemies and runs one game tick (`CScene2D`).

One module per source file:

- `map2d.dfy` (module `Map2D`): class `TileMap`. Its fields are the grid
  `cells: array3<int>` indexed by level, storage row and column, the current
  level, the live ledger `liveMap` and the clock. It also holds the A*
  scratch state: the open list, the came-from records and the closed flags,
  as `seq` fields the methods reassign. The ghost function `View()` gives
  the current level as a `seq<seq<int>>`. Its row 0 is the bottom row, in
  the map's default inverted addressing.
- `player2d.dfy` (module `Player2D`): class `Player`. Each keyboard branch
  of `Update` is specified by a function on a `Motion` value (index,
  micro-steps, physics status) over the view of the map. `GameManager`
  holds the win, lose and level flags.
- `enemy2d.dfy` (module `Enemy2D`): class `Enemy`. Movement is specified by
  `Advance` on a `Course` value (index, micro-steps, waypoints). The state
  machine is specified by `NextState` and `StageAfter`. `EnemyStatics`
  holds the two function-static locals of `CEnemy2D::Update` that every
  enemy shares: the SUPPORT stage and `nearestLiveFound`.
- `scene2d.dfy` (module `Scene2D`): the enemy registration loop and class
  `Scene`, whose `Update` runs one tick.

Modelling decisions:

- A tile read outside the grid reads as `OFF_GRID` (100, a solid code).
  In the source such reads are out of bounds, for example the player
  probing `x + 1` on the last column or an enemy looking below row 0.
- A path search with an endpoint off the grid returns an empty path. The
  source reads out of bounds there; enemies do target `(1000, 1000)` and
  `(-1, -1)`.
- A* costs are unbounded naturals. The heuristics' cast to `unsigned int`
  is written out as a wrap modulo 2^32. The euclidean heuristic is
  `floor(w * sqrt(d2))`, computed exactly by an integer square root.
  The open list is a sequence; its top is the first entry with the least
  `f`. The priority queue's order among equal `f` is not modelled.
- `BuildPath` clears a one-entry path in 8-direction mode whenever the
  start and target are more than one Manhattan step apart, so a diagonal
  neighbour gets no path (both branches of the source's test clear it).
  A walk of one entry only reaches a neighbour, so a straight target two
  tiles away keeps its two-entry path. The model keeps this; the
  completeness promises of the search exclude exactly the diagonal
  neighbour (one column and one row away).
- A target the search never recorded has a blank came-from record whose
  parent is `(0, 0)`, and `BuildPath` follows it. The path it returns then
  ends at the target but is a walk only when the target was reached; the
  contracts promise the walk only in that case.
- Float lengths in `FindNearestLive` are compared as squared distances,
  which gives the same order.
- `SetFSM` compares `char*` against string literals. It is modelled as an
  enumeration: Attack, Flee, KnockOut, and `SupportRequest`, which stands
  for every other name (the source's final `else`).
- Live-ledger keys are mixed, as in the source:
  - loading a map writes `(column, storage row)`;
  - the player and the enemies write `(column, inverted row)`;
  - the respawn pass writes the live tile back through inverted addressing.
  `TileMap.KeyOf` states that last convention.
- The scene's `Scene2D.NewEnemy` numbers the new enemy before `Init` rather
  than after a successful `Init` (`App/Source/Scene2D/Scene2D.cpp:116-119`).
  The difference cannot be observed: `Init` never reads or writes the number,
  and a failed enemy is dropped.
- Each enemy's live item holds 0 of at most 1. The GUI code sets this up
  (`App/Source/Scene2D/GUI_Scene2D.cpp:93`); here it is set by the
  `Enemy` constructor.

## Model

| member | source | states |
|---|---|---|
| Map2D.TileMap.constructor | App/Source/Scene2D/Map2D.cpp:310-373 | every tile of every level is 0; level 0, the clock at 0, an empty ledger, four directions, weight 1; an empty open list and one blank came-from record and one open closed-flag per cell of the dimensions passed |
| Map2D.TileMap.StorageRow | App/Source/Scene2D/Map2D.cpp:505-511 | inverted addressing maps row r to Rows()-1-r, plain addressing keeps r, and the result is a row of the grid |
| Map2D.TileMap.SetMapInfo | App/Source/Scene2D/Map2D.cpp:505-511 | the addressed tile of the current level holds the value afterwards and no other tile of any level changes |
| Map2D.TileMap.InvertedAddressing | App/Source/Scene2D/Map2D.cpp:519-525 | GetMapInfo reading row r inverted is reading row Rows()-1-r plain, and that row is on the grid |
| Map2D.TileMap.Probe | App/Source/Scene2D/Map2D.cpp:519-525 | an in-grid read is GetMapInfo in default addressing; a read off the grid gives the solid code OFF_GRID |
| Map2D.TileMap.ProbeShown | App/Source/Scene2D/Map2D.cpp:519-525 | a probe of the map equals the same cell of any view that shows the map, and a cell is on the view exactly when it is on the grid |
| Map2D.TileMap.BlockedAddressing | App/Source/Scene2D/Map2D.cpp:885-903 | isBlocked gives the same answer for row r inverted and row Rows()-1-r plain, and a blocked cell is never passable |
| Map2D.TileMap.ValidCell | App/Source/Scene2D/Map2D.cpp:870-880 | a valid cell is on the grid; on the bottom row only a code from 5 to 60 in the cell itself makes it valid; any in-grid cell above a ladder top or a floor block (100 to 120) is valid |
| Map2D.TileMap.PassableCell | App/Source/Scene2D/Map2D.cpp:731-733 | a cell the search may enter is on the grid and not solid; a code from 5 to 60 is always enterable; a background cell is enterable exactly when it stands on a ladder top or a floor block |
| Map2D.TileMap.FindValue | App/Source/Scene2D/Map2D.cpp:589-608 | found exactly when some tile of the current level holds the value; the cell returned holds it and no cell before it in row-major storage order does; the row is in the requested addressing |
| Map2D.TileMap.OccurrencesStored | App/Source/Scene2D/Map2D.cpp:589-608 | the view of the current level contains the value exactly when FindValue's storage scan can find it |
| Map2D.TileMap.SetCurrentLevel | App/Source/Scene2D/Map2D.cpp:613-619 | the level changes to the argument only when it names an existing level, otherwise it stays |
| Map2D.TileMap.SetDiagonalMovement | App/Source/Scene2D/Map2D.cpp:829-833 | eight neighbour directions when enabled, four otherwise |
| Map2D.DirectionLengths | App/Source/Scene2D/Map2D.cpp:327-329 | the first four neighbour offsets are axis steps (Manhattan length 1), the last four diagonals (length 2, one column and one row) |
| Map2D.TileMap.ConvertTo1D | App/Source/Scene2D/Map2D.cpp:908-912 | the row-major index of an in-grid cell is below the cell count and decodes back to the cell's row and column |
| Map2D.TileMap.ConvertTo1DInjective | App/Source/Scene2D/Map2D.cpp:908-912 | distinct in-grid cells have distinct row-major indices |
| Map2D.TileMap.LoadRow | App/Source/Scene2D/Map2D.cpp:544-556 | one CSV row is copied into one storage row of the level, no other tile changes, and its live tiles are added to the ledger as AVAILABLE without overwriting existing keys |
| Map2D.TileMap.LoadMap | App/Source/Scene2D/Map2D.cpp:530-558 | succeeds exactly when the grid has the map's dimensions; then the level equals the grid and the ledger is seeded; on failure nothing changes; other levels never change |
| Map2D.TileMap.Seeded | App/Source/Scene2D/Map2D.cpp:553-554 | the seeded ledger has the old keys plus one key per live tile, keeps every existing entry, and marks every new entry AVAILABLE |
| Map2D.TileMap.Respawned | App/Source/Scene2D/Map2D.cpp:996-1012 | the ledger keeps its keys; an entry taken more than five seconds ago becomes AVAILABLE, every other entry keeps its time |
| Map2D.TileMap.RespawnIdempotent | App/Source/Scene2D/Map2D.cpp:996-1012 | a second respawn pass at the same time changes nothing |
| Map2D.TileMap.RespawnLives | App/Source/Scene2D/Map2D.cpp:996-1012 | the ledger becomes Respawned, and exactly the tiles whose entry expired become live tiles again on the current level; no other tile changes |
| Map2D.TileMap.StampLive | App/Source/Scene2D/Player2D.cpp:484 | the ledger entry of the cell records the map's clock; every other entry is kept and the ledger stays on the grid |
| Map2D.TileMap.Update | App/Source/Scene2D/Map2D.cpp:378-383 | the map's clock becomes the scene time and the respawn pass runs at that time |
| Map2D.ManhattanH | App/Source/Scene2D/Map2D.cpp:961-965 | for a target up and right of the start the heuristic is the weighted Manhattan distance |
| Map2D.ManhattanTextbookIff | App/Source/Scene2D/Map2D.cpp:961-965 | with a positive weight the heuristic equals the weighted Manhattan distance if and only if the target is neither left of nor below the start (the source sums signed deltas) |
| Map2D.FloorSqrt | App/Source/Scene2D/Map2D.cpp:970-974 | the result is the integer square root: r*r <= n < (r+1)*(r+1) |
| Map2D.EuclideanH | App/Source/Scene2D/Map2D.cpp:970-974 | the magnitude is the floor of weight times the euclidean distance, and its sign follows the weight |
| Map2D.Unsigned32 | App/Source/Scene2D/Map2D.cpp:961-974 | the cast to unsigned int is below 2^32, congruent to its argument modulo 2^32, and the identity on that range |
| Map2D.HeuristicCost | App/Source/Scene2D/Map2D.cpp:961-974 | the h value of either heuristic is an unsigned 32-bit value |
| Map2D.HeuristicValues | App/Source/Scene2D/Map2D.cpp:961-974 | h is 0 at the target; manhattan gives the weighted distance to a target up and right of the start; euclidean gives the floor of the weighted straight-line distance while its square fits 32 bits |
| Map2D.EuclideanFits | App/Source/Scene2D/Map2D.cpp:970-974 | for a non-negative weight the euclidean heuristic is below 2^32 whenever its square is |
| Map2D.EuclideanZero | App/Source/Scene2D/Map2D.cpp:970-974 | the euclidean heuristic is 0 at the target, whatever the weight |
| Map2D.HeuristicExamples | App/Source/Scene2D/Map2D.cpp:961-974 | from (0,0) to (3,4) with weight 1 the Manhattan heuristic is 7 and the euclidean one 5 |
| Map2D.TopIndex | App/Source/Scene2D/Map2D.cpp:705-707 | the top of the open list has the least f of all entries, and no earlier entry has that f |
| Map2D.TileMap.ResetAStarLists | App/Source/Scene2D/Map2D.cpp:934-955 | the open list is empty, every came-from record is blank and every closed flag is false |
| Map2D.TileMap.StartSearch | App/Source/Scene2D/Map2D.cpp:688-701 | the query is recorded, the open list holds the start alone with f 0, no cell is closed, only the start has a record, its own parent, and every recorded open cell is on the open list |
| Map2D.TileMap.Relax | App/Source/Scene2D/Map2D.cpp:722-749 | a neighbour is re-recorded with the new g, h and f and pushed on the open list exactly when it is valid, unblocked, not closed and its f is unset or larger; otherwise nothing changes; the search invariants are kept, including that every recorded open cell is on the open list |
| Map2D.TileMap.Write | App/Source/Scene2D/Map2D.cpp:743-749 | the improving neighbour's record becomes the relaxation and its entry is appended to the open list; the search invariants are kept |
| Map2D.TileMap.PushPending | App/Source/Scene2D/Map2D.cpp:747-748 | recording a cell while pushing it keeps every recorded open cell on the open list |
| Map2D.TileMap.PopPending | App/Source/Scene2D/Map2D.cpp:721-722 | closing the popped cell while removing its entry keeps every recorded open cell on the open list |
| Map2D.TileMap.StepRecorded | App/Source/Scene2D/Map2D.cpp:725-752 | once a cell is closed and relaxed, each passable neighbour is closed or recorded |
| Map2D.TileMap.ReachClosed | App/Source/Scene2D/Map2D.cpp:703-757 | when the open list runs empty, every cell of a passable walk from the start is closed and recorded: the search misses no reachable cell |
| Map2D.TileMap.RelaxNeighbours | App/Source/Scene2D/Map2D.cpp:719-750 | all neighbours of the popped cell are relaxed and the open list again holds every frontier cell; relaxing a cell that was already relaxed changes nothing |
| Map2D.TileMap.CloseCell | App/Source/Scene2D/Map2D.cpp:716-717 | the popped cell becomes closed, no other flag changes, and the parent chains stay well founded |
| Map2D.TileMap.Expand | App/Source/Scene2D/Map2D.cpp:704-751 | one iteration of the search loop keeps the frontier invariant and either closes a new cell or shrinks the open list |
| Map2D.TileMap.Search | App/Source/Scene2D/Map2D.cpp:703-757 | the search loop ends with an empty open list, every record a valid link, the start its own parent, and every closed cell relaxed; either the target was recorded or every recorded cell was closed |
| Map2D.TileMap.BuildPath | App/Source/Scene2D/Map2D.cpp:764-825 | the path ends at the target and each entry's came-from parent is the entry before it; an empty path means the target is its own parent, or in 8-direction mode a diagonal neighbour (one column and one row away) whose one-entry path was cleared; a one-entry path means the start is adjacent; when the target was reached the path is a walk of neighbour steps from the start |
| Map2D.TileMap.FinishPath | App/Source/Scene2D/Map2D.cpp:758 | after the search every cell of a path to a reached target is passable and the path is a walk from the start; a target reachable over passable cells, other than the start and other than an 8-direction diagonal neighbour, gets a non-empty walk |
| Map2D.TileMap.PathFind | App/Source/Scene2D/Map2D.cpp:676-759 | a blocked or off-grid endpoint gives an empty path, and so does a start equal to the target; otherwise a non-empty path ends at the target, is linked by came-from parents, and when the target was reached is a walk of neighbour steps over passable cells; from an open start, a reachable target other than an 8-direction diagonal neighbour always gets a non-empty walk |
| Map2D.TileMap.SearchBetween | App/Source/Scene2D/Map2D.cpp:687-759 | the search between two in-grid cells: the path ends at the target, is linked by parents, is a passable walk when the target was reached, and is non-empty for a reachable target other than the start or an 8-direction diagonal neighbour |
| Map2D.TileMap.FirstBackground | App/Source/Scene2D/Player2D.cpp:464-475 | the first column from `from` whose tile is a background code (at most 3), or the column count when the row has none |
| Map2D.TileMap.SetTileValue | App/Source/Scene2D/Player2D.cpp:464-475 | the tile takes the value of its row's first background tile and only that tile changes; a row without one changes nothing |
| Map2D.Consumed | App/Source/Scene2D/Enemy2D.cpp:100-112 | overwriting a start tile with a background code removes exactly that cell from the set of start tiles, so the count drops by one and every remaining start tile's row still has a background tile |
| Map2D.Removed | App/Source/Scene2D/Player2D.cpp:113 | writing another value over an occurrence removes exactly that cell from the occurrences, and the count drops by one |
| Player2D.PickupOf | App/Source/Scene2D/Player2D.cpp:481-515 | the tiles live, key, speed, invisibility and spike give an item and no other tile does; only the live tile gives the player-live item |
| Player2D.Collected | App/Source/Scene2D/Player2D.cpp:511-520 | only the item the tile gives can change, and only by one, and only while below its maximum; a collectable item below its maximum is always counted |
| Player2D.Clamp | App/Source/Scene2D/Player2D.cpp:416-462 | each direction clamps only its own axis to the grid; a position already inside is kept |
| Player2D.ClampIdempotent | App/Source/Scene2D/Player2D.cpp:416-462 | clamping twice is clamping once |
| Player2D.Examined | App/Source/Scene2D/Player2D.cpp:523-631 | the cells CheckPosition tests: the next cell right or up (none at the far edge) or the current cell left or down, plus the neighbouring row or column when the player is between tiles |
| Player2D.LivesAfter | App/Source/Scene2D/Player2D.cpp:778-794 | damage within three seconds of the last damage is ignored; otherwise it is taken and the time recorded; gains are capped at five; lives never exceed five |
| Player2D.DamageCooldown | App/Source/Scene2D/Player2D.cpp:778-794 | two hits less than three seconds apart cost one life |
| Player2D.DamageAfterCooldown | App/Source/Scene2D/Player2D.cpp:778-794 | two hits at least three seconds apart cost two lives |
| Player2D.MidAir | App/Source/Scene2D/Player2D.cpp:757-771 | never on the bottom row; a player in mid-air always has a clear way down |
| Player2D.Landing | App/Source/Scene2D/Player2D.cpp:224-231 | the status turns to FALL exactly when the player is in mid-air and neither climbing nor already falling; otherwise it is kept |
| Player2D.StepLeft | App/Source/Scene2D/Player2D.cpp:206-217 | one micro-step left, carrying into the index at the tile edge |
| Player2D.LeftChecked | App/Source/Scene2D/Player2D.cpp:219-223 | a rejected step returns to the old index; a kept index is on a passable tile |
| Player2D.LeftMove | App/Source/Scene2D/Player2D.cpp:206-236 | the A branch keeps an on-grid player on the grid and moves it at most one tile left, onto a passable tile |
| Player2D.StepRight | App/Source/Scene2D/Player2D.cpp:238-258 | the D step moves at most one tile right, onto a passable tile |
| Player2D.RightChecked | App/Source/Scene2D/Player2D.cpp:250-258 | a rejected right step keeps the index and resets the horizontal micro-steps |
| Player2D.RightMove | App/Source/Scene2D/Player2D.cpp:238-267 | the D branch keeps an on-grid player on the grid and moves it at most one tile right, onto a passable tile |
| Player2D.StepUp | App/Source/Scene2D/Player2D.cpp:270-286 | the W step on a ladder moves at most one tile up onto a passable tile and may start a climb |
| Player2D.UpChecked | App/Source/Scene2D/Player2D.cpp:280-286 | the check after a W step changes only the vertical micro-steps |
| Player2D.UpMove | App/Source/Scene2D/Player2D.cpp:270-293 | W changes nothing off a ladder; on one it keeps the player on the grid and moves it at most one tile up |
| Player2D.StepDown | App/Source/Scene2D/Player2D.cpp:295-320 | the S step moves at most one tile down, onto a passable tile |
| Player2D.LadderGuard | App/Source/Scene2D/Player2D.cpp:312-320 | the ladder guard after an S step changes only the vertical micro-steps |
| Player2D.DownMove | App/Source/Scene2D/Player2D.cpp:295-349 | S keeps the player on the grid and moves it at most one tile down; while falling it only sets CLIMB, exactly when aligned above a ladder top |
| Player2D.KeyMove | App/Source/Scene2D/Player2D.cpp:206-349 | the keyboard branches keep an on-grid player on the grid, move it at most one tile on each axis, and only onto a passable tile |
| Player2D.ClaimStartTile | App/Source/Scene2D/Player2D.cpp:104-117 | the level is accepted exactly when it holds one player start tile; a level without one is left unchanged; otherwise the first one becomes background tile 3, nothing else changes and it is no longer a start tile |
| Player2D.Erase | App/Source/Scene2D/Player2D.cpp:113 | the found start tile becomes 3, only it changes, and it leaves the set of start tiles |
| Player2D.Player.constructor | App/Source/Scene2D/Player2D.cpp:76-122 | five lives, falling, no key, no invisibility, no boost, on the start tile ClaimStartTile returned with zero micro-steps, and the inventory of five items with their maximums |
| Player2D.Player.Constraint | App/Source/Scene2D/Player2D.cpp:416-462 | the position becomes Clamp of the old one, and the boundary colour shows exactly when the player is on the grid's edge |
| Player2D.Player.CheckPosition | App/Source/Scene2D/Player2D.cpp:523-631 | the move is allowed exactly when every examined cell is passable; at the right or top edge the micro-steps on that axis are reset |
| Player2D.Player.AddLives | App/Source/Scene2D/Player2D.cpp:778-794 | lives and the last-hit time become LivesAfter of the old ones at the player's clock |
| Player2D.Player.PlaceSpike | App/Source/Scene2D/Player2D.cpp:821-828 | a spike is placed exactly when the player's tile is a background code, and then only that tile changes; otherwise nothing does |
| Player2D.Player.InteractWithMap | App/Source/Scene2D/Player2D.cpp:477-521 | a live tile stamps the ledger; the exit door wins the game exactly when the key is equipped; the inventory becomes Collected; only the player's tile can change, and it changes only when an item was collected |
| Player2D.Player.Pick | App/Source/Scene2D/Player2D.cpp:511-520 | the inventory becomes Collected; the tile is consumed only when an item was counted |
| Player2D.Player.IsMidAir | App/Source/Scene2D/Player2D.cpp:757-771 | the player's own position is MidAir on the current level: never on the bottom row, and then there is a clear way down |
| Player2D.Player.MoveLeft | App/Source/Scene2D/Player2D.cpp:206-236 | the new position and status are LeftMove of the old ones, and the boundary colour follows the edge |
| Player2D.Player.NudgeRight | App/Source/Scene2D/Player2D.cpp:238-249 | the micro-step of the D branch is StepRight of the old index and micro-steps |
| Player2D.Player.MoveRight | App/Source/Scene2D/Player2D.cpp:238-267 | the new position and status are RightMove of the old ones, and the boundary colour follows the edge |
| Player2D.Player.MoveUp | App/Source/Scene2D/Player2D.cpp:270-293 | the new position and status are UpMove of the old ones; the boundary colour changes only on a ladder |
| Player2D.Player.MoveDown | App/Source/Scene2D/Player2D.cpp:295-349 | the new position and status are DownMove of the old ones; the boundary colour changes only when the S branch reaches Constraint |
| Player2D.Player.Move | App/Source/Scene2D/Player2D.cpp:206-349 | the new position and status are KeyMove of the old ones |
| Player2D.Player.Update | App/Source/Scene2D/Player2D.cpp:192-363 | the clock and old index are stored; the move is KeyMove with the boosted step counts; then the tile reached is interacted with; the player stays on the grid and only its new tile can change |
| Enemy2D.AxisStep | App/Source/Scene2D/Enemy2D.cpp:587-637 | one micro-step along an axis toward the waypoint, never past it; a carry down restarts at n, a carry up at 0 |
| Enemy2D.ForwardCarry | App/Source/Scene2D/Enemy2D.cpp:599-610 | micro-stepping toward a higher waypoint reaches the next tile, with micro-steps 0, after n - micro steps |
| Enemy2D.BackwardCarry | App/Source/Scene2D/Enemy2D.cpp:587-598 | micro-stepping toward a lower waypoint reaches the previous tile, restarting at n, after micro + 1 steps |
| Enemy2D.Arrive | App/Source/Scene2D/Enemy2D.cpp:639-664 | on the waypoint the enemy drops it at once, or after settling on a floor or a ladder; off it nothing is dropped |
| Enemy2D.Advance | App/Source/Scene2D/Enemy2D.cpp:581-666 | without waypoints nothing moves; otherwise each axis moves at most one tile toward the first waypoint, which is dropped only on reaching it; an enemy and waypoints on the grid stay on it |
| Enemy2D.TouchingIsSameTile | App/Source/Scene2D/Enemy2D.cpp:517-535 | the half-tile contact test on integer indices means the same tile |
| Enemy2D.EnemyPickup | App/Source/Scene2D/Enemy2D.cpp:540-576 | a spike costs a life and is cleared; a live tile heals only in FLEE, and in SUPPORT fills the live item when below its maximum; it is cleared exactly in those cases; other tiles do nothing |
| Enemy2D.NextState | App/Source/Scene2D/Enemy2D.cpp:167-332 | one life left means FLEE; KNOCKOUT only from KNOCKOUT or no lives; ATTACK only from ATTACK, from FLEE at full lives or after a rescue; SUPPORT only continues SUPPORT |
| Enemy2D.StageAfter | App/Source/Scene2D/Enemy2D.cpp:247-332 | stages 1 and 3 always advance, 2 and 4 only on arrival, any other stage starts over, and so does one life or none; the stage stays in 1..5 |
| Enemy2D.FirstAt | App/Source/Scene2D/Enemy2D.cpp:303-313 | the rescue scan as written: the first listed enemy standing on supportPos |
| Enemy2D.HelperShadowsVictim | App/Source/Scene2D/Enemy2D.cpp:303-313 | when the helper is listed before the knocked-out enemy on the same tile, the scan as written stops at or before the helper |
| Enemy2D.RescueRestoresHelper | App/Source/Scene2D/Enemy2D.cpp:303-313 | with helper and victim both on (4,2), helper first, the scan as written picks the helper |
| Enemy2D.FirstOtherAt | App/Source/Scene2D/Enemy2D.cpp:303-313 | the corrected scan: the first listed enemy other than the helper standing on supportPos |
| Enemy2D.RescueFindsVictim | App/Source/Scene2D/Enemy2D.cpp:303-313 | the corrected scan reaches the knocked-out enemy whatever the list order |
| Enemy2D.ClaimStart | App/Source/Scene2D/Enemy2D.cpp:100-112 | found exactly when the level has an enemy start tile; the first one is overwritten with its row's first background tile and nothing else changes; the start-tile count drops by one |
| Enemy2D.Overwrite | App/Source/Scene2D/Enemy2D.cpp:106-110 | the found start tile takes its row's first background tile and only it changes; when every start tile's row has a background tile this still holds afterwards and one start tile fewer is left |
| Enemy2D.EnemyStatics.constructor | App/Source/Scene2D/Enemy2D.cpp:195 | the shared stage starts at 1 and no pickup is chosen |
| Enemy2D.Enemy.constructor | App/Source/Scene2D/Enemy2D.cpp:31-53 | ATTACK, not knocked out, no support, no waypoints, at the origin, live item 0 of 1 |
| Enemy2D.Enemy.Init | App/Source/Scene2D/Enemy2D.cpp:84-157 | succeeds exactly when a start tile is left; then the enemy stands on it with two lives, reset goals and flags and the player's index remembered; the start-tile count drops by one; failure leaves the map unchanged |
| Enemy2D.Enemy.Stand | App/Source/Scene2D/Enemy2D.cpp:114-126 | the enemy is placed on the found tile with zero micro-steps, both goals reset and the player's index remembered |
| Enemy2D.Enemy.SetEnemyNum | App/Source/Scene2D/Enemy2D.cpp:685-688 | the number is stored |
| Enemy2D.Enemy.AddLives | App/Source/Scene2D/Enemy2D.cpp:678-683 | lives grow by n, capped at two |
| Enemy2D.Enemy.SetFSM | App/Source/Scene2D/Enemy2D.cpp:707-728 | the requested state (SUPPORT for any other name) and the support position are stored; only KnockOut sets the knocked-out flag |
| Enemy2D.Enemy.SetTileValue | App/Source/Scene2D/Enemy2D.cpp:501-512 | the enemy's tile takes its row's first background tile and only it changes; a row without one changes nothing |
| Enemy2D.Enemy.StepAxis | App/Source/Scene2D/Enemy2D.cpp:587-637 | the in-place axis step computes AxisStep |
| Enemy2D.Enemy.UpdatePosition | App/Source/Scene2D/Enemy2D.cpp:581-666 | the new position and waypoints are Advance of the old ones |
| Enemy2D.Enemy.InteractWithPlayer | App/Source/Scene2D/Enemy2D.cpp:517-535 | a hit happens exactly when the enemy is on the player's tile and the player is visible, and then the player takes one damage under its cooldown |
| Enemy2D.Enemy.InteractWithMap | App/Source/Scene2D/Enemy2D.cpp:540-576 | a live tile stamps the ledger; lives and the live item follow EnemyPickup; only the enemy's tile can change, and only when the pickup clears it |
| Enemy2D.Enemy.FindNearestLive | App/Source/Scene2D/Enemy2D.cpp:690-705 | the goal moves only to an available pickup strictly nearer, and ends no farther than every available pickup |
| Enemy2D.Enemy.Act | App/Source/Scene2D/Enemy2D.cpp:180-184 | move, hit the player, interact with the tile: the course follows Advance, lives follow EnemyPickup, and the player can only lose lives |
| Enemy2D.Enemy.Replan | App/Source/Scene2D/Enemy2D.cpp:175-178 | a new path with the euclidean heuristic and weight 10, which ends at the target when non-empty, is empty for an off-grid target, and is a non-empty walk when the target is reachable from the enemy's open tile (other than an 8-direction diagonal neighbour) |
| Enemy2D.Enemy.Chase | App/Source/Scene2D/Enemy2D.cpp:173-179 | the path is re-planned toward the player only when the player changed tile |
| Enemy2D.Enemy.UpdateAttack | App/Source/Scene2D/Enemy2D.cpp:171-192 | ATTACK: lives follow EnemyPickup, the next state is NextState, and without re-planning the course follows Advance |
| Enemy2D.Enemy.SeekLive | App/Source/Scene2D/Enemy2D.cpp:197-210 | the pickup search runs once per flight; it sets the shared flag exactly when a pickup was found, and then the path leads to it |
| Enemy2D.Enemy.LeaveFlee | App/Source/Scene2D/Enemy2D.cpp:218-231 | at full lives back to ATTACK, at none KNOCKOUT (knocked out, without support), either way the search is reset; otherwise nothing changes |
| Enemy2D.Enemy.UpdateFlee | App/Source/Scene2D/Enemy2D.cpp:193-234 | FLEE: lives follow EnemyPickup, the next state is NextState, the knocked-out flags and the shared search flag as above |
| Enemy2D.Enemy.UpdateKnockOut | App/Source/Scene2D/Enemy2D.cpp:235-246 | KNOCKOUT goes to FLEE exactly when one life is left |
| Enemy2D.Enemy.Travel | App/Source/Scene2D/Enemy2D.cpp:254-296 | stages 1 and 3 plan a path (to the nearest pickup or the support position) and advance; 2 and 4 move and advance on arrival |
| Enemy2D.Enemy.Rescue | App/Source/Scene2D/Enemy2D.cpp:297-313 | one live leaves the helper's item; the first other enemy on supportPos regains a life, is no longer knocked out or supported and flees; no other enemy changes |
| Enemy2D.Enemy.Rejoin | App/Source/Scene2D/Enemy2D.cpp:297-318 | after the rescue the helper is back in ATTACK with the stage at 1 and both goals reset |
| Enemy2D.Enemy.LeaveSupport | App/Source/Scene2D/Enemy2D.cpp:320-329 | one life left means FLEE and none KNOCKOUT, either with the stage and both goals reset; otherwise nothing changes |
| Enemy2D.Enemy.UpdateSupport | App/Source/Scene2D/Enemy2D.cpp:247-332 | SUPPORT: the next state is NextState, the shared stage is StageAfter, leaving SUPPORT resets both goals, and the knocked-out flags are untouched |
| Enemy2D.Enemy.Update | App/Source/Scene2D/Enemy2D.cpp:167-426 | one tick of the current state: the next state is NextState of the old one; in ATTACK and FLEE the enemy's lives follow EnemyPickup of the tile reached, and in KNOCKOUT they are kept; the player can only lose lives, and the player's index is remembered |
| Scene2D.FirstStanding | App/Source/Scene2D/Scene2D.cpp:168-176 | the first enemy in list order that is not knocked out, or the list length when all are |
| Scene2D.NewEnemy | App/Source/Scene2D/Scene2D.cpp:111-125 | a new enemy succeeds exactly when a start tile is left; then it is on the grid, in its starting state and numbered, and one start tile fewer is left |
| Scene2D.Enlist | App/Source/Scene2D/Scene2D.cpp:111-125 | a successful enemy is appended with its place as its number; a failure leaves the list as it was and no start tile on the map |
| Scene2D.RegisterEnemies | App/Source/Scene2D/Scene2D.cpp:109-126 | the loop ends with one enemy per start tile the level had, enemies numbered 0..n-1 in order, all distinct, and no start tile left |
| Scene2D.AssignSupport | App/Source/Scene2D/Scene2D.cpp:166-177 | the helper is the first enemy not knocked out; it is sent to the victim's tile in SUPPORT and the victim is marked supported, keeping its state, support position and tile; the helper's own support flag is kept; when all are knocked out nothing changes; no other enemy changes |
| Scene2D.StepEnemy | App/Source/Scene2D/Scene2D.cpp:165 | the enemy's next state is NextState of its old one and it records the player's tile; no other enemy's record changes; the list stays numbered and on the grid, and the player can only lose lives |
| Scene2D.TickEnemy | App/Source/Scene2D/Scene2D.cpp:163-178 | after its tick the enemy records the player's tile, as every earlier one did; an enemy that is knocked out has support, unless every enemy is knocked out |
| Scene2D.Summon | App/Source/Scene2D/Scene2D.cpp:166-177 | a knocked-out enemy without support gets a helper unless every enemy is knocked out; its state and the knocked-out flags are kept |
| Scene2D.UpdateEnemies | App/Source/Scene2D/Scene2D.cpp:163-178 | every enemy ticks and so records the player's tile; the list stays well formed; the player can only lose lives |
| Scene2D.Scene.constructor | App/Source/Scene2D/Scene2D.cpp:19-27 | no enemies and the clock at zero |
| Scene2D.Scene.InitEnemies | App/Source/Scene2D/Scene2D.cpp:109-129 | the scene's list holds one enemy per start tile, numbered by place, and no start tile is left |
| Scene2D.Scene.Update | App/Source/Scene2D/Scene2D.cpp:148-255 | the clock advances; while the inventory is open no tile, ledger entry, player or enemy changes; no lives means lost; a completed level advances the level when one exists and clears the flag; the result is false exactly when lost and not won |
| Scene2D.Scene.Advance | App/Source/Scene2D/Scene2D.cpp:150-179 | the clock always advances; the world ticks at that time only when the inventory is closed, and nothing else changes while it is open |
| Scene2D.Scene.Tick | App/Source/Scene2D/Scene2D.cpp:152-179 | map, player and enemies all tick at the scene's time; the scene stays well formed and the player can only lose lives |
| Scene2D.Scene.Respawn | App/Source/Scene2D/Scene2D.cpp:155 | the map's ledger becomes Respawned at the scene's time |
| Scene2D.Scene.MovePlayer | App/Source/Scene2D/Scene2D.cpp:159 | the player ticks at the scene's time and its lives do not change |
| Scene2D.Scene.Resolve | App/Source/Scene2D/Scene2D.cpp:184-254 | lost becomes set when lives are at most 0; a completed level moves to the next level (kept when there is none) and clears the flag; running is false exactly when lost and not won |

## Left out

- Rendering, shaders, textures, animation, sound, the GUI and the
  keyboard device are left out. Keys held arrive as an `Intent` value, the
  scene time as a parameter, and the inventory-open flag as a parameter.
- `CPlayer2D::UpdateClimbFall` (the jump and fall physics) is left out.
  It needs the physics class, which is not part of this model, and
  floating-point time steps. Its `Constraint` calls are not modelled.
- Reading CSV files: `LoadMap` takes the parsed grid as a value, and
  `SaveMap` is left out.
- Scene2D.Scene.Tick: the order map, then player, then enemies is fixed by
  its body. The contract states only the consequences of that order: all
  three tick at the same time, and the player can lose lives only to
  enemies.
- Scene2D.RegisterEnemies: requires every start tile's row to hold a
  background tile. Without one the source re-finds the same tile forever
  and never terminates, which a terminating model cannot express.
- Enemy2D.Enemy.UpdateSupport: the transition SUPPORT to KNOCKOUT leaves
  `isKnockedOut` unset, as the source does. The contract states this but
  does not flag it as a defect.
- Player2D.Player.Constraint: the boundary colour uses the same edge tests
  as the source, including `y < 0` for DOWN, which clamping makes
  unreachable. Only the colour flag is modelled, not its RGBA value.
- Enemy2D.Enemy.FindNearestLive: among pickups at the same distance the
  one found first in ledger order wins in the source. The model promises
  only a nearest pickup.
- Map2D.TopIndex: the priority queue's order among entries with equal `f`
  is not modelled. The first such entry is taken.
- Inventory items are plain counters with a maximum. `Add` and `Remove` are
  modelled as plus and minus one, without the inventory manager's own
  checks.
- Integer widths: A* costs and lives are unbounded integers. Casting a
  negative float heuristic to `unsigned int` is undefined behaviour in C++;
  the model picks a wrap modulo 2^32 there. Overflow of `g + h` is not
  modelled.
- Map2D.TileMap.constructor: sizes the A* lists from the rows and columns
  passed. The source sizes them from the settings
  (`App/Source/Scene2D/Map2D.cpp:332-333`) before it stores the passed
  dimensions there (354-355). The two agree when the scene passes the
  settings' own dimensions; a map built with other dimensions is not
  modelled.
- Player2D.Player.constructor: takes the start tile from
  `Player2D.ClaimStartTile`, which models the tile search of `Init`. A
  failed claim is where the scene's initialisation stops
  (`App/Source/Scene2D/Scene2D.cpp:103-106`); that step is not modelled,
  and `Scene2D.Scene` is given a player already placed. Texture loading,
  which can also fail, is left out with the rendering.
- Map2D.TileMap.ValidCell: `isValid` reads the tile below before testing
  the bounds, so on the bottom row it reads past the grid. The model
  treats that read as failing the floor test.
- Enemy2D.Enemy.Rescue: the tick uses the corrected scan
  `Enemy2D.FirstOtherAt` (see Findings). The scan as written is modelled
  by `Enemy2D.FirstAt`, which the tick does not call.
- Scene2D.UpdateEnemies: the loop fixes the list order of the ticks. The
  contract states that every enemy ticked, not the order.

## Findings

| source | as written | input that shows it | evidently intended | confidence | as-written member | corrected member |
|---|---|---|---|---|---|---|
| App/Source/Scene2D/Enemy2D.cpp:303-313 | SUPPORT's fifth stage restores the first enemy in the list standing on `supportPos`. The helper stands there itself after stage 4. | Two enemies on tile (4,2): the helper listed first, the knocked-out enemy second. The helper is "restored" and then set back to ATTACK. The knocked-out enemy keeps `gotSupport` and is never rescued. | Restore the first enemy on `supportPos` other than the helper. | medium, not executed | Enemy2D.FirstAt, Enemy2D.HelperShadowsVictim, Enemy2D.RescueRestoresHelper | Enemy2D.FirstOtherAt, Enemy2D.RescueFindsVictim, used by Enemy2D.Enemy.Rescue |
