# Block Dude rules engine in Dafny

This project models the `Game` object of game.js. That object is the rules
engine of a small grid puzzle game. The player walks left and right, climbs
ledges one tile high, and picks up, carries and drops blocks. Reaching the
goal tile loads the next level. The grid is a list of rows of tile
characters:

- `x` is wall;
- `0` is a block;
- `<` and `>` are the player facing left or right;
- `!` is the goal;
- a space is empty.

The model also covers the renderer's viewport scrolling (`scroll` and
`center`).

The model has three layers:

- **Pure functions: `Grid`, `Rules` and `Commands`.**
  - `Grid` holds cell writes, `swap`, the block fall `fall`, tile counts and `toString`.
  - `Rules` holds one activation of `move`, the gravity chain it starts, and `load`.
  - `Commands` holds `left`, `right`, `climb`, `grab` and `drop`.
  - The state they act on is a `Board` value: the grid, the cached player position, `holding` and `lvlnum`.
- **The object game.js builds: the `Engine.Game` class.**
  - Its fields are changed in place.
  - `load` is a pair of nested loops.
  - The recursion of `move` and `fall`, which sits in tail position, becomes `while` loops.
  - Every command is proved to leave the fields equal to the matching rule function of the old state.
  - Every command keeps the engine's invariant. Levels stay loadable. The grid is walled in and contains exactly one player tile, at the cached position. While `holding`, a block sits above the player.
- **`View.Renderer`** holds the viewport that `scroll` moves and `center` puts over the player.
  - `scroll` leaves a coordinate where it is when the step would take it below 0; it does not clamp it to 0. `View.ScrollAxis` follows that rule exactly.
  - On an axis where the grid is at least as large as the viewport (8 rows, 16 columns), `center`'s first scroll goes back to 0, and from 0 the two rules coincide (`View.ScrollNearest`, `View.FocusCentres`).
  - On an axis where the grid is smaller, the limit is negative. The first scroll goes to that limit, and `center` leaves the start there (`View.FocusOnSmallGrid`).

The module `Findings` exhibits two defects of game.js on concrete levels (see
"## Findings"). The code as written is modelled next to the corrected rule.
The class and the commands use the corrected rule.

Three behaviours of game.js a reader may not expect; the model follows the code:

- The head-room test for a carried block accepts an empty cell or a player tile above the target. It does not accept the goal (`Rules.Safe`).
- `load` does not reset `holding`. It is modelled as written in `Rules.LoadAsWritten`, and the corrected rule is reported as a finding.
- `holding == false` does not keep a block from sitting above the player. For example, a player can walk under a ledge made of a block. Only the forward direction is an invariant (`Rules.Tracked`).

## Model

| member | source | states |
|---|---|---|
| Grid.Swap | game.js:33-38 | the two cells exchange their tiles; every other cell and every row length is unchanged |
| Grid.Set | game.js:64 | a write `state[y][x] = c` sets that cell and no other, and keeps every row length |
| Grid.SwapTwice | game.js:33-38 | swapping the same two cells twice restores the grid |
| Grid.SwapSymmetric | game.js:33-38 | `swap(y1, x1, y2, x2)` and `swap(y2, x2, y1, x1)` give the same grid |
| Grid.SwapTiles | game.js:33-38 | a swap only permutes the grid: the multiset of tiles is unchanged |
| Grid.SwapKeepsFrame | game.js:33-38 | swapping two cells inside the wall ring keeps the ring |
| Grid.OnlyPlayer | game.js:22-25 | in a grid with one player tile, the cell at the cached position is the only cell holding a player tile |
| Grid.CarryMoves | game.js:61-66 | a safe step puts the player tile on the target, and the carried block on the cell above the target |
| Grid.Carry | game.js:61-62 | the two swaps of a safe step, the player's tile and, while holding, the block above it; what they do is stated by `Grid.CarryMoves`, `Grid.CarryFrame` and `Grid.CarryTiles` |
| Grid.CarryTiles | game.js:61-66 | the step's swaps keep the multiset of tiles |
| Grid.Fall | game.js:84-94 | `fall(y, x)` stops at a row at or below y, inside the floor, with a non-empty cell below it; every cell it passed was empty; the tile arrives there; the cell it left is empty; no other cell changes |
| Grid.FallTiles | game.js:84-94 | a fall keeps the multiset of tiles |
| Grid.FallKeepsFrame | game.js:84-94 | a fall from inside the wall ring keeps the ring and ends inside it |
| Grid.RenderLength | game.js:206-215 | the text of a grid of width w has w + 1 characters per row |
| Grid.RenderRow | game.js:206-215 | row i of the text, at offset i*(w+1), is row i of the grid, followed by a newline |
| Grid.Render | game.js:206-215 | the text `toString` builds; its length and its layout row by row are stated by `Grid.RenderLength` and `Grid.RenderRow` |
| Rules.Safe | game.js:47-55 | a safe step targets a cell inside the ring, and so does the cell above it while holding |
| Rules.Shift | game.js:61-65 | the writes of a safe step to (y, x); `Rules.ShiftPlaced` states that away from the goal the player stays in the ring with the block above it, and `Rules.SafeShift` that a safe step is this write |
| Rules.ShiftPlaced | game.js:61-65 | a safe step's writes keep the row count, `holding` and the level, put the player at the target and, away from the goal, keep it inside the ring |
| Rules.Advance | game.js:60-66 | a safe step moves the cached position by the step; an unsafe one changes nothing; a non-winning step keeps every read cell inside the grid |
| Rules.AdvanceTracked | game.js:60-66 | a non-winning step keeps the player tile at the cached position and the carried block above it |
| Rules.AdvanceSound | game.js:60-66 | a non-winning step keeps the invariant and the multiset of tiles |
| Rules.MoveStepAsWritten | game.js:42-78 | one activation of `move` as written: win, rest, gravity or a read below the grid; its cases are stated by `Rules.StepFaultIff`, `Rules.StepsAgree`, `Rules.BlockedStep` and `Rules.Trapped` |
| Rules.MoveStep | game.js:42-78 | one activation with the intended gravity test; `Rules.MoveUnfold` ties it to the whole call, and `Rules.StepsAgree`, `Rules.BlockedStep` and `Rules.SafeStep` to the code as written |
| Rules.LastPlayerIn | game.js:20-25 | the column found is the last player tile among the first n cells of the row, or -1 when there is none |
| Rules.FindPlayer | game.js:18-26 | the position `load` holds after scanning n rows; `Rules.FindPlayerLast` and `Rules.FindPlayerNone` state which position that is |
| Rules.FindPlayerLast | game.js:18-26 | the position `load` keeps is a player tile at or after every other player tile, in row-major order |
| Rules.FindPlayerNone | game.js:18-26 | without a player tile, `load` keeps the old position |
| Rules.LoadAsWritten | game.js:14-29 | `load()` as written: the level's grid and the found position, with `holding` left as it was; `Findings.HoldingSurvivesWin` shows the effect |
| Rules.Load | game.js:14-29 | `load()` with `holding` cleared; `Rules.LoadSound` states that it re-establishes the invariant on the level's grid |
| Rules.LoadSound | game.js:14-29 | loading a well-formed level, with `holding` cleared, gives a state satisfying the invariant, with the level's own grid |
| Rules.NextLevel | game.js:69-72 | a win loads level `lvlnum + 1` exactly when it exists, and the call throws otherwise |
| Rules.NextLevelSound | game.js:69-72 | the loaded level satisfies the invariant |
| Rules.NextLevelAsWritten | game.js:69-72 | as written, a win loads level `lvlnum + 1` exactly when it exists and keeps `holding`; the player is inside the ring of the new level |
| Rules.NextLevelAgrees | game.js:69-72 | the as-written win and the corrected one differ only in `holding` on the loaded level |
| Rules.Sink | game.js:75-77 | the gravity chain of the corrected `move(1, 0)` always ends |
| Rules.Move | game.js:42-80 | the corrected `move` always ends; a returning call leaves every read cell inside the grid and a level that exists |
| Rules.SinkAsWritten | game.js:69-77 | the as-written gravity chain: a call that returns is on an existing level with `holding` unchanged, across a win too, and on the same level it leaves every read cell inside the grid |
| Rules.ChainAsWritten | game.js:42-80 | the same for the whole as-written `move` |
| Rules.MoveUnfold | game.js:68-77 | one activation of `move`: a win loads the next level; a rest returns; gravity continues as `move(1, 0)` one row down, from a state satisfying the invariant |
| Rules.SinkSound | game.js:75-77 | the gravity chain keeps the invariant and throws only past the last level; on the same level it keeps the tiles, `holding` and the player's tile |
| Rules.MoveSound | game.js:42-80 | `move` keeps the invariant and throws only past the last level; on the same level it keeps the tiles, `holding` and the player's tile |
| Rules.StepFaultIff | game.js:75-77 | as written, the gravity test reads past the grid exactly on a downward step from the row above the floor |
| Rules.StepsAgree | game.js:75-77 | when the player moves or wins, the as-written and the corrected gravity tests agree |
| Rules.BlockedStep | game.js:47-77 | a blocked step leaves the state as it was; the corrected step returns; the as-written one calls `move(1, 0)` when the goal is under the target, and faults at the floor |
| Rules.MoveBlocked | game.js:47-80 | a blocked `move` that does not target the goal changes nothing |
| Rules.MoveWins | game.js:57-72 | a `move` onto the goal, safe or not, loads the next level with `holding` cleared when there is one; otherwise the call does not return |
| Rules.SafeStep | game.js:60-77 | a safe step onto an empty cell brings the player and its tile to the target; gravity then pulls exactly when the cell below is empty or the goal |
| Rules.FallStep | game.js:75-77 | from over an empty cell the player falls one row, and both gravity tests agree on that step |
| Rules.FallLands | game.js:75-77 | gravity drops the player straight down until something that is neither empty nor the goal holds it, unless it reaches the goal |
| Rules.FallLandsOnEmpty | game.js:75-77 | FallLands for a player over an empty cell |
| Rules.MoveLands | game.js:42-80 | a safe step onto an empty cell ends in the target column, at or below the target row, on solid ground, unless a fall reaches the goal |
| Rules.FallAgrees | game.js:69-77 | given one activation per row, the as-written gravity chain of a fall equals the corrected one once `holding` is cleared on a loaded level: the two differ only by the as-written `load` |
| Rules.FallAgreesOnEmpty | game.js:75-77 | FallAgrees for a player over an empty cell |
| Rules.ChainAgrees | game.js:42-80 | when the first step moves the player or wins, the as-written `move` equals the corrected one once `holding` is cleared on a loaded level |
| Rules.GravityFalls | game.js:69-77 | when the corrected step calls gravity, the player is on the same level, and the as-written gravity chain from there equals the corrected one once `holding` is cleared on a loaded level |
| Rules.SinkTrapLoops | game.js:75-77 | a gravity call whose own step down calls gravity on the same state never returns |
| Rules.Trapped | game.js:75-77 | a blocked step with the goal under its target, from a player whose own step down is blocked in the same way; `Rules.LoopsIffTrapped` states that these are exactly the states where the as-written `move` never returns |
| Rules.TrapLoops | game.js:75-77 | a trapped as-written `move` runs out of any number of activations |
| Rules.SinkEnds | game.js:75-77 | an untrapped gravity call ends within one activation per row |
| Rules.FallEnds | game.js:75-77 | an as-written fall given one activation per row ends |
| Rules.UntrappedEnds | game.js:42-80 | an untrapped as-written `move` ends within `Rules.Fuel` activations: one per row, plus one |
| Rules.LoopsIffTrapped | game.js:42-80 | the as-written `move` fails to end within `Rules.Fuel` activations (one per row, plus one) exactly when the state is trapped |
| Commands.Turn | game.js:130 | the player tile at the position `move` left takes the new facing; outcomes that do not return pass through |
| Commands.Left | game.js:128-132 | `left()` always ends; when it returns, the player tile faces left |
| Commands.Right | game.js:136-140 | `right()` always ends; when it returns, the player tile faces right |
| Commands.TurnSound | game.js:128-140 | the final write keeps the invariant and swaps only the player's own tile in the multiset |
| Commands.LeftSound | game.js:128-132 | `left()` keeps the invariant and throws only past the last level; on the same level the tiles change only by the new facing |
| Commands.RightSound | game.js:136-140 | the same for `right()` |
| Commands.LeftBlocked | game.js:128-132 | pushing left against anything but empty space or the goal only turns the player |
| Commands.Climb | game.js:144-154 | `climb()` always ends; when it returns it leaves the state placed on an existing level |
| Commands.ClimbNeedsLedge | game.js:149-153 | facing empty space, or under a wall, `climb()` changes nothing |
| Commands.ClimbUp | game.js:144-154 | a climb onto a free cell ends one column forwards, at or below the row above, on solid ground, unless a fall reaches the goal |
| Commands.ClimbSound | game.js:144-154 | `climb()` keeps the invariant; on the same level it keeps the tiles and `holding` |
| Commands.Lift | game.js:159-175 | how `grab()` picks a block up; `Commands.LiftSound` and `Commands.GrabTwice` state what it keeps and that a drop undoes it |
| Commands.DropGrid | game.js:189-193 | the drop-and-fall leaves the ring, leaves the player cell and empties the cell above it; with the block above the player, it keeps the tiles |
| Commands.DropGridRests | game.js:189-193 | the dropped block rests in the front column at the first row, at or below the player's, above a non-empty cell; every cell of that column from the player's row down to it is empty |
| Commands.DropGridIs | game.js:189-193 | DropGrid is the two writes of `drop()` followed by `fall` from the cell in front |
| Commands.DropFrame | game.js:189-193 | the two writes and the fall keep the ring |
| Commands.DropTiles | game.js:189-193 | with the block above the player, the writes and the fall keep the multiset of tiles |
| Commands.GrabIsDrop | game.js:159-202 | `grab()` and `drop()` do the same thing in every state |
| Commands.WritesAreSwap | game.js:169-170 | moving a tile onto an empty cell by two writes is a swap |
| Commands.Grab | game.js:159-175 | `grab()`: a drop while holding, a lift otherwise; stated by `Commands.GrabIsDrop` and `Commands.GrabSound` |
| Commands.Drop | game.js:180-202 | `drop()`: a grab while not holding, a put otherwise; stated by `Commands.GrabIsDrop`, `Commands.DropValid`, `Commands.DropFalls` and `Commands.DropBlocked` |
| Commands.LiftSound | game.js:159-175 | lifting keeps the invariant and the tiles, and the player stays where it is |
| Commands.PutSound | game.js:180-202 | putting down keeps the invariant and the tiles, and the player stays where it is |
| Commands.PutFallsSound | game.js:189-193 | the same when the block falls from the cell in front |
| Commands.PutFallsIs | game.js:189-193 | with room in front, the drop is the drop-and-fall with `holding` cleared |
| Commands.SoundPut | game.js:188-198 | a new grid with the same ring, tiles and player cell keeps the invariant once `holding` is cleared |
| Commands.PutAboveSound | game.js:194-198 | the same when the block goes to the cell above the one in front |
| Commands.PutAboveIs | game.js:194-198 | with room above the cell in front but not in it, the drop puts the block on the cell above the one in front and clears `holding` |
| Commands.GrabSound | game.js:159-202 | `grab()`, and so `drop()`, keep the invariant and the tiles, and the player stays where it is |
| Commands.DropFalls | game.js:189-193 | a dropped block with room in front comes to rest in that column at the first row, at or below the player's, above a non-empty cell, with every cell it passed empty; `holding` is cleared and the cell above the player emptied |
| Commands.DropBlocked | game.js:188-199 | with no room above the cell in front, `drop()` changes nothing |
| Commands.DropValid | game.js:180-202 | `drop()` keeps the invariant and the level |
| Commands.GrabTwice | game.js:159-202 | picking up a resting block and putting it straight back restores the state |
| Commands.LiftThenDrop | game.js:167-193 | the lift's writes are undone by the drop-and-fall |
| Engine.Game.constructor | game.js:7-10 | the new engine satisfies the invariant and holds the loaded level |
| Engine.Game.Load | game.js:14-29 | the nested loops copy the level and keep the last player tile met; the result is `Load` of the old state, and it satisfies the invariant |
| Engine.Game.Swap | game.js:33-38 | the grid becomes the swapped grid; nothing else changes |
| Engine.Game.Move | game.js:42-80 | the loop ends in the state `Rules.Move` gives; `ok` is false exactly when a win past the last level makes `load` throw |
| Engine.Game.Step | game.js:43-77 | one activation: the fields become the stepped state, with the win and gravity flags of `MoveStep` |
| Engine.Game.Advance | game.js:43-66 | the `safe` and `win` tests, and the swaps and the cleared goal cell, are those of `Rules.Advance` |
| Engine.Game.Walk | game.js:61-62 | the two swaps of a safe move are `Grid.Carry`: the player's tile to the target, and while holding, the block to the cell above it; the other fields are unchanged |
| Engine.Game.Fall | game.js:84-94 | the loop leaves the grid and row `Grid.Fall` gives; the other fields are unchanged |
| Engine.Game.Width | game.js:98-100 | every row has this length, three at least |
| Engine.Game.Height | game.js:104-106 | this is the number of rows, three at least |
| Engine.Game.GetPlayer | game.js:109-111 | the position holds a player tile, and no other cell does |
| Engine.Game.Get | game.js:121-123 | the tile at the cell; a player tile exactly at the player's position |
| Engine.Game.Left | game.js:128-132 | the fields become `Commands.Left` of the old state and keep the invariant; `ok` is false exactly when that throws |
| Engine.Game.Right | game.js:136-140 | the same for `Commands.Right` |
| Engine.Game.Climb | game.js:144-154 | the same for `Commands.Climb` |
| Engine.Game.Grab | game.js:159-175 | the fields become `Commands.Grab` of the old state and keep the invariant |
| Engine.Game.Drop | game.js:180-202 | the fields become `Commands.Drop` of the old state and keep the invariant |
| Commands.Put | game.js:188-199 | putting the carried block down never moves the player or changes the level |
| Engine.Game.PutDown | game.js:188-199 | while holding, the fields become `Commands.Put` of the old state |
| Engine.Game.PutInFront | game.js:189-193 | the two writes and the block's `fall` leave the grid `Commands.DropGrid` gives; the other fields are unchanged |
| Engine.Game.ToString | game.js:206-215 | the loops build `Render` of the grid: height times (width + 1) characters |
| View.ScrollAxis | game.js:265-273 | one coordinate of `scroll` ends at the limit, at the old start, or at the start plus the step; from a start in [0, m] it stays in [0, m] |
| View.ScrollNearest | game.js:265-273 | from a start of 0, or by a step that stays at 0 or above, `scroll` ends at the point of [0, m] nearest the target |
| View.ScrollStays | game.js:265-273 | a viewport within its limits stays within them |
| View.ScrollReaches | game.js:265-273 | scrolling by the distance to a start within the limits reaches it |
| View.Focus | game.js:256-262 | where `center` puts one coordinate; `View.ResetThenFocus`, `View.FocusCentres` and `View.FocusOnSmallGrid` state where that is |
| View.ResetThenFocus | game.js:256-262 | after its first scroll, `center` ends where it would from the corner, whatever the old viewport was |
| View.FocusCentres | game.js:256-262 | on a grid at least as large as the viewport, the start is half a viewport before the player when there is room, and clamps to 0 or the limit otherwise |
| View.FocusOnSmallGrid | game.js:256-262 | on a grid smaller than the viewport, `center` leaves the start at the negative limit |
| View.Renderer.constructor | game.js:225-236 | the viewport starts at (0, 0) |
| View.Renderer.Scroll | game.js:265-274 | each coordinate of the viewport becomes ScrollAxis of the old one, with the limit `height - 8` or `width - 16` |
| View.Renderer.Center | game.js:256-262 | the viewport becomes Focus of the player's position; on a grid at least 8 by 16, all 8 by 16 cells that `draw` reads exist |
| Findings.ClimbCrash | game.js:75-77 | on the ledge level, the as-written climb throws and the corrected one changes nothing |
| Findings.LedgeSteps | game.js:75-77 | on the ledge level, the blocked climb calls gravity, and that activation faults |
| Findings.ShelfStart | game.js:7-29 | a new game on the shelf, with `holding` false, finds the player at (2, 2) |
| Findings.ShelfGrab | game.js:159-175 | `grab()` there lifts the block in front of the player (it faces left, with the goal behind it) onto it |
| Findings.LiftedWins | game.js:57-66 | stepping right carries the block onto the goal with both gravity tests: both swaps, then the old player cell cleared |
| Findings.WonLoads | game.js:69-72 | the win loads the room; as written with `holding` still set, corrected with it cleared |
| Findings.RoomCarried | game.js:136-140 | in the room with `holding` set, no block is above the player, and `right()`'s final write changes nothing |
| Findings.RoomPlayer | game.js:18-26 | loading the room finds its player at (2, 1) |
| Findings.RoomDrop | game.js:188-193 | a drop in the room with `holding` set puts a block in front of the player |
| Findings.RoomDropAddsBlock | game.js:188-193 | that drop adds a block that was not in the level |
| Findings.HoldingSurvivesWin | game.js:14-29 | a new game on the shelf, `grab()`, then the as-written `right()`: the room is loaded with `holding` still set and no block above the player, and a drop then creates a block; the corrected `right()` leaves the player empty-handed |

## Left out

- Drawing on the canvas (`draw`, `drawBlock` and the other draw functions, colours, pixel sizes) is output to a graphics API. Only the viewport arithmetic is modelled.
- The keyboard handlers and the page set-up are not part of this model.
- `window.levels` becomes the engine's `levels` constant, a parameter of the constructor.
- Engine.Game.constructor: requires levels that are walled in and have exactly one player tile each. The game does not check for malformed levels.
- Engine.Game.Move: a throw is the result `ok == false`, and the method then states only `lvlnum == |levels|`. The as-written stack overflow of a trapped `move` is the `Loops` outcome of `Rules.ChainAsWritten`, found by counting activations against a fuel bound.
- Engine.Game.Load: both `load` and `move` in the class use the corrected rules (each is a row under "## Findings"). The code as written, with both defects together, is modelled by `Rules.LoadAsWritten`, `Rules.NextLevelAsWritten`, `Rules.SinkAsWritten` and `Rules.ChainAsWritten`.
- Rules.IsStep: `move` is modelled for the nine displacements of at most one cell in each direction. The commands only pass (0, ±1), (-1, ±1) and (1, 0).
- Engine.Game.Get: requires the cell to exist. Outside the grid, the source returns `undefined` for a column past the row's end and throws for a missing row.
- Engine.Game.Width, Engine.Game.Height, Engine.Game.GetPlayer: require the engine's invariant, which every command keeps.
- `Renderer.render` and the draw calls it makes are not part of this model, beyond the bounds that `Center` states for the cells `draw` reads.

## Findings

| source | as written | input that shows it | evidently intended | confidence | as-written member | corrected member |
|---|---|---|---|---|---|---|
| game.js:14-29 | `load` copies the level and locates the player, but leaves `holding` as it was | levels `["xxxxx","x   x","x0<!x","xxxxx"]` then `["xxxx","x  x","x> x","xxxx"]`; a new game, then `grab()` and `right()`. The grab lifts the block onto the player, and the step right carries it onto the goal. The second level is loaded with `holding` still set and no block above the player. A `drop` then puts a block in the level that was never in it | a freshly loaded level starts with `holding` false | not executed | Rules.LoadAsWritten, Rules.NextLevelAsWritten, Findings.HoldingSurvivesWin | Rules.Load |
| game.js:75-77 | `safe && below == ' ' \|\| below == '!'` parses as `(safe && below == ' ') \|\| below == '!'`. Gravity then fires after a blocked step whose target has the goal beneath it | level `["xxxx","x xx","x>!x","xxxx"]`, then `climb()`. The step up into the wall is blocked with the goal under its target, so `move(1, 0)` runs on the unchanged state. Its target is the floor, and its test reads the row below the grid, a TypeError. States where both tests fire forever overflow the stack (`Rules.LoopsIffTrapped`) | `safe && (below == ' ' \|\| below == '!')` | not executed | Rules.ChainAsWritten, Findings.ClimbCrash | Rules.Move |
