/**
  The rules of the game as functions on a snapshot of the engine's state: one
  activation of `move`, the chain of activations that gravity makes of it,
  and level loading.
  The class Engine.Game performs the same steps in place and is proved equal
  to these functions.
 */
module Rules {
  import opened Grid

  /** What a command reads and writes: the grid, the cached player position, `holding` and `lvlnum`. */
  datatype Board = Board(grid: Cells, py: int, px: int, holding: bool, lvlnum: nat)

  /** A level as the engine expects it: walled in, with exactly one player tile. */
  predicate WellFormed(g: Cells) {
    Framed(g) && PlayerCount(g) == 1
  }

  predicate LevelsOk(levels: seq<Cells>) {
    forall i :: 0 <= i < |levels| ==> WellFormed(levels[i])
  }

  /**
    Every cell a command reads exists: the grid is walled in, the player is
    inside the ring, and so is the cell above it while a block is held.
   */
  predicate Placed(b: Board) {
    && Framed(b.grid) && Interior(b.grid, b.py, b.px)
    && (b.holding ==> Interior(b.grid, b.py - 1, b.px))
  }

  /** The cached position holds a player tile, and while holding, a block is directly above it. */
  predicate Tracked(b: Board) {
    && Placed(b)
    && IsPlayer(b.grid[b.py][b.px])
    && (b.holding ==> b.grid[b.py - 1][b.px] == BLOCK)
  }

  /** The engine's invariant: the player tracked, and no other player tile anywhere. */
  predicate Sound(b: Board) {
    Tracked(b) && PlayerCount(b.grid) == 1
  }

  /** What the commands need to be defined: levels that can be loaded, and every cell they read. */
  predicate Ready(levels: seq<Cells>, b: Board) {
    LevelsOk(levels) && Placed(b) && b.lvlnum < |levels|
  }

  predicate Valid(levels: seq<Cells>, b: Board) {
    LevelsOk(levels) && Sound(b) && b.lvlnum < |levels|
  }

  /**
    A displacement to one of the eight neighbouring cells, or none. The
    commands pass a side step (0, -1) or (0, +1) and a climb (-1, -1) or
    (-1, +1); gravity passes (1, 0).
   */
  predicate IsStep(dy: int, dx: int) {
    -1 <= dy <= 1 && -1 <= dx <= 1
  }

  /** The player may enter an empty cell or the goal. */
  predicate Passable(c: char) {
    c == EMPTY || c == GOAL
  }

  /** The player stands on something that is neither empty space nor the goal. */
  predicate Standing(b: Board)
    requires Placed(b)
  {
    !Passable(b.grid[b.py + 1][b.px])
  }

  /** A carried block may enter an empty cell, or the cell the player is leaving. */
  predicate HeadRoom(c: char) {
    c == EMPTY || c == RIGHT || c == LEFT
  }

  /** +1 when the player tile faces right (or is anything but `<`), -1 when it faces left. */
  function Facing(b: Board): (d: int)
    requires InGrid(b.grid, b.py, b.px)
    ensures d == -1 || d == 1
  {
    if b.grid[b.py][b.px] == LEFT then -1 else 1
  }

  /** The test `safe` of `move`: the target is free, and so is the cell above it for a carried block. */
  predicate Safe(b: Board, dy: int, dx: int)
    requires Placed(b) && IsStep(dy, dx)
    ensures Safe(b, dy, dx) ==> Interior(b.grid, b.py + dy, b.px + dx)
    ensures Safe(b, dy, dx) && b.holding ==> Interior(b.grid, b.py + dy - 1, b.px + dx)
  {
    var y, x := b.py + dy, b.px + dx;
    if !Passable(b.grid[y][x]) then false
    else
      NotWallIsInterior(b.grid, y, x);
      if !b.holding then true
      else if HeadRoom(b.grid[y - 1][x]) then NotWallIsInterior(b.grid, y - 1, x); true
      else false
  }

  /** The writes of a safe move to (y, x): the player, the carried block, and the goal cleared on a win. */
  function Shift(b: Board, y: int, x: int, win: bool): (r: Board)
    requires Placed(b) && Interior(b.grid, y, x)
  {
    var g2 := Carry(b.grid, b.py, b.px, y, x, b.holding);
    var g3 := if win then Set(g2, b.py, b.px, EMPTY) else g2;
    b.(grid := g3, py := y, px := x)
  }

  /** Away from the goal, a safe move keeps the player in the ring, with the carried block above it. */
  lemma ShiftPlaced(b: Board, y: int, x: int, win: bool)
    requires Placed(b) && Interior(b.grid, y, x) && (b.holding ==> Interior(b.grid, y - 1, x))
    ensures var r := Shift(b, y, x, win);
            && |r.grid| == |b.grid| && r.holding == b.holding && r.lvlnum == b.lvlnum && r.py == y && r.px == x
            && (!win ==> Placed(r))
  {
    CarryFrame(b.grid, b.py, b.px, y, x, b.holding);
  }

  /** The state after the first part of `move(dy, dx)`: the player moved when safe, unchanged otherwise. */
  function Advance(b: Board, dy: int, dx: int): (r: Board)
    requires Placed(b) && IsStep(dy, dx)
    ensures |r.grid| == |b.grid| && r.holding == b.holding && r.lvlnum == b.lvlnum
    ensures Safe(b, dy, dx) ==> r.py == b.py + dy && r.px == b.px + dx
    ensures !Safe(b, dy, dx) ==> r == b
    ensures b.grid[b.py + dy][b.px + dx] != GOAL ==> Placed(r)
  {
    var y, x := b.py + dy, b.px + dx;
    if Safe(b, dy, dx) then
      ShiftPlaced(b, y, x, b.grid[y][x] == GOAL);
      Shift(b, y, x, b.grid[y][x] == GOAL)
    else b
  }

  /** A safe step moves the player into the ring, with the block above it while holding. */
  lemma SafeShift(b: Board, dy: int, dx: int)
    requires Placed(b) && IsStep(dy, dx) && Safe(b, dy, dx)
    ensures Interior(b.grid, b.py + dy, b.px + dx)
    ensures b.holding ==> Interior(b.grid, b.py + dy - 1, b.px + dx)
    ensures Advance(b, dy, dx) == Shift(b, b.py + dy, b.px + dx, b.grid[b.py + dy][b.px + dx] == GOAL)
  {
  }

  /** How one activation of `move` ends. */
  datatype Step =
    | Win(b: Board)      // the target was the goal: the next level is loaded
    | Rest(b: Board)     // the activation returns
    | Gravity(b: Board)  // the activation ends by calling move(1, 0) on b
    | Fault              // the gravity test reads a row below the grid

  /**
    One activation of `move(dy, dx)` as written, without the recursive call
    it may end with. The gravity test parses as
    `(safe && below == ' ') || below == '!'`, where `below` is the cell under
    the target, so it also fires when the player did not move.
   */
  function MoveStepAsWritten(b: Board, dy: int, dx: int): Step
    requires Placed(b) && IsStep(dy, dx)
  {
    var y, x := b.py + dy, b.px + dx;
    var b1 := Advance(b, dy, dx);
    if b.grid[y][x] == GOAL then Win(b1)
    else if y + 1 == |b1.grid| then Fault
    else if (Safe(b, dy, dx) && b1.grid[y + 1][x] == EMPTY) || b1.grid[y + 1][x] == GOAL then Gravity(b1)
    else Rest(b1)
  }

  /**
    One activation of `move(dy, dx)` with the gravity test as intended,
    `safe && (below == ' ' || below == '!')`: gravity pulls only a player
    that has just moved.
   */
  function MoveStep(b: Board, dy: int, dx: int): (s: Step)
    requires Placed(b) && IsStep(dy, dx)
  {
    var y, x := b.py + dy, b.px + dx;
    var b1 := Advance(b, dy, dx);
    if b.grid[y][x] == GOAL then Win(b1)
    else if Safe(b, dy, dx) && !Standing(b1) then Gravity(b1)
    else Rest(b1)
  }

  /** The column of the last player tile among the first n cells of a row, or -1. */
  function LastPlayerIn(row: seq<char>, n: int): (j: int)
    requires 0 <= n <= |row|
    ensures -1 <= j < n
    ensures j >= 0 ==> IsPlayer(row[j])
    ensures forall k :: j < k < n ==> !IsPlayer(row[k])
    decreases n
  {
    if n == 0 then -1
    else if IsPlayer(row[n - 1]) then n - 1
    else LastPlayerIn(row, n - 1)
  }

  /**
    The position `load` leaves in `player` after scanning the first n rows:
    the last player tile in row-major order, or the given position when those
    rows have none.
   */
  function FindPlayer(g: Cells, n: int, py: int, px: int): (p: (int, int))
    requires 0 <= n <= |g|
    decreases n
  {
    if n == 0 then (py, px)
    else
      var j := LastPlayerIn(g[n - 1], |g[n - 1]|);
      if j >= 0 then (n - 1, j) else FindPlayer(g, n - 1, py, px)
  }

  /** FindPlayer finds the last player tile in row-major order whenever there is one. */
  lemma {:induction false} FindPlayerLast(g: Cells, n: int, py: int, px: int, i: int, j: int)
    requires InGrid(g, i, j) && i < n <= |g| && IsPlayer(g[i][j])
    ensures var p := FindPlayer(g, n, py, px);
            && 0 <= p.0 < n && 0 <= p.1 < |g[p.0]| && IsPlayer(g[p.0][p.1])
            && (p.0 > i || (p.0 == i && p.1 >= j))
    decreases n
  {
    var c := LastPlayerIn(g[n - 1], |g[n - 1]|);
    if c < 0 {
      assert i != n - 1;
      FindPlayerLast(g, n - 1, py, px, i, j);
    }
  }

  /** Without a player tile, FindPlayer keeps the given position. */
  lemma {:induction false} FindPlayerNone(g: Cells, n: int, py: int, px: int)
    requires 0 <= n <= |g|
    requires forall i, j :: InGrid(g, i, j) ==> !IsPlayer(g[i][j])
    ensures FindPlayer(g, n, py, px) == (py, px)
    decreases n
  {
    if n > 0 {
      var row := g[n - 1];
      forall j | 0 <= j < |row| ensures !IsPlayer(row[j]) {
        assert InGrid(g, n - 1, j);
      }
      FindPlayerNone(g, n - 1, py, px);
    }
  }

  /**
    `load()` as written: copy the level `lvlnum` and locate the player; the
    holding flag is left as it was.
   */
  function LoadAsWritten(levels: seq<Cells>, b: Board): (r: Board)
    requires b.lvlnum < |levels|
  {
    var g := levels[b.lvlnum];
    var p := FindPlayer(g, |g|, b.py, b.px);
    Board(g, p.0, p.1, b.holding, b.lvlnum)
  }

  /** `load()` with `holding` reset, as a freshly loaded level has no carried block. */
  function Load(levels: seq<Cells>, b: Board): (r: Board)
    requires b.lvlnum < |levels|
  {
    LoadAsWritten(levels, b).(holding := false)
  }

  /** Loading a well-formed level re-establishes the invariant, with the player at its tile. */
  lemma LoadSound(levels: seq<Cells>, b: Board)
    requires LevelsOk(levels) && b.lvlnum < |levels|
    ensures Valid(levels, Load(levels, b))
    ensures Load(levels, b).grid == levels[b.lvlnum] && Load(levels, b).lvlnum == b.lvlnum
    ensures !Load(levels, b).holding
  {
    var g := levels[b.lvlnum];
    assert WellFormed(g);
    if forall i, j :: InGrid(g, i, j) ==> !IsPlayer(g[i][j]) {
      AbsentNowhereConverse(g);
      assert false;
    }
    var i, j :| InGrid(g, i, j) && IsPlayer(g[i][j]);
    FindPlayerLast(g, |g|, b.py, b.px, i, j);
    var p := FindPlayer(g, |g|, b.py, b.px);
    NotWallIsInterior(g, p.0, p.1);
  }

  /** A grid with a player count above zero has a player cell. */
  lemma AbsentNowhereConverse(g: Cells)
    requires PlayerCount(g) > 0
    ensures exists i, j :: InGrid(g, i, j) && IsPlayer(g[i][j])
  {
    if forall i, j :: InGrid(g, i, j) ==> !IsPlayer(g[i][j]) {
      NoPlayerNoCount(g);
      assert false;
    }
  }

  lemma NoPlayerNoCount(g: Cells)
    requires forall i, j :: InGrid(g, i, j) ==> !IsPlayer(g[i][j])
    ensures PlayerCount(g) == 0
  {
    NowhereAbsent(g, LEFT, |g|);
    NowhereAbsent(g, RIGHT, |g|);
  }

  /** How a whole `move` call ends. */
  datatype Outcome =
    | Done(b: Board)  // the call returns with this state
    | Loops           // the recursion has not ended within the fuel given
    | Throws          // the call reads past the grid or past the level list

  /**
    Winning: `lvlnum++` and `load()`. Past the last level the level list has
    no entry to load, and `load` throws.
   */
  function NextLevel(levels: seq<Cells>, b: Board): (r: Outcome)
    requires LevelsOk(levels)
    ensures r.Done? || r.Throws?
    ensures r.Done? <==> b.lvlnum + 1 < |levels|
    ensures r.Done? ==> Placed(r.b) && r.b.grid == levels[b.lvlnum + 1]
    ensures r.Done? ==> r.b.lvlnum == b.lvlnum + 1 && !r.b.holding
  {
    if b.lvlnum + 1 < |levels| then
      LoadSound(levels, b.(lvlnum := b.lvlnum + 1));
      Done(Load(levels, b.(lvlnum := b.lvlnum + 1)))
    else Throws
  }

  /**
    Winning as written: `lvlnum++` and the `load()` of game.js, which leaves
    `holding` as it was. The player is inside the ring of the new level, but
    the cell above it need not be.
   */
  function NextLevelAsWritten(levels: seq<Cells>, b: Board): (r: Outcome)
    requires LevelsOk(levels)
    ensures r.Done? || r.Throws?
    ensures r.Done? <==> b.lvlnum + 1 < |levels|
    ensures r.Done? ==> r.b.grid == levels[b.lvlnum + 1] && r.b.lvlnum == b.lvlnum + 1 && r.b.holding == b.holding
    ensures r.Done? ==> Placed(r.b.(holding := false))
  {
    if b.lvlnum + 1 < |levels| then
      LoadSound(levels, b.(lvlnum := b.lvlnum + 1));
      Done(LoadAsWritten(levels, b.(lvlnum := b.lvlnum + 1)))
    else Throws
  }

  /**
    An outcome with `holding` cleared if it is on a level other than lvl:
    what the corrected `load` changes in an outcome of the code as written.
   */
  function ClearOnLoad(r: Outcome, lvl: nat): Outcome {
    if r.Done? && r.b.lvlnum != lvl then Done(r.b.(holding := false)) else r
  }

  /** The as-written win and the corrected one differ only in `holding` on the loaded level. */
  lemma NextLevelAgrees(levels: seq<Cells>, b: Board)
    requires LevelsOk(levels)
    ensures ClearOnLoad(NextLevelAsWritten(levels, b), b.lvlnum) == NextLevel(levels, b)
  {
  }

  /** The level NextLevel loads satisfies the invariant. */
  lemma NextLevelSound(levels: seq<Cells>, b: Board)
    requires LevelsOk(levels)
    ensures NextLevel(levels, b).Done? ==> Valid(levels, NextLevel(levels, b).b)
  {
    if b.lvlnum + 1 < |levels| {
      LoadSound(levels, b.(lvlnum := b.lvlnum + 1));
    }
  }

  /**
    A step that does not reach the goal keeps the player tracked: a safe step
    carries the player's tile, and the block, to the target.
   */
  lemma AdvanceTracked(b: Board, dy: int, dx: int)
    requires Tracked(b) && IsStep(dy, dx) && b.grid[b.py + dy][b.px + dx] != GOAL
    ensures Tracked(Advance(b, dy, dx))
    ensures Advance(b, dy, dx).grid[Advance(b, dy, dx).py][Advance(b, dy, dx).px] == b.grid[b.py][b.px]
  {
    var y, x := b.py + dy, b.px + dx;
    if Safe(b, dy, dx) {
      CarryMoves(b.grid, b.py, b.px, y, x, b.holding);
    }
  }

  /** A step that does not reach the goal keeps the invariant and the tiles. */
  lemma AdvanceSound(b: Board, dy: int, dx: int)
    requires Sound(b) && IsStep(dy, dx) && b.grid[b.py + dy][b.px + dx] != GOAL
    ensures Sound(Advance(b, dy, dx)) && Tiles(Advance(b, dy, dx).grid) == Tiles(b.grid)
  {
    AdvanceTracked(b, dy, dx);
    var y, x := b.py + dy, b.px + dx;
    if Safe(b, dy, dx) {
      CarryTiles(b.grid, b.py, b.px, y, x, b.holding);
    }
  }

  /**
    `move(1, 0)` as written, the call gravity makes, with the calls it makes
    in turn, allowed at most `fuel` activations. A win loads the next level
    as game.js does, keeping `holding`; no activation changes `holding`.
   */
  function SinkAsWritten(levels: seq<Cells>, b: Board, fuel: nat): (r: Outcome)
    requires Ready(levels, b)
    ensures r.Done? ==> Placed(r.b.(holding := false)) && r.b.lvlnum < |levels| && r.b.holding == b.holding
    ensures r.Done? && r.b.lvlnum == b.lvlnum ==> Placed(r.b)
    decreases fuel
  {
    if fuel == 0 then Loops
    else
      match MoveStepAsWritten(b, 1, 0)
      case Win(b1) => NextLevelAsWritten(levels, b1)
      case Rest(b1) => Done(b1)
      case Gravity(b1) => SinkAsWritten(levels, b1, fuel - 1)
      case Fault => Throws
  }

  /**
    `move(dy, dx)` as written, with its chain of gravity calls, allowed at
    most `fuel` activations. A win loads the next level as game.js does,
    keeping `holding`, and ends the chain.
   */
  function ChainAsWritten(levels: seq<Cells>, b: Board, dy: int, dx: int, fuel: nat): (r: Outcome)
    requires Ready(levels, b) && IsStep(dy, dx)
    ensures r.Done? ==> Placed(r.b.(holding := false)) && r.b.lvlnum < |levels| && r.b.holding == b.holding
    ensures r.Done? && r.b.lvlnum == b.lvlnum ==> Placed(r.b)
  {
    if fuel == 0 then Loops
    else
      match MoveStepAsWritten(b, dy, dx)
      case Win(b1) => NextLevelAsWritten(levels, b1)
      case Rest(b1) => Done(b1)
      case Gravity(b1) => SinkAsWritten(levels, b1, fuel - 1)
      case Fault => Throws
  }

  /** Enough activations for any chain that ends: one per row, and one more. */
  function Fuel(b: Board): nat {
    |b.grid| + 1
  }

  /**
    `move(1, 0)` with the intended gravity test, and the calls it makes in
    turn. Each call that does not end the chain moves the player one row
    down, so the chain ends.
   */
  function Sink(levels: seq<Cells>, b: Board): (r: Outcome)
    requires Ready(levels, b)
    ensures !r.Loops?
    ensures r.Done? ==> Placed(r.b) && r.b.lvlnum < |levels|
    decreases |b.grid| - b.py
  {
    var s := MoveStep(b, 1, 0);
    if s.Win? then NextLevel(levels, s.b)
    else if s.Gravity? then Sink(levels, s.b)
    else Done(s.b)
  }

  /**
    `move(dy, dx)` with the intended gravity test: one step, then the
    gravity chain if the player moved over an empty cell or the goal.
   */
  function Move(levels: seq<Cells>, b: Board, dy: int, dx: int): (r: Outcome)
    requires Ready(levels, b) && IsStep(dy, dx)
    ensures !r.Loops?
    ensures r.Done? ==> Placed(r.b) && r.b.lvlnum < |levels|
  {
    var s := MoveStep(b, dy, dx);
    if s.Win? then NextLevel(levels, s.b)
    else if s.Gravity? then Sink(levels, s.b)
    else Done(s.b)
  }

  /**
    `move(dy, dx)` unfolded by one activation: a win loads the next level, a
    rest returns, and gravity continues as `move(1, 0)` from a state that
    keeps the invariant, one row further down.
   */
  lemma MoveUnfold(levels: seq<Cells>, b: Board, dy: int, dx: int)
    requires Valid(levels, b) && IsStep(dy, dx)
    ensures var s := MoveStep(b, dy, dx);
            && !s.Fault?
            && (s.Win? ==> Move(levels, b, dy, dx) == NextLevel(levels, s.b) && s.b.lvlnum == b.lvlnum)
            && (s.Rest? ==> Move(levels, b, dy, dx) == Done(s.b))
            && (s.Gravity? ==> Valid(levels, s.b) && Move(levels, b, dy, dx) == Move(levels, s.b, 1, 0))
            && (s.Gravity? ==> |s.b.grid| == |b.grid| && s.b.py == b.py + dy)
  {
    var s := MoveStep(b, dy, dx);
    if s.Gravity? {
      AdvanceSound(b, dy, dx);
    }
  }

  /**
    The gravity chain keeps the invariant; it throws only past the last
    level, and keeps the tiles, the carried block and the player's own tile
    unless it loads a level.
   */
  lemma {:induction false} SinkSound(levels: seq<Cells>, b: Board)
    requires Valid(levels, b)
    ensures var r := Sink(levels, b);
            && (r.Throws? ==> b.lvlnum + 1 == |levels|)
            && (r.Done? ==> Valid(levels, r.b) && (r.b.lvlnum == b.lvlnum || r.b.lvlnum == b.lvlnum + 1))
            && (r.Done? && r.b.lvlnum == b.lvlnum ==> Tiles(r.b.grid) == Tiles(b.grid) && r.b.holding == b.holding)
            && (r.Done? && r.b.lvlnum == b.lvlnum ==> r.b.grid[r.b.py][r.b.px] == b.grid[b.py][b.px])
    decreases |b.grid| - b.py
  {
    var s := MoveStep(b, 1, 0);
    if s.Win? {
      NextLevelSound(levels, s.b);
    } else {
      AdvanceSound(b, 1, 0);
      AdvanceTracked(b, 1, 0);
      if s.Gravity? {
        SinkSound(levels, s.b);
      }
    }
  }

  /** `move` keeps the invariant as the gravity chain does. */
  lemma MoveSound(levels: seq<Cells>, b: Board, dy: int, dx: int)
    requires Valid(levels, b) && IsStep(dy, dx)
    ensures var r := Move(levels, b, dy, dx);
            && (r.Throws? ==> b.lvlnum + 1 == |levels|)
            && (r.Done? ==> Valid(levels, r.b) && (r.b.lvlnum == b.lvlnum || r.b.lvlnum == b.lvlnum + 1))
            && (r.Done? && r.b.lvlnum == b.lvlnum ==> Tiles(r.b.grid) == Tiles(b.grid) && r.b.holding == b.holding)
            && (r.Done? && r.b.lvlnum == b.lvlnum ==> r.b.grid[r.b.py][r.b.px] == b.grid[b.py][b.px])
  {
    var s := MoveStep(b, dy, dx);
    if s.Win? {
      NextLevelSound(levels, s.b);
    } else {
      AdvanceSound(b, dy, dx);
      AdvanceTracked(b, dy, dx);
      if s.Gravity? {
        SinkSound(levels, s.b);
      }
    }
  }

  /** The as-written step faults exactly on a downward step from the row above the floor. */
  lemma StepFaultIff(b: Board, dy: int, dx: int)
    requires Placed(b) && IsStep(dy, dx)
    ensures MoveStepAsWritten(b, dy, dx).Fault? <==> dy == 1 && b.py + 2 == |b.grid|
  {
    var y, x := b.py + dy, b.px + dx;
    if dy == 1 && b.py + 2 == |b.grid| {
      assert b.grid[y][x] == WALL;
    }
  }

  /** When the player moves or wins, the as-written step and the intended one agree. */
  lemma StepsAgree(b: Board, dy: int, dx: int)
    requires Placed(b) && IsStep(dy, dx)
    requires Safe(b, dy, dx) || b.grid[b.py + dy][b.px + dx] == GOAL
    ensures MoveStepAsWritten(b, dy, dx) == MoveStep(b, dy, dx)
  {
  }

  /**
    A blocked step leaves the player where it is. The intended step then
    returns; the as-written one still looks under the target, and calls
    move(1, 0) when the goal is there.
   */
  lemma BlockedStep(b: Board, dy: int, dx: int)
    requires Placed(b) && IsStep(dy, dx)
    requires !Safe(b, dy, dx) && b.grid[b.py + dy][b.px + dx] != GOAL
    ensures MoveStep(b, dy, dx) == Rest(b)
    ensures var y, x := b.py + dy, b.px + dx;
            MoveStepAsWritten(b, dy, dx) ==
              if y + 1 == |b.grid| then Fault else if b.grid[y + 1][x] == GOAL then Gravity(b) else Rest(b)
  {
  }

  /** A blocked move changes nothing. */
  lemma MoveBlocked(levels: seq<Cells>, b: Board, dy: int, dx: int)
    requires Ready(levels, b) && IsStep(dy, dx)
    requires !Safe(b, dy, dx) && b.grid[b.py + dy][b.px + dx] != GOAL
    ensures Move(levels, b, dy, dx) == Done(b)
  {
    BlockedStep(b, dy, dx);
  }

  /** A move onto the goal (safe or not) loads the next level, and throws past the last one. */
  lemma MoveWins(levels: seq<Cells>, b: Board, dy: int, dx: int)
    requires Ready(levels, b) && IsStep(dy, dx) && b.grid[b.py + dy][b.px + dx] == GOAL
    ensures var r := Move(levels, b, dy, dx);
            && (r.Done? <==> b.lvlnum + 1 < |levels|)
            && (r.Done? ==> r.b.grid == levels[b.lvlnum + 1] && r.b.lvlnum == b.lvlnum + 1 && !r.b.holding)
  {
    assert Move(levels, b, dy, dx) == NextLevel(levels, Advance(b, dy, dx));
  }

  /**
    A safe step to an empty cell: the player and its tile arrive at the
    target, and gravity pulls exactly when the cell below is empty or the goal.
   */
  lemma SafeStep(b: Board, dy: int, dx: int)
    requires Tracked(b) && IsStep(dy, dx) && Safe(b, dy, dx) && b.grid[b.py + dy][b.px + dx] == EMPTY
    ensures var b1 := Advance(b, dy, dx);
            && Tracked(b1) && b1.py == b.py + dy && b1.px == b.px + dx
            && MoveStep(b, dy, dx) == (if Standing(b1) then Rest(b1) else Gravity(b1))
  {
    AdvanceTracked(b, dy, dx);
  }

  /**
    One row of a fall: the player steps into the empty cell below it, and
    both gravity tests then agree on whether the fall goes on.
   */
  lemma FallStep(b: Board)
    requires Tracked(b) && b.grid[b.py + 1][b.px] == EMPTY
    ensures Safe(b, 1, 0)
    ensures var b1 := Advance(b, 1, 0);
            && Tracked(b1) && b1.py == b.py + 1 && b1.px == b.px
            && MoveStep(b, 1, 0) == (if Standing(b1) then Rest(b1) else Gravity(b1))
            && MoveStepAsWritten(b, 1, 0) == MoveStep(b, 1, 0)
  {
    assert Safe(b, 1, 0);
    SafeStep(b, 1, 0);
  }

  /**
    A step down into an empty cell: both gravity tests agree, the player
    is one row lower in the same column, and gravity goes on exactly when
    it is now over empty space or the goal.
   */
  lemma FallTarget(levels: seq<Cells>, b: Board)
    requires Ready(levels, b) && Tracked(b) && b.grid[b.py + 1][b.px] == EMPTY
    ensures var s := MoveStep(b, 1, 0);
            && MoveStepAsWritten(b, 1, 0) == s && (s == Rest(s.b) || s == Gravity(s.b))
            && Ready(levels, s.b) && Tracked(s.b) && s.b.py == b.py + 1 && s.b.px == b.px && s.b.lvlnum == b.lvlnum
            && |s.b.grid| == |b.grid| && b.py + 2 < |b.grid| && |s.b.grid| - s.b.py < |b.grid| - b.py
            && (s.Gravity? <==> !Standing(s.b))
  {
    FallStep(b);
  }

  /**
    Gravity from a player standing over an empty cell or the goal: the player
    drops straight down until something that is neither empty nor the goal
    holds it, unless it falls onto the goal.
   */
  lemma {:induction false} FallLands(levels: seq<Cells>, b: Board)
    requires Ready(levels, b) && Tracked(b) && !Standing(b)
    ensures var r := Sink(levels, b);
            r.Done? && r.b.lvlnum == b.lvlnum ==>
              r.b.px == b.px && r.b.py > b.py && Standing(r.b)
    decreases |b.grid| - b.py, 1
  {
    if b.grid[b.py + 1][b.px] == EMPTY {
      FallLandsOnEmpty(levels, b);
    } else {
      FallOntoGoal(levels, b);
    }
  }

  /** Gravity over the goal: the player steps onto it and the next level is loaded. */
  lemma FallOntoGoal(levels: seq<Cells>, b: Board)
    requires Ready(levels, b) && b.grid[b.py + 1][b.px] == GOAL
    ensures MoveStep(b, 1, 0).Win? && MoveStep(b, 1, 0).b.lvlnum == b.lvlnum
    ensures Sink(levels, b) == NextLevel(levels, MoveStep(b, 1, 0).b)
  {
  }

  /** FallLands for a player over an empty cell: one row down, then the rest of the fall. */
  lemma {:induction false} FallLandsOnEmpty(levels: seq<Cells>, b: Board)
    requires Ready(levels, b) && Tracked(b) && b.grid[b.py + 1][b.px] == EMPTY
    ensures var r := Sink(levels, b);
            r.Done? && r.b.lvlnum == b.lvlnum ==>
              r.b.px == b.px && r.b.py > b.py && Standing(r.b)
    decreases |b.grid| - b.py, 0
  {
    FallTarget(levels, b);
    var s := MoveStep(b, 1, 0);
    if s.Gravity? {
      FallLands(levels, s.b);
    }
  }

  /**
    A safe move to an empty cell: the player ends in the target column, at
    or below the target row, on something that holds it, unless a fall
    reaches the goal.
   */
  lemma MoveLands(levels: seq<Cells>, b: Board, dy: int, dx: int)
    requires Ready(levels, b) && Tracked(b) && IsStep(dy, dx)
    requires Safe(b, dy, dx) && b.grid[b.py + dy][b.px + dx] == EMPTY
    ensures var r := Move(levels, b, dy, dx);
            r.Done? && r.b.lvlnum == b.lvlnum ==>
              r.b.px == b.px + dx && r.b.py >= b.py + dy && Standing(r.b)
  {
    var b1 := Advance(b, dy, dx);
    var fall := !Standing(b1);
    assert Tracked(b1) && b1.py == b.py + dy && b1.px == b.px + dx && b1.lvlnum == b.lvlnum
           && MoveStep(b, dy, dx) == (if fall then Gravity(b1) else Rest(b1)) by {
      SafeStep(b, dy, dx);
    }
    if fall {
      assert Move(levels, b, dy, dx) == Sink(levels, b1);
      FallLands(levels, b1);
    } else {
      assert Move(levels, b, dy, dx) == Done(b1);
    }
  }

  /**
    The as-written chain of a fall agrees with the intended one, given one
    activation per row, except that a fall onto the goal loads the next level
    with `holding` kept.
   */
  lemma {:induction false} FallAgrees(levels: seq<Cells>, b: Board, fuel: nat)
    requires Ready(levels, b) && Tracked(b) && !Standing(b)
    requires fuel >= |b.grid| - 1 - b.py
    ensures ClearOnLoad(SinkAsWritten(levels, b, fuel), b.lvlnum) == Sink(levels, b)
    decreases |b.grid| - b.py, 1, 0
  {
    if b.grid[b.py + 1][b.px] == GOAL {
      assert MoveStepAsWritten(b, 1, 0) == MoveStep(b, 1, 0);
      NextLevelAgrees(levels, MoveStep(b, 1, 0).b);
    } else {
      FallAgreesOnEmpty(levels, b, fuel);
    }
  }

  /** FallAgrees for a player over an empty cell: one row down, then the rest of the fall. */
  lemma {:induction false} FallAgreesOnEmpty(levels: seq<Cells>, b: Board, fuel: nat)
    requires Ready(levels, b) && Tracked(b) && b.grid[b.py + 1][b.px] == EMPTY
    requires fuel >= |b.grid| - 1 - b.py
    ensures ClearOnLoad(SinkAsWritten(levels, b, fuel), b.lvlnum) == Sink(levels, b)
    decreases |b.grid| - b.py, 0, 1
  {
    FallTarget(levels, b);
    var s := MoveStep(b, 1, 0);
    if s.Gravity? {
      FallAgreesBelow(levels, b, fuel, s.b);
      SinkAgreeStep(levels, b, fuel, s.b);
    } else {
      SinkAgreeRest(levels, b, fuel, s.b);
    }
  }

  /** FallAgrees for the player one row down, when it is again over empty space or the goal. */
  lemma {:induction false} FallAgreesBelow(levels: seq<Cells>, b: Board, fuel: nat, b1: Board)
    requires Ready(levels, b1) && Tracked(b1) && !Standing(b1)
    requires fuel > 0 && fuel - 1 >= |b1.grid| - 1 - b1.py && |b1.grid| - b1.py < |b.grid| - b.py
    ensures ClearOnLoad(SinkAsWritten(levels, b1, fuel - 1), b1.lvlnum) == Sink(levels, b1)
    decreases |b.grid| - b.py, 0, 0
  {
    FallAgrees(levels, b1, fuel - 1);
  }

  /** When both gravity tests return on the first activation, the two gravity chains agree. */
  lemma SinkAgreeRest(levels: seq<Cells>, b: Board, fuel: nat, b1: Board)
    requires Ready(levels, b) && fuel > 0
    requires MoveStepAsWritten(b, 1, 0) == Rest(b1) && MoveStep(b, 1, 0) == Rest(b1)
    ensures SinkAsWritten(levels, b, fuel) == Sink(levels, b) == Done(b1)
  {
    SinkUnfold(levels, b, fuel);
  }

  /** When both gravity tests call gravity on the same state, and the chains from there agree, the two gravity chains agree. */
  lemma SinkAgreeStep(levels: seq<Cells>, b: Board, fuel: nat, b1: Board)
    requires Ready(levels, b) && fuel > 0
    requires MoveStepAsWritten(b, 1, 0) == Gravity(b1) && MoveStep(b, 1, 0) == Gravity(b1)
    requires Ready(levels, b1) && ClearOnLoad(SinkAsWritten(levels, b1, fuel - 1), b1.lvlnum) == Sink(levels, b1)
    ensures ClearOnLoad(SinkAsWritten(levels, b, fuel), b.lvlnum) == Sink(levels, b)
  {
    SinkUnfold(levels, b, fuel);
  }

  /** The as-written gravity call with activations left: one activation, then what that activation ends with. */
  lemma SinkUnfold(levels: seq<Cells>, b: Board, fuel: nat)
    requires Ready(levels, b) && fuel > 0
    ensures var t := MoveStepAsWritten(b, 1, 0);
            SinkAsWritten(levels, b, fuel) ==
              if t.Win? then NextLevelAsWritten(levels, t.b)
              else if t.Rest? then Done(t.b)
              else if t.Gravity? then SinkAsWritten(levels, t.b, fuel - 1)
              else Throws
  {
  }

  /**
    Whenever the first step moves the player or wins, the as-written `move`
    and the intended one agree, except that a win keeps `holding` on the
    loaded level as written.
   */
  lemma ChainAgrees(levels: seq<Cells>, b: Board, dy: int, dx: int)
    requires Ready(levels, b) && Tracked(b) && IsStep(dy, dx)
    requires Safe(b, dy, dx) || b.grid[b.py + dy][b.px + dx] == GOAL
    ensures ClearOnLoad(ChainAsWritten(levels, b, dy, dx, Fuel(b)), b.lvlnum) == Move(levels, b, dy, dx)
  {
    StepsAgree(b, dy, dx);
    var s := MoveStep(b, dy, dx);
    ChainUnfold(levels, b, dy, dx, Fuel(b));
    if s.Win? {
      NextLevelAgrees(levels, s.b);
    } else if s.Gravity? {
      GravityFalls(levels, b, dy, dx);
    }
  }

  /** The as-written `move` with fuel left: one activation, then what that activation ends with. */
  lemma ChainUnfold(levels: seq<Cells>, b: Board, dy: int, dx: int, fuel: nat)
    requires Ready(levels, b) && IsStep(dy, dx) && fuel > 0
    ensures var t := MoveStepAsWritten(b, dy, dx);
            ChainAsWritten(levels, b, dy, dx, fuel) ==
              if t.Win? then NextLevelAsWritten(levels, t.b)
              else if t.Rest? then Done(t.b)
              else if t.Gravity? then SinkAsWritten(levels, t.b, fuel - 1)
              else Throws
  {
  }

  /**
    When the intended step calls gravity, the player stepped onto an empty
    cell and stands over empty space or the goal, so the as-written chain
    from there, given the remaining activations, is the intended one.
   */
  lemma GravityFalls(levels: seq<Cells>, b: Board, dy: int, dx: int)
    requires Ready(levels, b) && Tracked(b) && IsStep(dy, dx) && MoveStep(b, dy, dx).Gravity?
    ensures var b1 := MoveStep(b, dy, dx).b;
            && Ready(levels, b1) && b1.lvlnum == b.lvlnum
            && ClearOnLoad(SinkAsWritten(levels, b1, Fuel(b) - 1), b1.lvlnum) == Sink(levels, b1)
            && Move(levels, b, dy, dx) == Sink(levels, b1)
  {
    GravityTarget(b, dy, dx);
    FallAgrees(levels, MoveStep(b, dy, dx).b, Fuel(b) - 1);
  }

  /** When the intended step calls gravity, the player moved one row by dy, into the ring, over empty space or the goal. */
  lemma GravityTarget(b: Board, dy: int, dx: int)
    requires Tracked(b) && IsStep(dy, dx) && MoveStep(b, dy, dx).Gravity?
    ensures var b1 := MoveStep(b, dy, dx).b;
            && Tracked(b1) && b1.lvlnum == b.lvlnum && !Standing(b1)
            && |b1.grid| == |b.grid| && b1.py == b.py + dy
  {
    assert Safe(b, dy, dx) && b.grid[b.py + dy][b.px + dx] == EMPTY && MoveStep(b, dy, dx).b == Advance(b, dy, dx);
    SafeStep(b, dy, dx);
  }

  /**
    The as-written trap: a blocked step with the goal under its target, from
    a player whose own step down is blocked with the goal under it. Every
    activation then calls move(1, 0) on the same state.
   */
  predicate Trapped(b: Board, dy: int, dx: int)
    requires Placed(b) && IsStep(dy, dx)
  {
    MoveStepAsWritten(b, dy, dx) == Gravity(b) && MoveStepAsWritten(b, 1, 0) == Gravity(b)
  }

  /** A gravity call on a state whose own step down calls gravity on it again never returns. */
  lemma {:induction false} SinkTrapLoops(levels: seq<Cells>, b: Board, fuel: nat)
    requires Ready(levels, b) && MoveStepAsWritten(b, 1, 0) == Gravity(b)
    ensures SinkAsWritten(levels, b, fuel) == Loops
    decreases fuel
  {
    if fuel > 0 {
      SinkTrapLoops(levels, b, fuel - 1);
    }
  }

  /** A trapped `move` never returns, however many activations it is given. */
  lemma TrapLoops(levels: seq<Cells>, b: Board, dy: int, dx: int, fuel: nat)
    requires Ready(levels, b) && IsStep(dy, dx) && Trapped(b, dy, dx)
    ensures ChainAsWritten(levels, b, dy, dx, fuel) == Loops
  {
    if fuel > 0 {
      SinkTrapLoops(levels, b, fuel - 1);
    }
  }

  /** A gravity call that is not trapped ends within one activation per row. */
  lemma SinkEnds(levels: seq<Cells>, b: Board)
    requires Ready(levels, b) && Tracked(b) && MoveStepAsWritten(b, 1, 0) != Gravity(b)
    ensures SinkAsWritten(levels, b, |b.grid|) != Loops
  {
    var t := MoveStepAsWritten(b, 1, 0);
    if t.Gravity? {
      AdvanceTracked(b, 1, 0);
      if !Safe(b, 1, 0) {
        assert false;
      }
      FallEnds(levels, t.b, |b.grid| - 1);
      SinkUnfold(levels, b, |b.grid|);
    }
  }

  /** A fall given one activation per row ends. */
  lemma FallEnds(levels: seq<Cells>, b: Board, fuel: nat)
    requires Ready(levels, b) && Tracked(b) && !Standing(b)
    requires fuel >= |b.grid| - 1 - b.py
    ensures SinkAsWritten(levels, b, fuel) != Loops
  {
    FallAgrees(levels, b, fuel);
  }

  /** An as-written `move` that is not trapped ends within one activation per row, and one more. */
  lemma UntrappedEnds(levels: seq<Cells>, b: Board, dy: int, dx: int)
    requires Ready(levels, b) && Tracked(b) && IsStep(dy, dx) && !Trapped(b, dy, dx)
    ensures ChainAsWritten(levels, b, dy, dx, Fuel(b)) != Loops
  {
    ChainUnfold(levels, b, dy, dx, Fuel(b));
    if Safe(b, dy, dx) || b.grid[b.py + dy][b.px + dx] == GOAL {
      ChainAgrees(levels, b, dy, dx);
    } else if MoveStepAsWritten(b, dy, dx).Gravity? {
      BlockedStep(b, dy, dx);
      SinkEnds(levels, b);
    }
  }

  /** The as-written `move` runs past one activation per row, and one more, exactly when it is trapped. */
  lemma LoopsIffTrapped(levels: seq<Cells>, b: Board, dy: int, dx: int)
    requires Ready(levels, b) && Tracked(b) && IsStep(dy, dx)
    ensures ChainAsWritten(levels, b, dy, dx, Fuel(b)) == Loops <==> Trapped(b, dy, dx)
  {
    if Trapped(b, dy, dx) {
      TrapLoops(levels, b, dy, dx, Fuel(b));
    } else {
      UntrappedEnds(levels, b, dy, dx);
    }
  }
}
