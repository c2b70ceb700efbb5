/**
  The player commands of the game: left, right, climb, grab and drop, as
  functions on a snapshot of the engine's state.
 */
module Commands {
  import opened Grid
  import opened Rules

  /**
    The last write of `left()` and `right()`: the player tile, wherever
    `move` left the player (on the next level after a win), takes the new
    facing.
   */
  function Turn(o: Outcome, c: char): (r: Outcome)
    requires o.Done? ==> Placed(o.b)
    requires IsPlayer(c)
    ensures r.Done? <==> o.Done?
    ensures !r.Done? ==> r == o
    ensures r.Done? ==> Placed(r.b) && r.b.grid[r.b.py][r.b.px] == c
  {
    match o
    case Done(b) =>
      SetKeepsFrame(b.grid, b.py, b.px, c);
      Done(b.(grid := Set(b.grid, b.py, b.px, c)))
    case _ => o
  }

  /** `left()`: move(0, -1), then face left. */
  function Left(levels: seq<Cells>, b: Board): (r: Outcome)
    requires Ready(levels, b)
    ensures !r.Loops?
    ensures r.Done? ==> Placed(r.b) && r.b.lvlnum < |levels| && r.b.grid[r.b.py][r.b.px] == LEFT
  {
    Turn(Move(levels, b, 0, -1), LEFT)
  }

  /** `right()`: move(0, +1), then face right. */
  function Right(levels: seq<Cells>, b: Board): (r: Outcome)
    requires Ready(levels, b)
    ensures !r.Loops?
    ensures r.Done? ==> Placed(r.b) && r.b.lvlnum < |levels| && r.b.grid[r.b.py][r.b.px] == RIGHT
  {
    Turn(Move(levels, b, 0, 1), RIGHT)
  }

  /** Replacing the player tile by another player tile keeps the number of player tiles. */
  lemma TurnCount(m: multiset<char>, c: char, d: char)
    requires IsPlayer(c) && IsPlayer(d) && m[c] > 0
    ensures (m - multiset{c} + multiset{d})[LEFT] + (m - multiset{c} + multiset{d})[RIGHT] == m[LEFT] + m[RIGHT]
  {
  }

  /**
    Turning keeps the invariant; on the same level the only tile that
    changes is the player's, which takes the new facing.
   */
  lemma TurnSound(levels: seq<Cells>, b: Board, o: Outcome, c: char)
    requires o.Done? ==> Valid(levels, o.b)
    requires IsPlayer(c)
    ensures var r := Turn(o, c);
            r.Done? ==> && Valid(levels, r.b)
                        && Tiles(r.b.grid) == Tiles(o.b.grid) - multiset{o.b.grid[o.b.py][o.b.px]} + multiset{c}
                        && r.b.py == o.b.py && r.b.px == o.b.px && r.b.holding == o.b.holding
                        && r.b.lvlnum == o.b.lvlnum
  {
    if o.Done? {
      var g := o.b.grid;
      TilesSet(g, o.b.py, o.b.px, c);
      PresentCounted(g, o.b.py, o.b.px, |g|);
      TurnCount(Tiles(g), g[o.b.py][o.b.px], c);
    }
  }

  /**
    `left()` keeps the invariant and throws only past the last level; on the
    same level the tiles change only by the player's new facing.
   */
  lemma LeftSound(levels: seq<Cells>, b: Board)
    requires Valid(levels, b)
    ensures var r := Left(levels, b);
            && (r.Throws? ==> b.lvlnum + 1 == |levels|)
            && (r.Done? ==> Valid(levels, r.b) && (r.b.lvlnum == b.lvlnum || r.b.lvlnum == b.lvlnum + 1))
            && (r.Done? && r.b.lvlnum == b.lvlnum ==>
                  Tiles(r.b.grid) == Tiles(b.grid) - multiset{b.grid[b.py][b.px]} + multiset{LEFT}
                  && r.b.holding == b.holding)
  {
    MoveSound(levels, b, 0, -1);
    var o := Move(levels, b, 0, -1);
    TurnSound(levels, b, o, LEFT);
  }

  /** `right()` keeps the invariant as `left()` does. */
  lemma RightSound(levels: seq<Cells>, b: Board)
    requires Valid(levels, b)
    ensures var r := Right(levels, b);
            && (r.Throws? ==> b.lvlnum + 1 == |levels|)
            && (r.Done? ==> Valid(levels, r.b) && (r.b.lvlnum == b.lvlnum || r.b.lvlnum == b.lvlnum + 1))
            && (r.Done? && r.b.lvlnum == b.lvlnum ==>
                  Tiles(r.b.grid) == Tiles(b.grid) - multiset{b.grid[b.py][b.px]} + multiset{RIGHT}
                  && r.b.holding == b.holding)
  {
    MoveSound(levels, b, 0, 1);
    var o := Move(levels, b, 0, 1);
    TurnSound(levels, b, o, RIGHT);
  }

  /** Pushing against anything but empty space or the goal only turns the player. */
  lemma LeftBlocked(levels: seq<Cells>, b: Board)
    requires Ready(levels, b)
    requires !Safe(b, 0, -1) && b.grid[b.py][b.px - 1] != GOAL
    ensures Left(levels, b) == Done(b.(grid := Set(b.grid, b.py, b.px, LEFT)))
  {
    MoveBlocked(levels, b, 0, -1);
  }

  /**
    `climb()`: a step up and forwards, tried only against a ledge with no
    wall overhead, with the intended gravity test of `Rules.Move`.
   */
  function Climb(levels: seq<Cells>, b: Board): (r: Outcome)
    requires Ready(levels, b)
    ensures !r.Loops?
    ensures r.Done? ==> Placed(r.b) && r.b.lvlnum < |levels|
  {
    var dx := Facing(b);
    if b.grid[b.py][b.px + dx] != EMPTY && b.grid[b.py - 1][b.px] != WALL then Move(levels, b, -1, dx)
    else Done(b)
  }

  /** In front of empty space, or under a wall, climbing does nothing. */
  lemma ClimbNeedsLedge(levels: seq<Cells>, b: Board)
    requires Ready(levels, b)
    requires b.grid[b.py][b.px + Facing(b)] == EMPTY || b.grid[b.py - 1][b.px] == WALL
    ensures Climb(levels, b) == Done(b)
  {
  }

  /**
    A climb onto a free cell: the player ends one column forwards, at or
    below the row above, standing on something, unless a fall reaches the goal.
   */
  lemma ClimbUp(levels: seq<Cells>, b: Board)
    requires Ready(levels, b) && Tracked(b)
    requires var dx := Facing(b);
             && b.grid[b.py][b.px + dx] != EMPTY && b.grid[b.py - 1][b.px] != WALL
             && Safe(b, -1, dx) && b.grid[b.py - 1][b.px + dx] == EMPTY
    ensures var r := Climb(levels, b);
            r.Done? && r.b.lvlnum == b.lvlnum ==>
              && r.b.px == b.px + Facing(b) && r.b.py >= b.py - 1
              && Standing(r.b)
  {
    var dx := Facing(b);
    MoveLands(levels, b, -1, dx);
    assert Climb(levels, b) == Move(levels, b, -1, dx);
  }

  /** `climb()` keeps the invariant, the tiles and the carried block unless it loads a level. */
  lemma ClimbSound(levels: seq<Cells>, b: Board)
    requires Valid(levels, b)
    ensures var r := Climb(levels, b);
            && (r.Throws? ==> b.lvlnum + 1 == |levels|)
            && (r.Done? ==> Valid(levels, r.b) && (r.b.lvlnum == b.lvlnum || r.b.lvlnum == b.lvlnum + 1))
            && (r.Done? && r.b.lvlnum == b.lvlnum ==> Tiles(r.b.grid) == Tiles(b.grid) && r.b.holding == b.holding)
  {
    MoveSound(levels, b, -1, Facing(b));
  }

  /** How `grab()` picks up a block: the one in front goes above the player. */
  function Lift(b: Board): (r: Board)
    requires Placed(b)
  {
    var y, x, dx := b.py, b.px, Facing(b);
    if b.grid[y][x + dx] == BLOCK && b.grid[y - 1][x] == EMPTY && b.grid[y - 1][x + dx] == EMPTY then
      b.(grid := Set(Set(b.grid, y, x + dx, EMPTY), y - 1, x, BLOCK), holding := true)
    else b
  }

  /**
    How `drop()` puts the carried block down in front of the player: on the
    cell in front, from where it falls, or on the cell above that.
   */
  function Put(b: Board): (r: Board)
    requires Placed(b)
    ensures r.py == b.py && r.px == b.px && r.lvlnum == b.lvlnum
  {
    var y, x, dx := b.py, b.px, Facing(b);
    if !b.holding then b
    else if b.grid[y - 1][x + dx] == EMPTY && b.grid[y][x + dx] == EMPTY then
      b.(grid := DropGrid(b.grid, y, x, x + dx), holding := false)
    else if b.grid[y - 1][x + dx] == EMPTY then
      b.(grid := Set(Set(b.grid, y - 1, x, EMPTY), y - 1, x + dx, BLOCK), holding := false)
    else b
  }

  /**
    The grid after `drop()` puts the block on the empty cell in front of the
    player: the cell above the player empties, the cell in front takes the
    block, and `fall` lets the block drop until something holds it.
   */
  function DropGrid(g: Cells, y: int, x: int, x2: int): (r: Cells)
    requires Framed(g) && Interior(g, y, x) && Interior(g, y - 1, x) && (x2 == x - 1 || x2 == x + 1)
    requires g[y][x2] == EMPTY
    ensures Framed(r) && |r| == |g| && |r[0]| == |g[0]|
    ensures r[y][x] == g[y][x] && r[y - 1][x] == EMPTY
    ensures g[y - 1][x] == BLOCK ==> Tiles(r) == Tiles(g)
  {
    var h := Set(Set(g, y - 1, x, EMPTY), y, x2, BLOCK);
    DropFrame(g, y, x, x2);
    DropTiles(g, y, x, x2);
    var f := Fall(h, y, x2);
    assert f.0[y][x] == h[y][x] && f.0[y - 1][x] == h[y - 1][x];
    f.0
  }

  /**
    Where the dropped block comes to rest: in the front column, at the first
    row at or below the player's whose cell below is not empty; every cell
    of that column from the player's row down to it is left empty.
   */
  lemma DropGridRests(g: Cells, y: int, x: int, x2: int)
    requires Framed(g) && Interior(g, y, x) && Interior(g, y - 1, x) && (x2 == x - 1 || x2 == x + 1)
    requires g[y][x2] == EMPTY
    ensures var r := DropGrid(g, y, x, x2);
            exists k {:trigger r[k][x2]} :: && y <= k < |r| - 1 && r[k][x2] == BLOCK && r[k + 1][x2] != EMPTY
                                            && forall i :: y <= i < k ==> r[i][x2] == EMPTY
  {
    DropFrame(g, y, x, x2);
    var f := Fall(Set(Set(g, y - 1, x, EMPTY), y, x2, BLOCK), y, x2);
    assert DropGrid(g, y, x, x2) == f.0;
    assert f.0[f.1][x2] == BLOCK;
  }

  /** DropGrid is the two writes of `drop()` followed by `fall`, on a grid with a floor. */
  lemma DropGridIs(g: Cells, y: int, x: int, x2: int)
    requires Framed(g) && Interior(g, y, x) && Interior(g, y - 1, x) && (x2 == x - 1 || x2 == x + 1)
    requires g[y][x2] == EMPTY
    ensures Floored(Set(Set(g, y - 1, x, EMPTY), y, x2, BLOCK)) && 0 <= y < |g| - 1 && 0 <= x2 < |g[0]|
    ensures DropGrid(g, y, x, x2) == Grid.Fall(Set(Set(g, y - 1, x, EMPTY), y, x2, BLOCK), y, x2).0
  {
    DropFrame(g, y, x, x2);
  }

  /** The two writes before the fall keep the ring, and the fall then does too. */
  lemma DropFrame(g: Cells, y: int, x: int, x2: int)
    requires Framed(g) && Interior(g, y, x) && Interior(g, y - 1, x) && (x2 == x - 1 || x2 == x + 1)
    requires g[y][x2] == EMPTY
    ensures Interior(g, y, x2)
    ensures Framed(Set(Set(g, y - 1, x, EMPTY), y, x2, BLOCK))
    ensures Floored(Set(Set(g, y - 1, x, EMPTY), y, x2, BLOCK))
    ensures Framed(Fall(Set(Set(g, y - 1, x, EMPTY), y, x2, BLOCK), y, x2).0)
  {
    NotWallIsInterior(g, y, x2);
    var h := Set(Set(g, y - 1, x, EMPTY), y, x2, BLOCK);
    SetKeepsFrame(g, y - 1, x, EMPTY);
    SetKeepsFrame(Set(g, y - 1, x, EMPTY), y, x2, BLOCK);
    FallKeepsFrame(h, y, x2);
  }

  /** With the carried block above the player, the two writes are a swap, and the fall keeps the tiles. */
  lemma DropTiles(g: Cells, y: int, x: int, x2: int)
    requires Framed(g) && Interior(g, y, x) && Interior(g, y - 1, x) && (x2 == x - 1 || x2 == x + 1)
    requires g[y][x2] == EMPTY
    ensures Floored(Set(Set(g, y - 1, x, EMPTY), y, x2, BLOCK))
    ensures g[y - 1][x] == BLOCK ==> Tiles(Fall(Set(Set(g, y - 1, x, EMPTY), y, x2, BLOCK), y, x2).0) == Tiles(g)
  {
    DropFrame(g, y, x, x2);
    var h := Set(Set(g, y - 1, x, EMPTY), y, x2, BLOCK);
    FallTiles(h, y, x2);
    if g[y - 1][x] == BLOCK {
      WritesAreSwap(g, y - 1, x, y, x2);
      SwapTiles(g, y - 1, x, y, x2);
    }
  }

  /** `grab()`: while holding it drops instead. */
  function Grab(b: Board): (r: Board)
    requires Placed(b)
    decreases if b.holding then 1 else 0
  {
    if b.holding then Drop(b) else Lift(b)
  }

  /** `drop()`: while not holding it grabs instead. */
  function Drop(b: Board): (r: Board)
    requires Placed(b)
    decreases if b.holding then 0 else 1
  {
    if !b.holding then Grab(b) else Put(b)
  }

  /** Both commands toggle: `grab()` and `drop()` do the same thing in every state. */
  lemma GrabIsDrop(b: Board)
    requires Placed(b)
    ensures Grab(b) == Drop(b)
  {
  }

  /** Moving a tile onto an empty cell, written as two writes, is a swap of the two cells. */
  lemma WritesAreSwap(g: Cells, y1: int, x1: int, y2: int, x2: int)
    requires InGrid(g, y1, x1) && InGrid(g, y2, x2) && g[y2][x2] == EMPTY
    ensures Set(Set(g, y1, x1, EMPTY), y2, x2, g[y1][x1]) == Swap(g, y1, x1, y2, x2)
  {
  }

  /** Lifting a block keeps the invariant and the tiles, and leaves the player where it is. */
  lemma LiftSound(b: Board)
    requires Sound(b) && !b.holding
    ensures var r := Lift(b);
            && Sound(r) && Tiles(r.grid) == Tiles(b.grid)
            && r.py == b.py && r.px == b.px && r.lvlnum == b.lvlnum
  {
    var y, x, dx := b.py, b.px, Facing(b);
    if b.grid[y][x + dx] == BLOCK && b.grid[y - 1][x] == EMPTY && b.grid[y - 1][x + dx] == EMPTY {
      WritesAreSwap(b.grid, y, x + dx, y - 1, x);
      NotWallIsInterior(b.grid, y, x + dx);
      NotWallIsInterior(b.grid, y - 1, x);
      SwapKeepsFrame(b.grid, y, x + dx, y - 1, x);
      SwapTiles(b.grid, y, x + dx, y - 1, x);
    }
  }

  /** Putting the block down keeps the invariant and the tiles, and leaves the player where it is. */
  lemma PutSound(b: Board)
    requires Sound(b) && b.holding
    ensures var r := Put(b);
            && Sound(r) && Tiles(r.grid) == Tiles(b.grid)
            && r.py == b.py && r.px == b.px && r.lvlnum == b.lvlnum
  {
    var y, x, dx := b.py, b.px, Facing(b);
    if b.grid[y - 1][x + dx] == EMPTY {
      if b.grid[y][x + dx] == EMPTY {
        PutFallsSound(b);
      } else {
        PutAboveSound(b);
      }
    }
  }

  /** PutSound when the block goes to the cell in front and falls from there. */
  lemma PutFallsSound(b: Board)
    requires Sound(b) && b.holding
    requires b.grid[b.py - 1][b.px + Facing(b)] == EMPTY && b.grid[b.py][b.px + Facing(b)] == EMPTY
    ensures var r := Put(b);
            && Sound(r) && Tiles(r.grid) == Tiles(b.grid)
            && r.py == b.py && r.px == b.px && r.lvlnum == b.lvlnum
  {
    PutFallsIs(b);
    SoundPut(b, DropGrid(b.grid, b.py, b.px, b.px + Facing(b)));
  }

  /** With room in front, Put is the drop and fall of DropGrid. */
  lemma PutFallsIs(b: Board)
    requires Placed(b) && b.holding
    requires b.grid[b.py - 1][b.px + Facing(b)] == EMPTY && b.grid[b.py][b.px + Facing(b)] == EMPTY
    ensures Put(b) == b.(grid := DropGrid(b.grid, b.py, b.px, b.px + Facing(b)), holding := false)
  {
  }

  /** With room above the cell in front but not in it, Put sets the block on the cell above it, as game.js:194-198. */
  lemma PutAboveIs(b: Board)
    requires Placed(b) && b.holding
    requires b.grid[b.py - 1][b.px + Facing(b)] == EMPTY && b.grid[b.py][b.px + Facing(b)] != EMPTY
    ensures var y, x := b.py, b.px;
            Put(b) == b.(grid := Set(Set(b.grid, y - 1, x, EMPTY), y - 1, x + Facing(b), BLOCK), holding := false)
  {
  }

  /** Putting the block down on a grid that keeps the ring, the tiles and the player's cell keeps the invariant. */
  lemma SoundPut(b: Board, g: Cells)
    requires Sound(b) && Framed(g) && |g| == |b.grid| && |g[0]| == |b.grid[0]|
    requires Tiles(g) == Tiles(b.grid) && g[b.py][b.px] == b.grid[b.py][b.px]
    ensures Sound(b.(grid := g, holding := false))
  {
  }

  /** PutSound when the block goes to the cell above the one in front. */
  lemma PutAboveSound(b: Board)
    requires Sound(b) && b.holding
    requires b.grid[b.py - 1][b.px + Facing(b)] == EMPTY && b.grid[b.py][b.px + Facing(b)] != EMPTY
    ensures var r := Put(b);
            && Sound(r) && Tiles(r.grid) == Tiles(b.grid)
            && r.py == b.py && r.px == b.px && r.lvlnum == b.lvlnum
  {
    var y, x, x2 := b.py, b.px, b.px + Facing(b);
    NotWallIsInterior(b.grid, y - 1, x2);
    WritesAreSwap(b.grid, y - 1, x, y - 1, x2);
    var g := Swap(b.grid, y - 1, x, y - 1, x2);
    SwapKeepsFrame(b.grid, y - 1, x, y - 1, x2);
    SwapTiles(b.grid, y - 1, x, y - 1, x2);
    assert Put(b) == b.(grid := g, holding := false);
  }

  /** `grab()`, and so `drop()`, keep the invariant and the tiles; the player does not move. */
  lemma GrabSound(b: Board)
    requires Sound(b)
    ensures var r := Grab(b);
            && Sound(r) && Tiles(r.grid) == Tiles(b.grid)
            && r.py == b.py && r.px == b.px && r.lvlnum == b.lvlnum
  {
    if b.holding {
      PutSound(b);
    } else {
      LiftSound(b);
    }
  }

  /**
    A dropped block that has room in front of the player falls from there
    until something that is not empty space holds it.
   */
  lemma DropFalls(b: Board)
    requires Placed(b) && b.holding
    requires b.grid[b.py - 1][b.px + Facing(b)] == EMPTY && b.grid[b.py][b.px + Facing(b)] == EMPTY
    ensures var r, x := Drop(b), b.px + Facing(b);
            && !r.holding && r.grid[b.py - 1][b.px] == EMPTY
            && exists k {:trigger r.grid[k][x]} :: && b.py <= k < |r.grid| - 1 && r.grid[k][x] == BLOCK && r.grid[k + 1][x] != EMPTY
                                                   && forall i :: b.py <= i < k ==> r.grid[i][x] == EMPTY
  {
    PutFallsIs(b);
    DropGridRests(b.grid, b.py, b.px, b.px + Facing(b));
    assert Drop(b) == Put(b);
  }

  /** With no room above the cell in front, dropping does nothing and the block stays carried. */
  lemma DropBlocked(b: Board)
    requires Placed(b) && b.holding && b.grid[b.py - 1][b.px + Facing(b)] != EMPTY
    ensures Drop(b) == b
  {
  }

  /** `drop()`, and so `grab()`, keeps the engine's invariant and the level. */
  lemma DropValid(levels: seq<Cells>, b: Board)
    requires Valid(levels, b)
    ensures Valid(levels, Drop(b)) && Drop(b).lvlnum == b.lvlnum
  {
    GrabSound(b);
    GrabIsDrop(b);
  }

  /**
    Picking a block up and putting it straight back restores the state, as
    long as the block was resting on something.
   */
  lemma GrabTwice(b: Board)
    requires Placed(b) && !b.holding
    requires var y, x := b.py, b.px + Facing(b);
             b.grid[y][x] == BLOCK && b.grid[y - 1][b.px] == EMPTY && b.grid[y - 1][x] == EMPTY
             && b.grid[y + 1][x] != EMPTY
    ensures Grab(b).holding && Grab(Grab(b)) == b
  {
    var y, x, dx := b.py, b.px, Facing(b);
    NotWallIsInterior(b.grid, y, x + dx);
    NotWallIsInterior(b.grid, y - 1, x);
    LiftThenDrop(b.grid, y, x, x + dx);
    var b1 := b.(grid := Set(Set(b.grid, y, x + dx, EMPTY), y - 1, x, BLOCK), holding := true);
    assert Grab(b) == Lift(b) == b1;
    assert Facing(b1) == dx;
    PutFallsIs(b1);
    assert Grab(b1) == Drop(b1) == Put(b1);
  }

  /** On the grid: the writes of a lift followed by those of a drop and its fall give the grid back. */
  lemma LiftThenDrop(g: Cells, y: int, x: int, x2: int)
    requires Framed(g) && Interior(g, y, x) && Interior(g, y - 1, x) && Interior(g, y, x2)
    requires x2 == x - 1 || x2 == x + 1
    requires g[y][x2] == BLOCK && g[y - 1][x] == EMPTY && g[y + 1][x2] != EMPTY
    ensures var h := Set(Set(g, y, x2, EMPTY), y - 1, x, BLOCK);
            Framed(h) && h[y][x2] == EMPTY && DropGrid(h, y, x, x2) == g
  {
    var h := Set(Set(g, y, x2, EMPTY), y - 1, x, BLOCK);
    WritesAreSwap(g, y, x2, y - 1, x);
    SwapKeepsFrame(g, y, x2, y - 1, x);
    WritesAreSwap(h, y - 1, x, y, x2);
    SwapSymmetric(g, y, x2, y - 1, x);
    SwapTwice(g, y - 1, x, y, x2);
    FramedIsFloored(g);
    assert Fall(g, y, x2) == (g, y);
  }
}
