/**
  Two places where game.js does not do what its authors evidently meant,
  each shown on a concrete level: the code as written next to the
  corrected rule the rest of the model uses.
 */
module Findings {
  import opened Grid
  import opened Rules
  import opened Commands

  /** A player facing right at the foot of a wall ledge, with the goal in front. */
  const Ledge: Cells := ["xxxx", "x xx", "x>!x", "xxxx"]

  /** A player facing left, with a block in front of it and the goal behind it. */
  const Shelf: Cells := ["xxxxx", "x   x", "x0<!x", "xxxxx"]

  /** The shelf after `grab()`: the block is above the player. */
  const Lifted: Cells := ["xxxxx", "x 0 x", "x <!x", "xxxxx"]

  /** The shelf after the step onto the goal, before the next level is loaded. */
  const Won: Cells := ["xxxxx", "x  0x", "x  <x", "xxxxx"]

  /** An empty room with the player at its left. */
  const Room: Cells := ["xxxx", "x  x", "x> x", "xxxx"]

  /** The room with a block in front of the player. */
  const Dropped: Cells := ["xxxx", "x  x", "x>0x", "xxxx"]

  /** The count of a tile in a grid of four rows, row by row. */
  lemma Count(g: Cells, t: char)
    requires |g| == 4
    ensures Tiles(g)[t] == multiset(g[0])[t] + multiset(g[1])[t] + multiset(g[2])[t] + multiset(g[3])[t]
  {
    assert RowTiles(g, 1) == multiset(g[0]);
  }

  /** A grid of four rows of equal width whose ring is wall is framed. */
  lemma Framed4(g: Cells)
    requires |g| == 4 && |g[0]| >= 3 && forall i :: 0 <= i < 4 ==> |g[i]| == |g[0]|
    requires AllWall(g[0]) && AllWall(g[3])
    requires g[1][0] == WALL && g[1][|g[0]| - 1] == WALL && g[2][0] == WALL && g[2][|g[0]| - 1] == WALL
    ensures Framed(g)
  {
  }

  lemma LedgeWellFormed()
    ensures WellFormed(Ledge)
  {
    Framed4(Ledge);
    Count(Ledge, LEFT);
    Count(Ledge, RIGHT);
  }

  lemma ShelfWellFormed()
    ensures WellFormed(Shelf)
  {
    Framed4(Shelf);
    Count(Shelf, LEFT);
    Count(Shelf, RIGHT);
  }

  lemma RoomWellFormed()
    ensures WellFormed(Room)
  {
    Framed4(Room);
    Count(Room, LEFT);
    Count(Room, RIGHT);
  }

  lemma LedgeValid()
    ensures Valid([Ledge], Board(Ledge, 2, 1, false, 0))
  {
    LedgeWellFormed();
  }

  /**
    The gravity test of `move` as written fires under a blocked step whose
    target stands on the goal. Climbing from the foot of the ledge tries
    move(-1, +1) into the wall, calls move(1, 0) on the unchanged state, whose
    own test then reads the row under the floor: the call throws. With the
    intended test, the climb leaves the state as it was.
   */
  lemma ClimbCrash()
    ensures var levels, b := [Ledge], Board(Ledge, 2, 1, false, 0);
            && Valid(levels, b)
            && Facing(b) == 1 && b.grid[2][2] != EMPTY && b.grid[1][1] != WALL
            && ChainAsWritten(levels, b, -1, 1, Fuel(b)) == Throws
            && Climb(levels, b) == Done(b)
  {
    LedgeValid();
    LedgeSteps();
    var levels, b := [Ledge], Board(Ledge, 2, 1, false, 0);
    assert ChainAsWritten(levels, b, -1, 1, Fuel(b)) == SinkAsWritten(levels, b, Fuel(b) - 1);
    MoveBlocked(levels, b, -1, 1);
  }

  /** The two activations at the ledge: the blocked climb calls gravity, whose test reads under the floor. */
  lemma LedgeSteps()
    ensures var b := Board(Ledge, 2, 1, false, 0);
            && Placed(b) && !Safe(b, -1, 1)
            && MoveStepAsWritten(b, -1, 1) == Gravity(b)
            && MoveStepAsWritten(b, 1, 0) == Fault
  {
    Framed4(Ledge);
  }

  /**
    Loading the shelf as a new game starts it (holding false, the player at
    (0, 0), no grid yet) finds the player at (2, 2).
   */
  lemma ShelfStart()
    ensures LoadAsWritten([Shelf, Room], Board([], 0, 0, false, 0)) == Board(Shelf, 2, 2, false, 0)
  {
    assert LastPlayerIn(Shelf[3], 5) == -1;
    assert LastPlayerIn(Shelf[2], 5) == 2;
  }

  /** `grab()` on the shelf lifts the block in front of the player (it faces left) onto it. */
  lemma ShelfGrab()
    ensures Placed(Board(Shelf, 2, 2, false, 0))
    ensures Grab(Board(Shelf, 2, 2, false, 0)) == Board(Lifted, 2, 2, true, 0)
  {
    Framed4(Shelf);
    assert Shelf[2][1 := EMPTY] == "x <!x";
    var g1 := Set(Shelf, 2, 1, EMPTY);
    assert g1 == ["xxxxx", "x   x", "x <!x", "xxxxx"];
    assert g1[1][2 := BLOCK] == "x 0 x";
  }

  lemma LiftedValid()
    ensures Valid([Shelf, Room], Board(Lifted, 2, 2, true, 0))
  {
    LevelsValid();
    LiftedSound();
  }

  lemma LevelsValid()
    ensures LevelsOk([Shelf, Room])
  {
    ShelfWellFormed();
    RoomWellFormed();
  }

  lemma LiftedSound()
    ensures Sound(Board(Lifted, 2, 2, true, 0))
  {
    Framed4(Lifted);
    LiftedPlayers();
  }

  lemma LiftedPlayers()
    ensures PlayerCount(Lifted) == 1
  {
    Count(Lifted, LEFT);
    Count(Lifted, RIGHT);
    assert multiset(Lifted[2])[LEFT] == 1 && multiset(Lifted[2])[RIGHT] == 0;
    assert multiset(Lifted[1])[LEFT] == 0 && multiset(Lifted[1])[RIGHT] == 0;
    assert multiset(Lifted[0])[LEFT] == 0 && multiset(Lifted[0])[RIGHT] == 0;
    assert multiset(Lifted[3]) == multiset(Lifted[0]);
  }

  /** Carrying the block onto the goal: both swaps, then the old player cell cleared, with either gravity test. */
  lemma LiftedWins()
    ensures var b := Board(Lifted, 2, 2, true, 0);
            && Placed(b) && Safe(b, 0, 1)
            && MoveStepAsWritten(b, 0, 1) == Win(Board(Won, 2, 3, true, 0))
            && MoveStep(b, 0, 1) == Win(Board(Won, 2, 3, true, 0))
  {
    var b := Board(Lifted, 2, 2, true, 0);
    Framed4(Lifted);
    assert Safe(b, 0, 1);
    assert Lifted[2][2 := GOAL] == "x !!x";
    var g1 := Set(Lifted, 2, 2, GOAL);
    assert g1 == ["xxxxx", "x 0 x", "x !!x", "xxxxx"];
    assert g1[2][3 := LEFT] == "x !<x";
    var g2 := Set(g1, 2, 3, LEFT);
    assert g2 == ["xxxxx", "x 0 x", "x !<x", "xxxxx"];
    assert g2[1][2 := EMPTY] == "x   x";
    var g3 := Set(g2, 1, 2, EMPTY);
    assert g3 == ["xxxxx", "x   x", "x !<x", "xxxxx"];
    assert g3[1][3 := BLOCK] == "x  0x";
    var g4 := Set(g3, 1, 3, BLOCK);
    assert g4 == ["xxxxx", "x  0x", "x !<x", "xxxxx"];
    assert Carry(Lifted, 2, 2, 2, 3, true) == g4;
    assert g4[2][2 := EMPTY] == "x  <x";
  }

  /** The win loads the room: as written with `holding` still set, corrected with it cleared. */
  lemma WonLoads()
    ensures LevelsOk([Shelf, Room])
    ensures NextLevelAsWritten([Shelf, Room], Board(Won, 2, 3, true, 0)) == Done(Board(Room, 2, 1, true, 1))
    ensures NextLevel([Shelf, Room], Board(Won, 2, 3, true, 0)) == Done(Board(Room, 2, 1, false, 1))
  {
    LevelsValid();
    var levels, b := [Shelf, Room], Board(Won, 2, 3, true, 1);
    RoomPlayer(2, 3);
    assert LoadAsWritten(levels, b) == Board(Room, 2, 1, true, 1);
    NextLevelAgrees(levels, Board(Won, 2, 3, true, 0));
  }

  /** Loading the room finds its player at (2, 1), wherever the last level left the player. */
  lemma RoomPlayer(py: int, px: int)
    ensures FindPlayer(Room, 4, py, px) == (2, 1)
  {
    assert LastPlayerIn(Room[3], 4) == -1;
    assert LastPlayerIn(Room[2], 4) == 1;
  }

  /** The room with `holding` set: no block above the player, and `right()`'s final write changes nothing. */
  lemma RoomCarried()
    ensures Placed(Board(Room, 2, 1, true, 1)) && !Tracked(Board(Room, 2, 1, true, 1))
    ensures Set(Room, 2, 1, RIGHT) == Room
  {
    Framed4(Room);
    assert Room[2][1 := RIGHT] == Room[2];
  }

  /** A drop in the room, with `holding` set, adds a block to it. */
  lemma RoomDropAddsBlock()
    ensures Framed(Room) && Tiles(Drop(Board(Room, 2, 1, true, 1)).grid)[BLOCK] == Tiles(Room)[BLOCK] + 1
  {
    RoomDrop();
    RoomBlocks();
    DroppedBlocks();
  }

  lemma RoomBlocks()
    ensures Tiles(Room)[BLOCK] == 0
  {
    Count(Room, BLOCK);
  }

  lemma DroppedBlocks()
    ensures Tiles(Dropped)[BLOCK] == 1
  {
    Count(Dropped, BLOCK);
  }

  /** A drop in the room puts a block down in front of the player. */
  lemma RoomDrop()
    ensures Framed(Room) && Drop(Board(Room, 2, 1, true, 1)).grid == Dropped
  {
    Framed4(Room);
    var b := Board(Room, 2, 1, true, 1);
    assert Room[1][1 := EMPTY] == Room[1];
    assert Set(Room, 1, 1, EMPTY) == Room;
    assert Room[2][2 := BLOCK] == "x>0x";
    var d := Set(Set(Room, 1, 1, EMPTY), 2, 2, BLOCK);
    assert d == Dropped;
    assert Fall(d, 2, 2).1 == 2;
    PutFallsIs(b);
  }

  /**
    `load` as written keeps `holding` across a win. A new game on the shelf
    grabs the block in front of the player, which faces left, and `right()`
    carries it onto the goal behind it: the room is then loaded with
    `holding` still set, though no block sits above the player there, and a
    drop puts a block into the room that was not in it. With `holding` reset on load, the same `right()` leaves
    the player empty-handed in the room.
   */
  lemma HoldingSurvivesWin()
    ensures var levels, b := [Shelf, Room], LoadAsWritten([Shelf, Room], Board([], 0, 0, false, 0));
            && Valid(levels, b)
            && Grab(b) == Board(Lifted, 2, 2, true, 0) && Valid(levels, Grab(b))
            && var o := ChainAsWritten(levels, Grab(b), 0, 1, Fuel(Grab(b)));
               && o == Done(Board(Room, 2, 1, true, 1)) && Placed(o.b) && !Tracked(o.b)
               && Turn(o, RIGHT) == o
               && Tiles(Drop(o.b).grid)[BLOCK] == Tiles(Room)[BLOCK] + 1
               && Right(levels, Grab(b)) == Done(Board(Room, 2, 1, false, 1))
  {
    ShelfStart();
    ShelfWellFormed();
    RoomWellFormed();
    ShelfGrab();
    LiftedValid();
    LiftedWins();
    WonLoads();
    RoomCarried();
    RoomDropAddsBlock();
    var levels, g := [Shelf, Room], Board(Lifted, 2, 2, true, 0);
    assert ChainAsWritten(levels, g, 0, 1, Fuel(g)) == Done(Board(Room, 2, 1, true, 1));
    assert Move(levels, g, 0, 1) == Done(Board(Room, 2, 1, false, 1));
  }
}
