/**
  The game engine as the object game.js builds: the grid `state`, the cached
  player position, `holding` and `lvlnum`, changed in place by each command.
  Every method is proved to leave the state the functions of Rules and
  Commands compute, and to keep the engine's invariant.
 */
module Engine {
  import opened Grid
  import opened Rules
  import opened Commands

  class Game {
    /** The level list the page supplies; the engine only reads it. */
    const levels: seq<Cells>
    var state: Cells
    var py: int
    var px: int
    var holding: bool
    var lvlnum: nat

    /** The fields as a value, for the rule functions. */
    function Snapshot(): Board
      reads this
    {
      Board(state, py, px, holding, lvlnum)
    }

    /**
      The engine's invariant: loadable levels, a walled grid with exactly one
      player tile, at the cached position, the carried block above it, and a
      current level that exists.
     */
    ghost predicate Valid()
      reads this
    {
      Rules.Valid(levels, Snapshot())
    }

    /** `Game(lvlnum)`: start with the player at (0, 0) and load the level. */
    constructor (levels: seq<Cells>, lvlnum: nat)
      requires LevelsOk(levels) && lvlnum < |levels|
      ensures Valid()
      ensures Snapshot() == Rules.Load(levels, Board([], 0, 0, false, lvlnum))
    {
      this.levels := levels;
      this.lvlnum := lvlnum;
      state := [];
      py, px := 0, 0;
      holding := false;
      new;
      Load();
    }

    /**
      `load()`: copy level `lvlnum` cell by cell, and keep in the cached
      position the last player tile met in row-major order. The block flag
      is cleared as well.
     */
    method Load()
      requires LevelsOk(levels) && lvlnum < |levels|
      modifies this
      ensures Snapshot() == Rules.Load(levels, old(Snapshot()))
      ensures Valid()
    {
      LoadSound(levels, Snapshot());
      var lvl := levels[lvlnum];
      var rows: Cells := [];
      var i := 0;
      while i < |lvl|
        invariant 0 <= i <= |lvl| && rows == lvl[..i]
        invariant (py, px) == FindPlayer(lvl, i, old(py), old(px))
        invariant lvlnum == old(lvlnum)
      {
        var row: seq<char> := [];
        var j := 0;
        while j < |lvl[i]|
          invariant 0 <= j <= |lvl[i]| && row == lvl[i][..j]
          invariant var c := LastPlayerIn(lvl[i], j);
                    (py, px) == if c >= 0 then (i, c) else FindPlayer(lvl, i, old(py), old(px))
          invariant lvlnum == old(lvlnum)
        {
          row := row + [lvl[i][j]];
          if lvl[i][j] == LEFT || lvl[i][j] == RIGHT {
            py, px := i, j;
          }
          j := j + 1;
        }
        assert lvl[i][..j] == lvl[i];
        rows := rows + [row];
        i := i + 1;
      }
      assert lvl[..i] == lvl;
      state := rows;
      holding := false;
    }

    /** `swap(y1, x1, y2, x2)`: exchange two cells of the grid in place. */
    method Swap(y1: int, x1: int, y2: int, x2: int)
      requires InGrid(state, y1, x1) && InGrid(state, y2, x2)
      modifies this
      ensures state == Grid.Swap(old(state), y1, x1, y2, x2)
      ensures py == old(py) && px == old(px) && holding == old(holding) && lvlnum == old(lvlnum)
    {
      var tmp := state[y1][x1];
      state := Set(state, y1, x1, state[y2][x2]);
      state := Set(state, y2, x2, tmp);
    }

    /**
      `move(dy, dx)`: step the player, with the block above it while
      holding, load the next level on reaching the goal, and let the player
      fall, one row per activation, while it moved over empty space or the
      goal. `ok` is false when a win past the last level makes `load` throw;
      `lvlnum` then names no level.
     */
    method Move(dy: int, dx: int) returns (ok: bool)
      requires Valid() && IsStep(dy, dx)
      modifies this
      ensures var r := Rules.Move(levels, old(Snapshot()), dy, dx);
              && (ok <==> r.Done?)
              && (ok ==> Snapshot() == r.b && Valid())
              && (!ok ==> lvlnum == |levels|)
    {
      ghost var goal := Rules.Move(levels, Snapshot(), dy, dx);
      MoveSound(levels, Snapshot(), dy, dx);
      var sy, sx := dy, dx;
      while true
        invariant Valid() && IsStep(sy, sx)
        invariant goal == Rules.Move(levels, Snapshot(), sy, sx)
        decreases |state| - py + (if sy == 1 && sx == 0 then 0 else 2)
      {
        ghost var b := Snapshot();
        var win, fall := Step(sy, sx);
        MoveUnfold(levels, b, sy, sx);
        if win {
          lvlnum := lvlnum + 1;
          if lvlnum == |levels| {
            return false;
          }
          Load();
          return true;
        }
        if !fall {
          return true;
        }
        sy, sx := 1, 0;
      }
    }

    /**
      One activation of `move(dy, dx)`, without the gravity call it may end
      with: `win` when the target was the goal, `fall` when gravity calls
      `move(1, 0)` next.
     */
    method Step(dy: int, dx: int) returns (win: bool, fall: bool)
      requires Placed(Snapshot()) && IsStep(dy, dx)
      modifies this
      ensures var s := MoveStep(old(Snapshot()), dy, dx);
              && (win <==> s.Win?) && (fall <==> s.Gravity?) && Snapshot() == s.b
    {
      var y, x := py + dy, px + dx;
      var safe;
      safe, win := Advance(dy, dx);
      fall := !win && safe && (state[y + 1][x] == EMPTY || state[y + 1][x] == GOAL);
    }

    /**
      The writes of one activation of `move(dy, dx)`: when safe, the player
      steps to the target, the carried block with it, and the goal cell is
      cleared on a win.
     */
    method Advance(dy: int, dx: int) returns (safe: bool, win: bool)
      requires Placed(Snapshot()) && IsStep(dy, dx)
      modifies this
      ensures safe == Safe(old(Snapshot()), dy, dx)
      ensures win == (old(state)[old(py) + dy][old(px) + dx] == GOAL)
      ensures Snapshot() == Rules.Advance(old(Snapshot()), dy, dx)
    {
      ghost var b := Snapshot();
      var y, x := py + dy, px + dx;
      safe := (state[y][x] == EMPTY || state[y][x] == GOAL)
              && (!holding || state[y - 1][x] == EMPTY || state[y - 1][x] == RIGHT || state[y - 1][x] == LEFT);
      win := state[y][x] == GOAL;
      assert safe == Safe(b, dy, dx);
      if safe {
        SafeShift(b, dy, dx);
        Walk(y, x);
        if win {
          state := Set(state, py, px, EMPTY);
        }
        py, px := y, x;
        assert Snapshot() == Shift(b, y, x, win);
      }
    }

    /** The swaps of a safe move: the player to (y, x), and the carried block to the cell above it. */
    method Walk(y: int, x: int)
      requires InGrid(state, py, px) && InGrid(state, y, x)
      requires holding ==> InGrid(state, py - 1, px) && InGrid(state, y - 1, x)
      modifies this
      ensures py == old(py) && px == old(px) && holding == old(holding) && lvlnum == old(lvlnum)
      ensures state == Carry(old(state), py, px, y, x, holding)
    {
      Swap(py, px, y, x);
      if holding {
        Swap(py - 1, px, y - 1, x);
      }
    }

    /**
      `fall(y, x)`: let the tile at (y, x) drop through empty cells, not
      through the goal, and return the row where it stops.
     */
    method Fall(y0: int, x: int) returns (y: int)
      requires Floored(state) && 0 <= y0 < |state| - 1 && 0 <= x < |state[0]|
      modifies this
      ensures (state, y) == Grid.Fall(old(state), y0, x)
      ensures py == old(py) && px == old(px) && holding == old(holding) && lvlnum == old(lvlnum)
    {
      y := y0;
      while state[y + 1][x] == EMPTY
        invariant y0 <= y < |state| - 1 && 0 <= x < |state[0]| && Floored(state)
        invariant Grid.Fall(state, y, x) == Grid.Fall(old(state), y0, x)
        invariant py == old(py) && px == old(px) && holding == old(holding) && lvlnum == old(lvlnum)
        decreases |state| - y
      {
        SinkFloored(state, y, x);
        Swap(y, x, y + 1, x);
        y := y + 1;
      }
    }

    /** `width()`: every row of the grid has this length. */
    function Width(): (w: nat)
      reads this
      requires Valid()
      ensures w >= 3 && forall i :: 0 <= i < |state| ==> |state[i]| == w
    {
      |state[0]|
    }

    /** `height()`: the number of rows, three at least. */
    function Height(): (h: nat)
      reads this
      requires Valid()
      ensures h >= 3 && h == |state|
    {
      |state|
    }

    /** `getPlayer()`: the cached position, the one cell holding a player tile. */
    function GetPlayer(): (p: (int, int))
      reads this
      requires Valid()
      ensures InGrid(state, p.0, p.1) && IsPlayer(state[p.0][p.1])
      ensures forall i, j :: InGrid(state, i, j) && IsPlayer(state[i][j]) ==> (i, j) == p
    {
      OnlyPlayer(state, py, px);
      (py, px)
    }

    /** `get(y, x)`: the tile at a cell; a player tile exactly at the player's position. */
    function Get(y: int, x: int): (c: char)
      reads this
      requires Valid() && InGrid(state, y, x)
      ensures c == state[y][x]
      ensures IsPlayer(c) <==> (y, x) == GetPlayer()
    {
      state[y][x]
    }

    /** `left()`: move(0, -1), then face left wherever the player ended. */
    method Left() returns (ok: bool)
      requires Valid()
      modifies this
      ensures var r := Commands.Left(levels, old(Snapshot()));
              (ok <==> r.Done?) && (ok ==> Snapshot() == r.b && Valid())
      ensures !ok ==> lvlnum == |levels|
    {
      LeftSound(levels, Snapshot());
      ok := Move(0, -1);
      if ok {
        state := Set(state, py, px, LEFT);
      }
    }

    /** `right()`: move(0, +1), then face right wherever the player ended. */
    method Right() returns (ok: bool)
      requires Valid()
      modifies this
      ensures var r := Commands.Right(levels, old(Snapshot()));
              (ok <==> r.Done?) && (ok ==> Snapshot() == r.b && Valid())
      ensures !ok ==> lvlnum == |levels|
    {
      RightSound(levels, Snapshot());
      ok := Move(0, 1);
      if ok {
        state := Set(state, py, px, RIGHT);
      }
    }

    /** `climb()`: move(-1, dx) towards the facing side, against a ledge with no wall overhead. */
    method Climb() returns (ok: bool)
      requires Valid()
      modifies this
      ensures var r := Commands.Climb(levels, old(Snapshot()));
              (ok <==> r.Done?) && (ok ==> Snapshot() == r.b && Valid())
      ensures !ok ==> lvlnum == |levels|
    {
      ghost var b := Snapshot();
      var y, x := py, px;
      var dx := if state[y][x] == LEFT then -1 else 1;
      if state[y][x + dx] != EMPTY && state[y - 1][x] != WALL {
        assert Commands.Climb(levels, b) == Rules.Move(levels, b, -1, dx);
        ok := Move(-1, dx);
      } else {
        Commands.ClimbNeedsLedge(levels, b);
        ok := true;
      }
    }

    /** `grab()`: lift the block in front onto the player, or drop the one carried. */
    method Grab()
      requires Valid()
      modifies this
      ensures Snapshot() == Commands.Grab(old(Snapshot())) && Valid()
      decreases if holding then 1 else 0
    {
      if holding {
        Drop();
        return;
      }
      GrabSound(Snapshot());
      var y, x := py, px;
      var dx := if state[y][x] == LEFT then -1 else 1;
      if state[y][x + dx] == BLOCK && state[y - 1][x] == EMPTY && state[y - 1][x + dx] == EMPTY {
        state := Set(state, y, x + dx, EMPTY);
        state := Set(state, y - 1, x, BLOCK);
        holding := true;
      }
    }

    /** `drop()`: put the carried block down in front, or grab one when not holding. */
    method Drop()
      requires Valid()
      modifies this
      ensures Snapshot() == Commands.Drop(old(Snapshot())) && Valid()
      decreases if holding then 0 else 1
    {
      if !holding {
        ghost var b := Snapshot();
        Grab();
        assert Commands.Drop(b) == Commands.Grab(b);
        return;
      }
      ghost var b := Snapshot();
      PutDown();
      assert Commands.Drop(b) == Put(b);
      DropValid(levels, b);
    }

    /** The holding half of `drop()`: the block goes down in front of the player and falls. */
    method PutDown()
      requires Placed(Snapshot()) && holding
      modifies this
      ensures state == Put(old(Snapshot())).grid && holding == Put(old(Snapshot())).holding
      ensures py == old(py) && px == old(px) && lvlnum == old(lvlnum)
    {
      ghost var b := Snapshot();
      var y, x := py, px;
      var dx := if state[y][x] == LEFT then -1 else 1;
      if state[y - 1][x + dx] == EMPTY && state[y][x + dx] == EMPTY {
        PutFallsIs(b);
        PutInFront(y, x, x + dx);
        holding := false;
      } else if state[y - 1][x + dx] == EMPTY {
        PutAboveIs(b);
        state := Set(state, y - 1, x, EMPTY);
        state := Set(state, y - 1, x + dx, BLOCK);
        holding := false;
      } else {
        DropBlocked(b);
      }
    }

    /** The writes of `drop()` onto the empty cell in front of the player, then the block's `fall` from there. */
    method PutInFront(y: int, x: int, x2: int)
      requires Framed(state) && Interior(state, y, x) && Interior(state, y - 1, x) && (x2 == x - 1 || x2 == x + 1)
      requires state[y][x2] == EMPTY
      modifies this
      ensures state == DropGrid(old(state), y, x, x2)
      ensures py == old(py) && px == old(px) && holding == old(holding) && lvlnum == old(lvlnum)
    {
      DropGridIs(state, y, x, x2);
      state := Set(Set(state, y - 1, x, EMPTY), y, x2, BLOCK);
      var landed := Fall(y, x2);
    }

    /** `toString()`: each row of the grid followed by a newline. */
    method ToString() returns (s: string)
      ensures s == Render(state)
      ensures Valid() ==> |s| == Height() * (Width() + 1)
    {
      s := "";
      var i := 0;
      while i < |state|
        invariant 0 <= i <= |state| && s == RenderRows(state, i)
      {
        var j := 0;
        while j < |state[i]|
          invariant 0 <= j <= |state[i]| && s == RenderRows(state, i) + state[i][..j]
        {
          s := s + [state[i][j]];
          j := j + 1;
        }
        assert state[i][..j] == state[i];
        s := s + "\n";
        i := i + 1;
      }
      if Valid() {
        RenderLength(state, |state[0]|, |state|);
      }
    }
  }
}
