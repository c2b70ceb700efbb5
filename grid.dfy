/**
  The tile grid of a blockdude level and its primitive operations: reading and
  writing one cell, exchanging two cells, counting tiles, the gravity of a
  dropped block, and the text form of the grid.

  A grid is a sequence of rows, row 0 at the top, each row a sequence of tile
  characters.
 */
module Grid {

  const WALL: char := 'x'
  const BLOCK: char := '0'
  const LEFT: char := '<'
  const RIGHT: char := '>'
  const GOAL: char := '!'
  const EMPTY: char := ' '

  type Cells = seq<seq<char>>

  /** The two tiles that stand for the player (facing left or facing right). */
  predicate IsPlayer(c: char) {
    c == LEFT || c == RIGHT
  }

  predicate InGrid(g: Cells, y: int, x: int) {
    0 <= y < |g| && 0 <= x < |g[y]|
  }

  predicate Rectangular(g: Cells) {
    |g| > 0 && forall i :: 0 <= i < |g| ==> |g[i]| == |g[0]|
  }

  predicate AllWall(row: seq<char>) {
    forall x :: 0 <= x < |row| ==> row[x] == WALL
  }

  /** The bottom row is all wall: nothing falls out of the grid. */
  predicate Floored(g: Cells) {
    Rectangular(g) && |g| >= 2 && AllWall(g[|g| - 1])
  }

  /** A rectangle of at least 3 by 3 whose outer ring is all wall. */
  predicate Framed(g: Cells) {
    && Rectangular(g) && |g| >= 3 && |g[0]| >= 3
    && AllWall(g[0]) && AllWall(g[|g| - 1])
    && (forall y :: 0 <= y < |g| ==> g[y][0] == WALL && g[y][|g[0]| - 1] == WALL)
  }

  /** A position strictly inside the wall ring. */
  predicate Interior(g: Cells, y: int, x: int)
    requires |g| > 0
  {
    1 <= y < |g| - 1 && 1 <= x < |g[0]| - 1
  }

  lemma FramedIsFloored(g: Cells)
    requires Framed(g)
    ensures Floored(g)
  {
  }

  /** In a framed grid, every cell that is not a wall lies inside the ring. */
  lemma NotWallIsInterior(g: Cells, y: int, x: int)
    requires Framed(g) && InGrid(g, y, x) && g[y][x] != WALL
    ensures Interior(g, y, x)
  {
    if y == 0 || y == |g| - 1 || x == 0 || x == |g[0]| - 1 {
      assert false;
    }
  }

  /** The grid with one cell overwritten (`state[y][x] = c`). */
  function Set(g: Cells, y: int, x: int, c: char): (r: Cells)
    requires InGrid(g, y, x)
    ensures |r| == |g| && forall i :: 0 <= i < |g| ==> |r[i]| == |g[i]|
    ensures r[y][x] == c
    ensures forall i, j {:trigger r[i][j]} :: InGrid(g, i, j) && (i != y || j != x) ==> r[i][j] == g[i][j]
  {
    g[y := g[y][x := c]]
  }

  /** `swap(y1, x1, y2, x2)`: exchange the tiles of two cells. */
  function Swap(g: Cells, y1: int, x1: int, y2: int, x2: int): (r: Cells)
    requires InGrid(g, y1, x1) && InGrid(g, y2, x2)
    ensures |r| == |g| && forall i :: 0 <= i < |g| ==> |r[i]| == |g[i]|
    ensures r[y1][x1] == g[y2][x2] && r[y2][x2] == g[y1][x1]
    ensures forall i, j {:trigger r[i][j]} :: InGrid(g, i, j) && (i != y1 || j != x1) && (i != y2 || j != x2) ==> r[i][j] == g[i][j]
  {
    Set(Set(g, y1, x1, g[y2][x2]), y2, x2, g[y1][x1])
  }

  /** Two grids of the same shape that agree on every cell are equal. */
  lemma CellwiseEqual(g: Cells, h: Cells)
    requires |g| == |h| && forall i :: 0 <= i < |g| ==> |g[i]| == |h[i]|
    requires forall i, j :: InGrid(g, i, j) ==> g[i][j] == h[i][j]
    ensures g == h
  {
    forall i | 0 <= i < |g|
      ensures g[i] == h[i]
    {
      assert forall j :: 0 <= j < |g[i]| ==> g[i][j] == h[i][j];
    }
  }

  /** Swapping the same two cells twice restores the grid. */
  lemma SwapTwice(g: Cells, y1: int, x1: int, y2: int, x2: int)
    requires InGrid(g, y1, x1) && InGrid(g, y2, x2)
    ensures Swap(Swap(g, y1, x1, y2, x2), y1, x1, y2, x2) == g
  {
    var h := Swap(Swap(g, y1, x1, y2, x2), y1, x1, y2, x2);
    CellwiseEqual(h, g);
  }

  /** Swapping is symmetric in its two cells. */
  lemma SwapSymmetric(g: Cells, y1: int, x1: int, y2: int, x2: int)
    requires InGrid(g, y1, x1) && InGrid(g, y2, x2)
    ensures Swap(g, y1, x1, y2, x2) == Swap(g, y2, x2, y1, x1)
  {
    CellwiseEqual(Swap(g, y1, x1, y2, x2), Swap(g, y2, x2, y1, x1));
  }

  /** The multiset of the tiles in the first n rows. */
  function RowTiles(g: Cells, n: int): multiset<char>
    requires 0 <= n <= |g|
    decreases n
  {
    if n == 0 then multiset{} else RowTiles(g, n - 1) + multiset(g[n - 1])
  }

  /** The multiset of all tiles in the grid. */
  function Tiles(g: Cells): multiset<char> {
    RowTiles(g, |g|)
  }

  /** The number of player tiles in the grid. */
  function PlayerCount(g: Cells): nat
  {
    Tiles(g)[LEFT] + Tiles(g)[RIGHT]
  }

  /** A tile in one of the first n rows is counted in their tile multiset. */
  lemma {:induction false} PresentCounted(g: Cells, i: int, j: int, n: int)
    requires InGrid(g, i, j) && i < n <= |g|
    ensures RowTiles(g, n)[g[i][j]] > 0
    decreases n
  {
    if i == n - 1 {
      assert g[i][j] in multiset(g[i]);
    } else {
      PresentCounted(g, i, j, n - 1);
    }
  }

  /** A tile found in no cell of the first n rows is not in their tile multiset. */
  lemma {:induction false} NowhereAbsent(g: Cells, c: char, n: int)
    requires 0 <= n <= |g|
    requires forall i, j :: 0 <= i < n && 0 <= j < |g[i]| ==> g[i][j] != c
    ensures RowTiles(g, n)[c] == 0
    decreases n
  {
    if n > 0 {
      NowhereAbsent(g, c, n - 1);
      var row := g[n - 1];
      assert forall j :: 0 <= j < |row| ==> row[j] != c;
      assert c !in row;
      assert multiset(row)[c] == 0;
    }
  }

  /** A tile that does not occur in the tile multiset occurs in no cell. */
  lemma AbsentNowhere(g: Cells, c: char)
    requires Tiles(g)[c] == 0
    ensures forall i, j :: InGrid(g, i, j) ==> g[i][j] != c
  {
    forall i, j | InGrid(g, i, j) ensures g[i][j] != c {
      if g[i][j] == c {
        PresentCounted(g, i, j, |g|);
      }
    }
  }

  /** Overwriting a cell leaves the tiles of the rows above it alone. */
  lemma {:induction false} RowTilesSetAbove(g: Cells, y: int, x: int, c: char, n: int)
    requires InGrid(g, y, x) && 0 <= n <= y
    ensures RowTiles(Set(g, y, x, c), n) == RowTiles(g, n)
    decreases n
  {
    if n > 0 {
      RowTilesSetAbove(g, y, x, c, n - 1);
      assert Set(g, y, x, c)[n - 1] == g[n - 1];
    }
  }

  /** Overwriting a cell of row y changes the tiles of rows 0..y by that one tile. */
  lemma RowTilesSetRow(g: Cells, y: int, x: int, c: char)
    requires InGrid(g, y, x)
    ensures RowTiles(Set(g, y, x, c), y + 1) == RowTiles(g, y + 1) - multiset{g[y][x]} + multiset{c}
  {
    var r := Set(g, y, x, c);
    var a := g[y][x];
    var A, M := RowTiles(g, y), multiset(g[y]);
    RowTilesSetAbove(g, y, x, c, y);
    assert r[y] == g[y][x := c];
    assert a in M;
    assert multiset(r[y]) == M - multiset{a} + multiset{c};
  }

  /** Overwriting a cell of the first n rows takes its old tile out of their multiset and puts the new one in. */
  lemma {:induction false} RowTilesSet(g: Cells, y: int, x: int, c: char, n: int)
    requires InGrid(g, y, x) && y < n <= |g|
    ensures RowTiles(Set(g, y, x, c), n) == RowTiles(g, n) - multiset{g[y][x]} + multiset{c}
    decreases n
  {
    if n - 1 == y {
      RowTilesSetRow(g, y, x, c);
    } else {
      var r := Set(g, y, x, c);
      var a := g[y][x];
      var A, M := RowTiles(g, n - 1), multiset(g[n - 1]);
      RowTilesSet(g, y, x, c, n - 1);
      assert r[n - 1] == g[n - 1];
      PresentCounted(g, y, x, n - 1);
      MultisetShuffle(A, M, a, c);
    }
  }

  lemma MultisetShuffle(A: multiset<char>, M: multiset<char>, a: char, c: char)
    requires A[a] > 0
    ensures (A - multiset{a} + multiset{c}) + M == A + M - multiset{a} + multiset{c}
  {
  }

  /** Overwriting a cell takes its old tile out of the tile multiset and puts the new one in. */
  lemma TilesSet(g: Cells, y: int, x: int, c: char)
    requires InGrid(g, y, x)
    ensures Tiles(Set(g, y, x, c)) == Tiles(g) - multiset{g[y][x]} + multiset{c}
  {
    RowTilesSet(g, y, x, c, |g|);
  }

  /** Swapping only permutes the tiles: every tile count is conserved. */
  lemma SwapTiles(g: Cells, y1: int, x1: int, y2: int, x2: int)
    requires InGrid(g, y1, x1) && InGrid(g, y2, x2)
    ensures Tiles(Swap(g, y1, x1, y2, x2)) == Tiles(g)
  {
    var a, b := g[y1][x1], g[y2][x2];
    var g1 := Set(g, y1, x1, b);
    TilesSet(g, y1, x1, b);
    assert g1[y2][x2] == b;
    TilesSet(g1, y2, x2, a);
    PresentCounted(g, y1, x1, |g|);
    var t := Tiles(g);
    assert Tiles(Swap(g, y1, x1, y2, x2)) == t - multiset{a} + multiset{b} - multiset{b} + multiset{a};
  }

  /** With exactly one player tile, at (py, px), no other cell holds a player. */
  lemma OnlyPlayer(g: Cells, py: int, px: int)
    requires InGrid(g, py, px) && IsPlayer(g[py][px]) && PlayerCount(g) == 1
    ensures forall i, j :: InGrid(g, i, j) && IsPlayer(g[i][j]) ==> i == py && j == px
  {
    var h := Set(g, py, px, EMPTY);
    TilesSet(g, py, px, EMPTY);
    PresentCounted(g, py, px, |g|);
    LastPlayerTaken(Tiles(g), g[py][px]);
    AbsentNowhere(h, LEFT);
    AbsentNowhere(h, RIGHT);
    forall i, j | InGrid(g, i, j) && (i != py || j != px) ensures !IsPlayer(g[i][j]) {
      assert h[i][j] == g[i][j];
    }
  }

  /** Taking the only player tile out of a multiset of tiles leaves none. */
  lemma LastPlayerTaken(m: multiset<char>, c: char)
    requires IsPlayer(c) && m[c] > 0 && m[LEFT] + m[RIGHT] == 1
    ensures (m - multiset{c} + multiset{EMPTY})[LEFT] == 0
    ensures (m - multiset{c} + multiset{EMPTY})[RIGHT] == 0
  {
  }

  /** Overwriting a cell inside the ring keeps the ring. */
  lemma SetKeepsFrame(g: Cells, y: int, x: int, c: char)
    requires Framed(g) && Interior(g, y, x)
    ensures Framed(Set(g, y, x, c))
  {
  }

  /** Swapping two cells inside the ring keeps the ring. */
  lemma SwapKeepsFrame(g: Cells, y1: int, x1: int, y2: int, x2: int)
    requires Framed(g) && Interior(g, y1, x1) && Interior(g, y2, x2)
    ensures Framed(Swap(g, y1, x1, y2, x2))
  {
    SetKeepsFrame(g, y1, x1, g[y2][x2]);
    SetKeepsFrame(Set(g, y1, x1, g[y2][x2]), y2, x2, g[y1][x1]);
  }

  /**
    The two swaps of a step to (y, x): the player from (py, px) to (y, x) and,
    when carrying, the block from the cell above the player to the cell above
    (y, x).
   */
  function Carry(g: Cells, py: int, px: int, y: int, x: int, holding: bool): (r: Cells)
    requires InGrid(g, py, px) && InGrid(g, y, x)
    requires holding ==> InGrid(g, py - 1, px) && InGrid(g, y - 1, x)
  {
    var g1 := Swap(g, py, px, y, x);
    if holding then Swap(g1, py - 1, px, y - 1, x) else g1
  }

  /**
    Carrying inside the ring keeps the ring and the tiles, and puts the
    player's and the block's tiles at (y, x) and above it.
   */
  lemma CarryKeeps(g: Cells, py: int, px: int, y: int, x: int, holding: bool)
    requires Framed(g) && Interior(g, py, px) && Interior(g, y, x)
    requires holding ==> Interior(g, py - 1, px) && Interior(g, y - 1, x)
    requires holding ==> y != py - 1 || x != px
    ensures Framed(Carry(g, py, px, y, x, holding))
    ensures Tiles(Carry(g, py, px, y, x, holding)) == Tiles(g)
    ensures Carry(g, py, px, y, x, holding)[y][x] == g[py][px]
    ensures holding ==> Carry(g, py, px, y, x, holding)[y - 1][x] == g[py - 1][px]
  {
    CarryFrame(g, py, px, y, x, holding);
    CarryTiles(g, py, px, y, x, holding);
    CarryMoves(g, py, px, y, x, holding);
  }

  lemma CarryMoves(g: Cells, py: int, px: int, y: int, x: int, holding: bool)
    requires InGrid(g, py, px) && InGrid(g, y, x)
    requires holding ==> InGrid(g, py - 1, px) && InGrid(g, y - 1, x)
    requires holding ==> y != py - 1 || x != px
    ensures Carry(g, py, px, y, x, holding)[y][x] == g[py][px]
    ensures holding ==> Carry(g, py, px, y, x, holding)[y - 1][x] == g[py - 1][px]
  {
    if holding {
      var g1 := Swap(g, py, px, y, x);
      assert Carry(g, py, px, y, x, holding) == Swap(g1, py - 1, px, y - 1, x);
    }
  }

  lemma CarryFrame(g: Cells, py: int, px: int, y: int, x: int, holding: bool)
    requires Framed(g) && Interior(g, py, px) && Interior(g, y, x)
    requires holding ==> Interior(g, py - 1, px) && Interior(g, y - 1, x)
    ensures Framed(Carry(g, py, px, y, x, holding))
  {
    var g1 := Swap(g, py, px, y, x);
    SwapKeepsFrame(g, py, px, y, x);
    if holding {
      SwapKeepsFrame(g1, py - 1, px, y - 1, x);
      assert Carry(g, py, px, y, x, holding) == Swap(g1, py - 1, px, y - 1, x);
    }
  }

  lemma CarryTiles(g: Cells, py: int, px: int, y: int, x: int, holding: bool)
    requires InGrid(g, py, px) && InGrid(g, y, x)
    requires holding ==> InGrid(g, py - 1, px) && InGrid(g, y - 1, x)
    ensures Tiles(Carry(g, py, px, y, x, holding)) == Tiles(g)
  {
    var g1 := Swap(g, py, px, y, x);
    SwapTiles(g, py, px, y, x);
    if holding {
      SwapTiles(g1, py - 1, px, y - 1, x);
      assert Carry(g, py, px, y, x, holding) == Swap(g1, py - 1, px, y - 1, x);
    }
  }

  /**
    `fall(y, x)`: while the cell below (y, x) is empty, move the object at
    (y, x) down one row. The result is the new grid and the row the object
    rests on (its column does not change).
   */
  function Fall(g: Cells, y: int, x: int): (r: (Cells, int))
    requires Floored(g) && 0 <= y < |g| - 1 && 0 <= x < |g[0]|
    ensures y <= r.1 < |g| - 1
    ensures |r.0| == |g| && forall i :: 0 <= i < |g| ==> |r.0[i]| == |g[i]|
    ensures Floored(r.0)
    ensures r.0[r.1 + 1][x] != EMPTY
    ensures forall k {:trigger g[k][x]} :: y < k <= r.1 ==> g[k][x] == EMPTY
    ensures r.0[r.1][x] == g[y][x]
    ensures forall k {:trigger r.0[k][x]} :: y <= k < r.1 ==> r.0[k][x] == EMPTY
    ensures forall i, j {:trigger r.0[i][j]} :: InGrid(g, i, j) && (j != x || i < y || i > r.1) ==> r.0[i][j] == g[i][j]
    decreases |g| - y
  {
    if g[y + 1][x] == EMPTY then
      SinkFloored(g, y, x);
      Fall(Swap(g, y, x, y + 1, x), y + 1, x)
    else
      (g, y)
  }

  /** One step of a fall, into an empty cell, keeps the floor. */
  lemma SinkFloored(g: Cells, y: int, x: int)
    requires Floored(g) && 0 <= y < |g| - 1 && 0 <= x < |g[0]| && g[y + 1][x] == EMPTY
    ensures y + 1 < |g| - 1 && Floored(Swap(g, y, x, y + 1, x))
  {
    assert g[|g| - 1][x] == WALL;
  }

  /** A fall only permutes tiles. */
  lemma {:induction false} FallTiles(g: Cells, y: int, x: int)
    requires Floored(g) && 0 <= y < |g| - 1 && 0 <= x < |g[0]|
    ensures Tiles(Fall(g, y, x).0) == Tiles(g)
    decreases |g| - y
  {
    if g[y + 1][x] == EMPTY {
      SwapTiles(g, y, x, y + 1, x);
      FallTiles(Swap(g, y, x, y + 1, x), y + 1, x);
    }
  }

  /** A fall from inside the ring stays inside the ring and keeps the ring. */
  lemma FallKeepsFrame(g: Cells, y: int, x: int)
    requires Framed(g) && Interior(g, y, x)
    ensures Floored(g) && Framed(Fall(g, y, x).0) && Interior(g, Fall(g, y, x).1, x)
  {
    var r := Fall(g, y, x);
    assert forall i :: 0 <= i < |g| ==> |r.0[i]| == |g[0]|;
  }

  /** The text of the first n rows: each row followed by a newline. */
  function RenderRows(g: Cells, n: int): string
    requires 0 <= n <= |g|
    decreases n
  {
    if n == 0 then "" else RenderRows(g, n - 1) + g[n - 1] + "\n"
  }

  /** `toString`: every row followed by a newline. */
  function Render(g: Cells): string {
    RenderRows(g, |g|)
  }

  /** The text of n rows of width w has w + 1 characters per row. */
  lemma {:induction false} RenderLength(g: Cells, w: nat, n: int)
    requires forall i :: 0 <= i < |g| ==> |g[i]| == w
    requires 0 <= n <= |g|
    ensures |RenderRows(g, n)| == n * (w + 1)
    decreases n
  {
    if n > 0 {
      RenderLength(g, w, n - 1);
      assert |RenderRows(g, n)| == (n - 1) * (w + 1) + w + 1;
      assert (n - 1) * (w + 1) + w + 1 == n * (w + 1);
    }
  }

  /** The text of the first m rows is a prefix of the text of the first n. */
  lemma {:induction false} RenderPrefix(g: Cells, m: int, n: int)
    requires 0 <= m <= n <= |g|
    ensures RenderRows(g, m) <= RenderRows(g, n)
    decreases n
  {
    if m < n {
      RenderPrefix(g, m, n - 1);
    }
  }

  /**
    Layout of the text: row i of a grid of width w is found at offset
    i * (w + 1), followed by a newline.
   */
  lemma RenderRow(g: Cells, w: nat, i: int)
    requires forall k :: 0 <= k < |g| ==> |g[k]| == w
    requires 0 <= i < |g|
    ensures |Render(g)| == |g| * (w + 1)
    ensures i * (w + 1) + w < |Render(g)|
    ensures Render(g)[i * (w + 1) .. i * (w + 1) + w] == g[i]
    ensures Render(g)[i * (w + 1) + w] == '\n'
  {
    RenderLength(g, w, |g|);
    RenderLength(g, w, i);
    RenderPrefix(g, i + 1, |g|);
    assert RenderRows(g, i + 1) == RenderRows(g, i) + g[i] + "\n";
    assert i * (w + 1) + w + 1 == |RenderRows(g, i + 1)|;
    assert |RenderRows(g, i + 1)| <= |RenderRows(g, |g|)|;
  }
}
