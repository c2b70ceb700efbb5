/**
  The scrolling part of the renderer: a viewport of 16 by 8 game units over
  the grid, moved by `scroll` within the limits the grid's size sets, and
  put over the player by `center` before each frame is drawn.
 */
module View {
  import opened Grid
  import Engine

  /** Width of the viewport in game units. */
  const WIDTH: int := 16
  /** Height of the viewport in game units, `WIDTH >> 1`. */
  const HEIGHT: int := WIDTH / 2

  /**
    One coordinate of `scroll`: the viewport start v moved by d, cut back to
    the largest start m when it would pass it, and left where it is when it
    would go below 0. From a start of 0, or by a move that keeps it at 0 or
    above, this is the point of [0, m] nearest v + d (ScrollNearest).
   */
  function ScrollAxis(v: int, d: int, m: int): (r: int)
    ensures r == m || r == v || r == v + d
    ensures 0 <= v <= m ==> 0 <= r <= m
  {
    if v + d > m then m
    else if v + d < 0 then v
    else v + d
  }

  /** From a start of 0, or by a move that keeps it at 0 or above, scrolling ends at the point of [0, m] nearest v + d. */
  lemma ScrollNearest(v: int, d: int, m: int)
    requires m >= 0 && (v == 0 || v + d >= 0)
    ensures Nearest(ScrollAxis(v, d, m), v + d, m)
  {
  }

  function Dist(a: int, b: int): nat {
    if a <= b then b - a else a - b
  }

  /** r is the point of [0, m] nearest t. */
  predicate Nearest(r: int, t: int, m: int) {
    0 <= r <= m && forall z :: 0 <= z <= m ==> Dist(r, t) <= Dist(z, t)
  }

  /**
    Where `center` leaves one coordinate of the viewport: first scrolled
    back by its own start, then by the player's coordinate p less half the
    viewport.
   */
  function Focus(p: int, half: int, m: int): (r: int)
  {
    ScrollAxis(ScrollAxis(0, 0, m), p - half, m)
  }

  /** Scrolling back by the start itself, then by p - half, is Focus, whatever the start was. */
  lemma ResetThenFocus(v: int, p: int, half: int, m: int)
    ensures ScrollAxis(ScrollAxis(v, -v, m), p - half, m) == Focus(p, half, m)
  {
  }

  /**
    On a grid at least as large as the viewport, the viewport starts as near
    to half a viewport before the player as the grid allows, and exactly
    there when the player is far enough from both edges.
   */
  lemma FocusCentres(p: int, half: int, m: int)
    requires m >= 0
    ensures 0 <= Focus(p, half, m) <= m
    ensures half <= p <= m + half ==> Focus(p, half, m) == p - half
    ensures p < half ==> Focus(p, half, m) == 0
    ensures p > m + half ==> Focus(p, half, m) == m
  {
  }

  /**
    On a grid smaller than the viewport, `center` leaves the viewport at the
    negative limit m, wherever the player is.
   */
  lemma FocusOnSmallGrid(p: int, half: int, m: int)
    requires m < 0
    ensures Focus(p, half, m) == m
  {
  }

  /** Scrolling from a start within [0, m] stays within it. */
  lemma ScrollStays(v: int, d: int, m: int)
    requires 0 <= v <= m
    ensures 0 <= ScrollAxis(v, d, m) <= m
  {
  }

  /** Scrolling by the distance to a start within [0, m] reaches that start. */
  lemma ScrollReaches(v: int, t: int, m: int)
    requires 0 <= t <= m
    ensures ScrollAxis(v, t - v, m) == t
  {
  }

  /** The renderer's viewport over the game it draws. */
  class Renderer {
    const game: Engine.Game
    /** The grid coordinates of the viewport's top left cell. */
    var viewport: (int, int)

    /** `Renderer(game, canvas)`: the viewport starts at the grid's corner. */
    constructor (game: Engine.Game)
      ensures this.game == game && viewport == (0, 0)
    {
      this.game := game;
      viewport := (0, 0);
    }

    /** `scroll(dy, dx)`: move the viewport, kept between 0 and the grid's size less its own. */
    method Scroll(dy: int, dx: int)
      requires game.Valid()
      modifies this
      ensures viewport.0 == ScrollAxis(old(viewport.0), dy, |game.state| - HEIGHT)
      ensures viewport.1 == ScrollAxis(old(viewport.1), dx, |game.state[0]| - WIDTH)
    {
      var max := (game.Height() - WIDTH / 2, game.Width() - WIDTH);
      var y := if viewport.0 + dy > max.0 then max.0 - viewport.0
               else if viewport.0 + dy < 0 then 0
               else dy;
      var x := if viewport.1 + dx > max.1 then max.1 - viewport.1
               else if viewport.1 + dx < 0 then 0
               else dx;
      viewport := (viewport.0 + y, viewport.1 + x);
    }

    /**
      `center()`: scroll back by the viewport's own start, then by the player's
      position less half a viewport. On an axis where the grid is at least as
      large as the viewport the first scroll reaches 0; on a smaller one it
      reaches the negative limit, where the second leaves it (FocusOnSmallGrid).
     */
    method Center()
      requires game.Valid()
      modifies this
      ensures viewport.0 == Focus(game.py, WIDTH / 4, |game.state| - HEIGHT)
      ensures viewport.1 == Focus(game.px, WIDTH / 2, |game.state[0]| - WIDTH)
      ensures game.Height() >= HEIGHT && game.Width() >= WIDTH ==>
                0 <= viewport.0 && viewport.0 + HEIGHT <= game.Height()
                && 0 <= viewport.1 && viewport.1 + WIDTH <= game.Width()
    {
      var player := game.GetPlayer();
      var halfWidth := WIDTH / 2;
      var halfHeight := WIDTH / 4;
      ghost var v := viewport;
      Scroll(-viewport.0, -viewport.1);
      Scroll(player.0 - halfHeight, player.1 - halfWidth);
      ResetThenFocus(v.0, player.0, halfHeight, |game.state| - HEIGHT);
      ResetThenFocus(v.1, player.1, halfWidth, |game.state[0]| - WIDTH);
      if game.Height() >= HEIGHT && game.Width() >= WIDTH {
        FocusCentres(player.0, halfHeight, game.Height() - HEIGHT);
        FocusCentres(player.1, halfWidth, game.Width() - WIDTH);
      }
    }
  }
}
