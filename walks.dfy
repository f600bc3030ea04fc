/** Walks of the reindeer through a maze: a state is a tile and a facing, and a
    move is a quarter turn on the spot (cost 1000) or a step forward onto the
    next open tile (cost 1). */
module Walks {
  import opened Directions
  import opened Grid

  datatype State = State(x: int, y: int, dir: Direction)

  /** The state stands on a tile of the grid that is not a wall. */
  predicate Open(g: Tiles, s: State)
  {
    InGrid(g, s.x, s.y) && g[s.x][s.y] != Wall
  }

  /** The state one step forward. */
  function Forward(s: State): (r: State)
    ensures r.dir == s.dir && r != s
  {
    State(s.x + s.dir.OffsetX(), s.y + s.dir.OffsetY(), s.dir)
  }

  predicate IsTurn(s: State, t: State)
  {
    t.x == s.x && t.y == s.y && (t.dir == s.dir.Left() || t.dir == s.dir.Right())
  }

  predicate IsMove(g: Tiles, s: State, t: State)
  {
    Open(g, s) && Open(g, t) && (IsTurn(s, t) || t == Forward(s))
  }

  function MoveCost(s: State, t: State): nat
  {
    if IsTurn(s, t) then 1000 else 1
  }

  /** A non-empty sequence of open states, each reached from the one before by a move. */
  predicate IsWalk(g: Tiles, p: seq<State>)
  {
    && |p| > 0
    && Open(g, p[0])
    && forall i :: 0 <= i < |p| - 1 ==> IsMove(g, p[i], p[i + 1])
  }

  function WalkCost(p: seq<State>): nat
  {
    if |p| <= 1 then 0 else MoveCost(p[0], p[1]) + WalkCost(p[1..])
  }

  function Last(p: seq<State>): State
    requires |p| > 0
  {
    p[|p| - 1]
  }

  /** p is a walk from s that ends on the tile (ex, ey), in any facing. */
  predicate WalkTo(g: Tiles, p: seq<State>, s: State, ex: int, ey: int)
  {
    IsWalk(g, p) && p[0] == s && Last(p).x == ex && Last(p).y == ey
  }

  /** Some walk from s to the tile (ex, ey) costs exactly c. */
  ghost predicate HasWalk(g: Tiles, s: State, ex: int, ey: int, c: int)
  {
    exists p {:trigger WalkTo(g, p, s, ex, ey)} :: WalkTo(g, p, s, ex, ey) && WalkCost(p) == c
  }

  /** Every walk from s to the tile (ex, ey) costs at least c. */
  ghost predicate NoCheaperWalk(g: Tiles, s: State, ex: int, ey: int, c: int)
  {
    forall p {:trigger WalkTo(g, p, s, ex, ey)} :: WalkTo(g, p, s, ex, ey) ==> c <= WalkCost(p)
  }

  /** Moving first to the start of a walk gives a walk that costs the move more. */
  lemma Prepend(g: Tiles, s: State, p: seq<State>)
    requires IsWalk(g, p) && IsMove(g, s, p[0])
    ensures IsWalk(g, [s] + p)
    ensures WalkCost([s] + p) == MoveCost(s, p[0]) + WalkCost(p)
    ensures Last([s] + p) == Last(p)
  {
    var q := [s] + p;
    assert q[1..] == p;
    forall i | 0 <= i < |q| - 1
      ensures IsMove(g, q[i], q[i + 1])
    {
      if i > 0 {
        assert q[i] == p[i - 1] && q[i + 1] == p[i];
      }
    }
  }

  /** Dropping the first state of a walk of two or more states leaves a walk
      to the same last state, cheaper by the first move. */
  lemma TailIsWalk(g: Tiles, p: seq<State>)
    requires IsWalk(g, p) && |p| > 1
    ensures IsWalk(g, p[1..]) && Last(p[1..]) == Last(p)
    ensures IsMove(g, p[0], p[1]) && WalkCost(p) == MoveCost(p[0], p[1]) + WalkCost(p[1..])
  {
    forall i | 0 <= i < |p[1..]| - 1
      ensures IsMove(g, p[1..][i], p[1..][i + 1])
    {
      assert IsMove(g, p[i + 1], p[i + 2]);
    }
  }
}
