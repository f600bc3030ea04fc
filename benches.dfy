/** Marking the best paths: from the start, follow every move whose table entry
    is exactly the move's cost lower, and put a bench on each tile visited; then
    count the benches. */
module BestPaths {
  import opened Directions
  import opened Grid
  import opened Mazes
  import opened Walks
  import opened Distances

  /** What the marking walk relies on: a table shaped like g, with every entry in
      0 .. Unreachable and the walls at Unreachable, on a wall-bordered grid. */
  ghost predicate Markable(t: array3<int>, g: Tiles)
    reads t
  {
    WallBordered(g) && Fits(t, g) && Bounded(t) && WallsUnreachable(t, g)
  }

  /** The state is on the grid and so is the tile in front of it. */
  predicate Steppable(g: Tiles, s: State)
  {
    InGrid(g, s.x, s.y) && InGrid(g, Forward(s).x, Forward(s).y)
  }

  function TurnLeft(s: State): State
  {
    State(s.x, s.y, s.dir.Left())
  }

  function TurnRight(s: State): State
  {
    State(s.x, s.y, s.dir.Right())
  }

  /** A state whose entry is below Unreachable stands on an open tile, so it and
      its quarter turns can all step forward inside the grid. */
  lemma FiniteIsOpen(t: array3<int>, g: Tiles, s: State)
    requires Markable(t, g) && InGrid(g, s.x, s.y) && AtState(t, g, s) < Unreachable
    ensures Open(g, s)
    ensures Steppable(g, s) && Steppable(g, TurnLeft(s)) && Steppable(g, TurnRight(s))
  {
    OpenTileIsInterior(g, s.x, s.y);
  }

  /** The k-th move the marking walk tries from s: the left turn, the right turn,
      the step forward. */
  function Successor(s: State, k: int): (r: State)
    ensures k == 0 ==> IsTurn(s, r) && r.dir == s.dir.Left()
    ensures k == 1 ==> IsTurn(s, r) && r.dir == s.dir.Right()
    ensures k != 0 && k != 1 ==> r == Forward(s) && !IsTurn(s, r)
    ensures MoveCost(s, r) == (if k == 0 || k == 1 then 1000 else 1)
  {
    if k == 0 then TurnLeft(s) else if k == 1 then TurnRight(s) else Forward(s)
  }

  /** The k-th move from s is followed: its entry is exactly the move's cost
      (1000 for a turn, 1 for a step) lower than the entry of s. */
  ghost predicate Tight(t: array3<int>, g: Tiles, s: State, k: int): (b: bool)
    reads t
    requires Fits(t, g) && Steppable(g, s) && 0 <= k < 3
    ensures b <==> AtState(t, g, Successor(s, k)) + MoveCost(s, Successor(s, k)) == AtState(t, g, s)
  {
    AtState(t, g, Successor(s, k)) == AtState(t, g, s) - (if k < 2 then 1000 else 1)
  }

  /** A followed move leads to an open state from which the walk can go on. */
  lemma TightIsSteppable(t: array3<int>, g: Tiles, s: State, k: int)
    requires Markable(t, g) && Steppable(g, s) && 0 <= k < 3 && Tight(t, g, s, k)
    ensures Open(g, Successor(s, k)) && Steppable(g, Successor(s, k))
    ensures 0 <= AtState(t, g, Successor(s, k)) < AtState(t, g, s)
  {
    FiniteIsOpen(t, g, Successor(s, k));
  }

  /** The marking walk from s visits the tile (i, j): it stands on it, or a
      followed move leads to a state whose walk visits it. */
  ghost predicate Visits(t: array3<int>, g: Tiles, s: State, i: int, j: int)
    reads t
    requires Markable(t, g) && Steppable(g, s)
    decreases AtState(t, g, s)
  {
    || (s.x == i && s.y == j)
    || (Tight(t, g, s, 0) && (TightIsSteppable(t, g, s, 0); Visits(t, g, Successor(s, 0), i, j)))
    || (Tight(t, g, s, 1) && (TightIsSteppable(t, g, s, 1); Visits(t, g, Successor(s, 1), i, j)))
    || (Tight(t, g, s, 2) && (TightIsSteppable(t, g, s, 2); Visits(t, g, Successor(s, 2), i, j)))
  }

  /** Visits, counting only the first n of the three moves. */
  ghost predicate VisitsUpTo(t: array3<int>, g: Tiles, s: State, n: int, i: int, j: int)
    reads t
    requires Markable(t, g) && Steppable(g, s)
  {
    || (s.x == i && s.y == j)
    || exists k {:trigger Successor(s, k)} :: 0 <= k < n && k < 3 && Tight(t, g, s, k)
         && (TightIsSteppable(t, g, s, k); Visits(t, g, Successor(s, k), i, j))
  }

  /** Puts a bench on (x, y), then follows the left turn and the right turn if
      their entries are exactly 1000 lower, and the step forward if the entry in
      front is exactly 1 lower. The table is only read; g is the grid it was
      computed for. Afterwards exactly the visited tiles hold a bench, and every
      other tile is as before. */
  method AddBenches(maze: Maze, table: array3<int>, ghost g: Tiles, x: int, y: int, dir: Direction)
    requires Markable(table, g) && SameShape(maze.tiles, g)
    requires Steppable(g, State(x, y, dir))
    modifies maze`tiles
    ensures SameShape(maze.tiles, g)
    ensures Marks(old(maze.tiles), maze.tiles, table, g, State(x, y, dir), 3)
    decreases At(table, g, x, y, dir), 1
  {
    ghost var s := State(x, y, dir);
    maze.tiles := SetTile(maze.tiles, x, y, Bench);
    assert Marks(old(maze.tiles), maze.tiles, table, g, s, 0);
    FollowIfTight(maze, table, g, x, y, dir, x, y, dir.Left(), 1000, 0, old(maze.tiles));
    FollowIfTight(maze, table, g, x, y, dir, x, y, dir.Right(), 1000, 1, old(maze.tiles));
    FollowIfTight(maze, table, g, x, y, dir, x + dir.OffsetX(), y + dir.OffsetY(), dir, 1, 2, old(maze.tiles));
  }

  /** The conditional recursive call AddBenches makes for each of its three moves:
      from (x, y) facing dir, the k-th move leads to (nx, ny) facing nd at the
      given cost, and it is followed when the entry there is exactly that much
      lower. Tiles marked since the outer call began (from the grid g0) grow from
      those visited with the first k moves to those visited with the first k + 1. */
  method FollowIfTight(maze: Maze, table: array3<int>, ghost g: Tiles, x: int, y: int, dir: Direction,
                       nx: int, ny: int, nd: Direction, cost: int, ghost k: int, ghost g0: Tiles)
    requires Markable(table, g) && SameShape(maze.tiles, g) && SameShape(g0, g)
    requires Steppable(g, State(x, y, dir)) && 0 <= k < 3
    requires State(nx, ny, nd) == Successor(State(x, y, dir), k) && cost == (if k < 2 then 1000 else 1)
    requires Marks(g0, maze.tiles, table, g, State(x, y, dir), k)
    modifies maze`tiles
    ensures SameShape(maze.tiles, g)
    ensures Marks(g0, maze.tiles, table, g, State(x, y, dir), k + 1)
    decreases At(table, g, x, y, dir), 0
  {
    ghost var before := maze.tiles;
    var followed := table[nx, ny, nd.Index()] == table[x, y, dir.Index()] - cost;
    if followed {
      TightIsSteppable(table, g, State(x, y, dir), k);
      AddBenches(maze, table, g, nx, ny, nd);
    }
    MarkingExtends(table, g, State(x, y, dir), k, State(nx, ny, nd), followed, g0, before, maze.tiles);
  }

  /** b is a with a bench on every tile visited from s using the first n moves,
      and nothing else changed; with n == 3 these are all tiles visited from s. */
  ghost predicate Marks(a: Tiles, b: Tiles, t: array3<int>, g: Tiles, s: State, n: int)
    reads t
    requires SameShape(a, g) && SameShape(b, g) && Markable(t, g) && Steppable(g, s)
  {
    forall i, j {:trigger b[i][j]} :: InGrid(g, i, j) ==>
      b[i][j] == if (if n == 3 then Visits(t, g, s, i, j) else VisitsUpTo(t, g, s, n, i, j)) then Bench else a[i][j]
  }

  /** After the k-th move from s, to u, has been followed (when it is tight) or
      skipped (when it is not), the tiles marked since the call began are those
      visited using the first k + 1 moves. */
  lemma MarkingExtends(t: array3<int>, g: Tiles, s: State, k: int, u: State, followed: bool, g0: Tiles, b: Tiles, c: Tiles)
    requires Markable(t, g) && Steppable(g, s) && 0 <= k < 3 && u == Successor(s, k)
    requires followed == Tight(t, g, s, k)
    requires SameShape(g0, g) && SameShape(b, g) && SameShape(c, g)
    requires Marks(g0, b, t, g, s, k)
    requires followed ==> Steppable(g, u) && Marks(b, c, t, g, u, 3)
    requires !followed ==> c == b
    ensures Marks(g0, c, t, g, s, k + 1)
  {
    forall i, j | InGrid(g, i, j)
      ensures c[i][j] == if (if k + 1 == 3 then Visits(t, g, s, i, j) else VisitsUpTo(t, g, s, k + 1, i, j)) then Bench else g0[i][j]
    {
      assert b[i][j] == if VisitsUpTo(t, g, s, k, i, j) then Bench else g0[i][j];
      if followed {
        assert c[i][j] == if Visits(t, g, u, i, j) then Bench else b[i][j];
      }
      if k + 1 == 3 {
        assert Visits(t, g, s, i, j) == VisitsUpTo(t, g, s, 3, i, j);
      }
    }
  }

  // ---------------------------------------------------------------------------
  // What the benches mean: on a table built by CreateDistanceMap, the marking
  // walk from a state visits exactly the tiles of the cheapest walks from that
  // state to the end tile.

  /** Some state of p stands on the tile (i, j). */
  ghost predicate PassesThrough(p: seq<State>, i: int, j: int)
  {
    exists k :: 0 <= k < |p| && p[k].x == i && p[k].y == j
  }

  /** Some walk from s to the end tile (ex, ey) that no other such walk undercuts
      passes through the tile (i, j). */
  ghost predicate OnBestWalk(g: Tiles, s: State, ex: int, ey: int, i: int, j: int)
  {
    exists p {:trigger WalkTo(g, p, s, ex, ey)} ::
      WalkTo(g, p, s, ex, ey) && NoCheaperWalk(g, s, ex, ey, WalkCost(p)) && PassesThrough(p, i, j)
  }

  /** The table facts CreateDistanceMap establishes, with the end tile open. */
  ghost predicate DistancesToEnd(t: array3<int>, g: Tiles, ex: int, ey: int)
    reads t
  {
    && Markable(t, g) && Closed(t, g) && Witnessed(t, g, ex, ey, 0)
    && InGrid(g, ex, ey) && EndIsZero(t, g, ex, ey)
  }

  /** A followed move is a real move of the reindeer, and it costs exactly the
      difference of the two entries. */
  lemma TightIsMove(t: array3<int>, g: Tiles, s: State, k: int)
    requires Markable(t, g) && Steppable(g, s) && AtState(t, g, s) < Unreachable
    requires 0 <= k < 3 && Tight(t, g, s, k)
    ensures IsMove(g, s, Successor(s, k))
    ensures AtState(t, g, Successor(s, k)) + MoveCost(s, Successor(s, k)) == AtState(t, g, s)
  {
    TightIsSteppable(t, g, s, k);
    FiniteIsOpen(t, g, s);
  }

  /** A move in front of a walk to the end that passes through (i, j) gives
      another such walk. */
  lemma PrependPassesThrough(g: Tiles, s: State, q: seq<State>, ex: int, ey: int, i: int, j: int)
    requires |q| > 0 && IsMove(g, s, q[0]) && WalkTo(g, q, q[0], ex, ey) && PassesThrough(q, i, j)
    ensures WalkTo(g, [s] + q, s, ex, ey) && PassesThrough([s] + q, i, j)
    ensures WalkCost([s] + q) == MoveCost(s, q[0]) + WalkCost(q)
  {
    Prepend(g, s, q);
    var m :| 0 <= m < |q| && q[m].x == i && q[m].y == j;
    assert ([s] + q)[m + 1] == q[m];
  }

  /** A tight move in front of a walk that costs exactly the entry it starts from
      gives a walk that costs exactly the entry of the new first state. */
  lemma TightMoveExtendsWalk(t: array3<int>, g: Tiles, ex: int, ey: int, s: State, k: int, q: seq<State>, i: int, j: int)
    requires Markable(t, g) && Steppable(g, s) && AtState(t, g, s) < Unreachable
    requires 0 <= k < 3 && Tight(t, g, s, k)
    requires WalkTo(g, q, Successor(s, k), ex, ey) && PassesThrough(q, i, j)
    requires (TightIsSteppable(t, g, s, k); WalkCost(q) == AtState(t, g, Successor(s, k)))
    ensures WalkTo(g, [s] + q, s, ex, ey) && WalkCost([s] + q) == AtState(t, g, s) && PassesThrough([s] + q, i, j)
  {
    TightIsMove(t, g, s, k);
    PrependPassesThrough(g, s, q, ex, ey, i, j);
  }

  /** Every tile the marking walk visits from s lies on a walk from s to the end
      that costs exactly the entry of s. */
  lemma {:induction false} VisitedTileIsOnWalk(t: array3<int>, g: Tiles, ex: int, ey: int, s: State, i: int, j: int)
    requires Markable(t, g) && Witnessed(t, g, ex, ey, 0) && Steppable(g, s) && AtState(t, g, s) < Unreachable
    requires Visits(t, g, s, i, j)
    ensures exists p {:trigger WalkTo(g, p, s, ex, ey)} ::
              WalkTo(g, p, s, ex, ey) && WalkCost(p) == AtState(t, g, s) && PassesThrough(p, i, j)
    decreases AtState(t, g, s)
  {
    if s.x == i && s.y == j {
      assert HasWalk(g, s, ex, ey, AtState(t, g, s));
      var p: seq<State> :| WalkTo(g, p, s, ex, ey) && WalkCost(p) == AtState(t, g, s);
      assert p[0].x == i && p[0].y == j;
      assert PassesThrough(p, i, j);
    } else {
      var k :| 0 <= k < 3 && Tight(t, g, s, k) && (TightIsSteppable(t, g, s, k); Visits(t, g, Successor(s, k), i, j));
      var u := Successor(s, k);
      TightIsSteppable(t, g, s, k);
      VisitedTileIsOnWalk(t, g, ex, ey, u, i, j);
      var q: seq<State> :| WalkTo(g, q, u, ex, ey) && WalkCost(q) == AtState(t, g, u) && PassesThrough(q, i, j);
      TightMoveExtendsWalk(t, g, ex, ey, s, k, q, i, j);
    }
  }

  /** Every state of a walk from s to the end that costs exactly the entry of s
      is visited by the marking walk from s: each of its moves is tight. */
  lemma {:induction false} TightWalkIsVisited(t: array3<int>, g: Tiles, ex: int, ey: int, p: seq<State>, k: int)
    requires DistancesToEnd(t, g, ex, ey) && IsWalk(g, p) && Last(p).x == ex && Last(p).y == ey
    requires WalkCost(p) == AtState(t, g, p[0]) && 0 <= k < |p|
    ensures Steppable(g, p[0]) && Visits(t, g, p[0], p[k].x, p[k].y)
    decreases |p|
  {
    var s := p[0];
    OpenTileIsInterior(g, s.x, s.y);
    if k > 0 {
      var u := p[1];
      TailIsWalk(g, p);
      MoveRespectsClosed(t, g, s, u);
      ClosedTableUnderestimates(t, g, p[1..]);
      assert At(t, g, ex, ey, Last(p).dir) == 0;
      var m := if u == TurnLeft(s) then 0 else if u == TurnRight(s) then 1 else 2;
      assert u == Successor(s, m) && Tight(t, g, s, m);
      TightWalkIsVisited(t, g, ex, ey, p[1..], k - 1);
      assert p[1..][k - 1] == p[k];
      TightIsSteppable(t, g, s, m);
    }
  }

  /** The marking walk from a state with a finite entry visits exactly the tiles
      that lie on a cheapest walk from that state to the end tile. */
  lemma VisitsExactlyBestTiles(t: array3<int>, g: Tiles, ex: int, ey: int, s: State, i: int, j: int)
    requires DistancesToEnd(t, g, ex, ey) && Steppable(g, s) && AtState(t, g, s) < Unreachable
    ensures Visits(t, g, s, i, j) <==> OnBestWalk(g, s, ex, ey, i, j)
  {
    TableIsShortestDistance(t, g, ex, ey, s);
    if Visits(t, g, s, i, j) {
      VisitedTileIsOnWalk(t, g, ex, ey, s, i, j);
      var p: seq<State> :| WalkTo(g, p, s, ex, ey) && WalkCost(p) == AtState(t, g, s) && PassesThrough(p, i, j);
      assert NoCheaperWalk(g, s, ex, ey, WalkCost(p));
    }
    if OnBestWalk(g, s, ex, ey, i, j) {
      var p: seq<State> :| WalkTo(g, p, s, ex, ey) && NoCheaperWalk(g, s, ex, ey, WalkCost(p)) && PassesThrough(p, i, j);
      var q: seq<State> :| WalkTo(g, q, s, ex, ey) && WalkCost(q) == AtState(t, g, s);
      assert WalkCost(p) <= WalkCost(q);
      var k :| 0 <= k < |p| && p[k].x == i && p[k].y == j;
      TightWalkIsVisited(t, g, ex, ey, p, k);
    }
  }

  /** The tiles of g that lie on a cheapest walk from s to the end tile. */
  ghost function BestTiles(g: Tiles, s: State, ex: int, ey: int): set<(int, int)>
  {
    set i, j | 0 <= i < |g| && 0 <= j < |g[i]| && OnBestWalk(g, s, ex, ey, i, j) :: (i, j)
  }

  /** On a grid without benches, marking from a state with a finite entry puts
      benches exactly on the tiles of the cheapest walks to the end. */
  lemma MarkedTilesAreBestTiles(t: array3<int>, g: Tiles, ex: int, ey: int, s: State, a: Tiles, b: Tiles)
    requires DistancesToEnd(t, g, ex, ey) && Steppable(g, s) && AtState(t, g, s) < Unreachable
    requires SameShape(a, g) && SameShape(b, g) && Marks(a, b, t, g, s, 3) && Benches(a) == {}
    ensures Benches(b) == BestTiles(g, s, ex, ey)
  {
    forall i, j | InGrid(g, i, j)
      ensures b[i][j] == Bench <==> OnBestWalk(g, s, ex, ey, i, j)
    {
      VisitsExactlyBestTiles(t, g, ex, ey, s, i, j);
      assert (i, j) !in Benches(a);
    }
  }

  // ---------------------------------------------------------------------------
  // Counting the benches.

  /** The benches among the tiles before (x, y) in column order: every column
      left of x, and the tiles of column x above row y. */
  ghost function BenchesBefore(g: Tiles, x: int, y: int): set<(int, int)>
  {
    set i, j | 0 <= i < |g| && 0 <= j < |g[i]| && g[i][j] == Bench && (i < x || (i == x && j < y)) :: (i, j)
  }

  /** Looking at one more tile of a column adds that tile if it is a bench. */
  lemma BenchesBeforeStep(g: Tiles, x: int, y: int)
    requires InGrid(g, x, y)
    ensures (x, y) !in BenchesBefore(g, x, y)
    ensures BenchesBefore(g, x, y + 1) == BenchesBefore(g, x, y) + (if g[x][y] == Bench then {(x, y)} else {})
  {
  }

  /** Past the end of a column is the top of the next. */
  lemma BenchesBeforeNextColumn(g: Tiles, x: int)
    requires 0 <= x < |g|
    ensures BenchesBefore(g, x, |g[x]|) == BenchesBefore(g, x + 1, 0)
  {
  }

  /** None come before the first tile, and all of them before the column past
      the last. */
  lemma BenchesBeforeEnds(g: Tiles)
    ensures BenchesBefore(g, 0, 0) == {}
    ensures BenchesBefore(g, |g|, 0) == Benches(g)
  {
  }

  /** Counts the tiles holding a bench, column by column. */
  method CountBenches(maze: Maze) returns (n: int)
    requires maze.Valid()
    ensures n == |Benches(maze.tiles)|
    ensures 0 <= n <= maze.width * maze.height
  {
    var tiles, width, height := maze.tiles, maze.width, maze.height;
    n := 0;
    BenchesBeforeEnds(tiles);
    for x := 0 to width
      invariant n == |BenchesBefore(tiles, x, 0)|
      invariant 0 <= n <= x * height
    {
      for y := 0 to height
        invariant n == |BenchesBefore(tiles, x, y)|
        invariant 0 <= n <= x * height + y
      {
        BenchesBeforeStep(tiles, x, y);
        if tiles[x][y] == Bench {
          n := n + 1;
        }
      }
      BenchesBeforeNextColumn(tiles, x);
      assert x * height + height == (x + 1) * height;
    }
  }
}
