/** The distance table: for every tile and facing, the cheapest cost found so far
    of reaching the end tile from there, where a step forward costs 1 and a
    quarter turn costs 1000. It is filled by relaxing backwards from the end. */
module Distances {
  import opened Directions
  import opened Grid
  import opened Mazes
  import opened Walks

  /** The marker of an entry no walk has reached yet: sys.maxsize on a 64-bit build. */
  const Unreachable: int := 0x7FFF_FFFF_FFFF_FFFF

  /** One pending relaxation: standing on (x, y) facing dir, the end can be reached
      for cost. */
  datatype Update = Update(x: int, y: int, dir: Direction, cost: int)

  function StateOf(u: Update): State
  {
    State(u.x, u.y, u.dir)
  }

  /** The updates a commit of u pushes, in order: the left turn and the right turn
      on the same tile for 1000 more, and the tile behind the facing for 1 more. */
  function Expansion(u: Update): (r: seq<Update>)
    ensures |r| == 3
  {
    [Update(u.x, u.y, u.dir.Left(), u.cost + 1000),
     Update(u.x, u.y, u.dir.Right(), u.cost + 1000),
     Update(u.x - u.dir.OffsetX(), u.y - u.dir.OffsetY(), u.dir, u.cost + 1)]
  }

  /** Each update a commit of u pushes is a state from which one move reaches
      u's state, and its cost is u's cost plus that move's cost. */
  lemma ExpansionIsPredecessors(u: Update)
    ensures forall e :: e in Expansion(u) ==> IsTurn(StateOf(e), StateOf(u)) || Forward(StateOf(e)) == StateOf(u)
    ensures forall e :: e in Expansion(u) ==> e.cost == u.cost + MoveCost(StateOf(e), StateOf(u))
  {
    TurnsAreInverse(u.dir);
    OffsetIsUnitStep(u.dir);
  }

  /** Every state from which one move reaches u's state is among the updates
      a commit of u pushes, so no predecessor is missed. */
  lemma ExpansionHasEveryPredecessor(u: Update, s: State)
    requires IsTurn(s, StateOf(u)) || Forward(s) == StateOf(u)
    ensures exists e :: e in Expansion(u) && StateOf(e) == s
  {
    var r := Expansion(u);
    TurnsAreInverse(s.dir);
    if IsTurn(s, StateOf(u)) {
      if u.dir == s.dir.Left() {
        assert StateOf(r[1]) == s;
      } else {
        assert StateOf(r[0]) == s;
      }
    } else {
      assert StateOf(r[2]) == s;
    }
  }

  /** The table has one slot per tile of g and per facing. */
  predicate Fits(t: array3<int>, g: Tiles)
  {
    IsGrid(g) && t.Length0 == |g| && t.Length1 == |g[0]| && t.Length2 == 4
  }

  function At(t: array3<int>, g: Tiles, x: int, y: int, d: Direction): int
    reads t
    requires Fits(t, g) && InGrid(g, x, y)
  {
    t[x, y, d.Index()]
  }

  function AtState(t: array3<int>, g: Tiles, s: State): int
    reads t
    requires Fits(t, g) && InGrid(g, s.x, s.y)
  {
    At(t, g, s.x, s.y, s.dir)
  }

  /** Every entry is a cost between 0 and Unreachable. */
  ghost predicate Bounded(t: array3<int>)
    reads t
  {
    forall i, j, k :: 0 <= i < t.Length0 && 0 <= j < t.Length1 && 0 <= k < t.Length2
                      ==> 0 <= t[i, j, k] <= Unreachable
  }

  /** Wall tiles hold Unreachable in all four facings. */
  ghost predicate WallsUnreachable(t: array3<int>, g: Tiles)
    reads t
    requires Fits(t, g)
  {
    forall x, y, d {:trigger At(t, g, x, y, d)} :: InGrid(g, x, y) && g[x][y] == Wall ==> At(t, g, x, y, d) == Unreachable
  }

  /** No entry of t has risen since the old state. */
  twostate predicate NoneRaised(t: array3<int>)
    reads t
  {
    forall i, j, k :: 0 <= i < t.Length0 && 0 <= j < t.Length1 && 0 <= k < t.Length2
                      ==> t[i, j, k] <= old(t[i, j, k])
  }

  /** The candidate cost c for (x, y, d) is taken care of: the entry is already at
      most c, or the candidate still waits in the worklist. */
  ghost predicate Settled(t: array3<int>, g: Tiles, pending: seq<Update>, x: int, y: int, d: Direction, c: int)
    reads t
    requires Fits(t, g) && InGrid(g, x, y)
  {
    At(t, g, x, y, d) <= c || Update(x, y, d, c) in pending
  }

  /** The three relaxations out of the open state (x, y, d) are taken care of:
      both quarter turns on the same tile for 1000 more, and the tile behind the
      facing, when it is open, for 1 more. */
  ghost predicate RelaxedAt(t: array3<int>, g: Tiles, pending: seq<Update>, x: int, y: int, d: Direction)
    reads t
    requires Fits(t, g) && InGrid(g, x, y)
  {
    var c := At(t, g, x, y, d);
    var behindX := x - d.OffsetX();
    var behindY := y - d.OffsetY();
    && Settled(t, g, pending, x, y, d.Left(), c + 1000)
    && Settled(t, g, pending, x, y, d.Right(), c + 1000)
    && (InGrid(g, behindX, behindY) && g[behindX][behindY] != Wall ==> Settled(t, g, pending, behindX, behindY, d, c + 1))
  }

  ghost predicate Relaxed(t: array3<int>, g: Tiles, pending: seq<Update>)
    reads t
    requires Fits(t, g)
  {
    forall x, y, d {:trigger RelaxedAt(t, g, pending, x, y, d)}
      :: InGrid(g, x, y) && g[x][y] != Wall ==> RelaxedAt(t, g, pending, x, y, d)
  }

  /** No relaxation is pending: the table satisfies every triangle inequality. */
  ghost predicate Closed(t: array3<int>, g: Tiles)
    reads t
    requires Fits(t, g)
  {
    Relaxed(t, g, [])
  }

  // ---------------------------------------------------------------------------
  // Termination of the worklist. Every update that is committed has a cost of at
  // most Unreachable and pushes three updates that cost more, so weighing an
  // update of cost c by 4^(Unreachable - c + 1) makes every iteration lighter.

  function Pow4(n: nat): (r: nat)
    ensures r >= 1
  {
    if n == 0 then 1 else 4 * Pow4(n - 1)
  }

  lemma {:induction false} Pow4IsMonotone(m: nat, n: nat)
    requires m <= n
    ensures Pow4(m) <= Pow4(n)
    decreases n - m
  {
    if m < n {
      Pow4IsMonotone(m, n - 1);
    }
  }

  function Weight(c: int): (w: nat)
    ensures w >= 1
  {
    if c > Unreachable then 1 else Pow4(Unreachable - c + 1)
  }

  /** The three updates pushed by a commit weigh less than the committed one. */
  lemma ExpansionIsLighter(c: int)
    requires c <= Unreachable
    ensures 2 * Weight(c + 1000) + Weight(c + 1) < Weight(c)
  {
    var n: nat := Unreachable - c;
    assert Weight(c) == 4 * Pow4(n);
    if c + 1000 <= Unreachable {
      Pow4IsMonotone(Unreachable - (c + 1000) + 1, n);
    }
    if c + 1 <= Unreachable {
      assert Weight(c + 1) == Pow4(n);
    }
  }

  function Potential(pending: seq<Update>): nat
  {
    if |pending| == 0 then 0 else Weight(pending[0].cost) + Potential(pending[1..])
  }

  lemma PotentialOfExpansion(u: Update)
    ensures Potential(Expansion(u)) == 2 * Weight(u.cost + 1000) + Weight(u.cost + 1)
  {
    var e := Expansion(u);
    assert Potential(e[2..]) == Weight(u.cost + 1) by {
      assert e[2..][1..] == [];
    }
    assert e[1..][1..] == e[2..];
  }

  lemma {:induction false} PotentialOfAppend(a: seq<Update>, b: seq<Update>)
    ensures Potential(a + b) == Potential(a) + Potential(b)
    decreases |a|
  {
    if |a| > 0 {
      assert (a + b)[1..] == a[1..] + b;
      PotentialOfAppend(a[1..], b);
    } else {
      assert a + b == b;
    }
  }

  /** Every update waiting in the worklist lies inside the grid and has a cost of
      at least 0. */
  ghost predicate WellPlaced(g: Tiles, pending: seq<Update>)
  {
    forall i :: 0 <= i < |pending| ==> InGrid(g, pending[i].x, pending[i].y) && 0 <= pending[i].cost
  }

  /** Every entry below Unreachable is base plus the cost of a real walk from its
      state to the tile (ex, ey). */
  ghost predicate Witnessed(t: array3<int>, g: Tiles, ex: int, ey: int, base: int)
    reads t
    requires Fits(t, g)
  {
    forall x, y, d {:trigger At(t, g, x, y, d)} :: InGrid(g, x, y) && At(t, g, x, y, d) < Unreachable
      ==> HasWalk(g, State(x, y, d), ex, ey, At(t, g, x, y, d) - base)
  }

  /** Every pending update on an open tile is base plus the cost of a real walk
      from its state to the tile (ex, ey). */
  ghost predicate PendingWitnessed(g: Tiles, pending: seq<Update>, ex: int, ey: int, base: int)
  {
    forall i :: 0 <= i < |pending| && Open(g, StateOf(pending[i]))
      ==> HasWalk(g, StateOf(pending[i]), ex, ey, pending[i].cost - base)
  }

  /** Relaxed only asks for pending work, so more pending work keeps it. */
  lemma RelaxedWithMoreWork(t: array3<int>, g: Tiles, p: seq<Update>, q: seq<Update>)
    requires Fits(t, g) && Relaxed(t, g, p)
    requires forall u :: u in p ==> u in q
    ensures Relaxed(t, g, q)
  {
    forall x, y, d | InGrid(g, x, y) && g[x][y] != Wall
      ensures RelaxedAt(t, g, q, x, y, d)
    {
      assert RelaxedAt(t, g, p, x, y, d);
    }
  }

  /** Dropping the head of the worklist keeps the table relaxed when the head
      lies on a wall or is worse than its entry. */
  lemma DroppingKeepsRelaxed(t: array3<int>, g: Tiles, p: seq<Update>)
    requires Fits(t, g) && |p| > 0 && InGrid(g, p[0].x, p[0].y) && Relaxed(t, g, p)
    requires g[p[0].x][p[0].y] == Wall || At(t, g, p[0].x, p[0].y, p[0].dir) < p[0].cost
    ensures Relaxed(t, g, p[1..])
  {
    assert p == [p[0]] + p[1..];
    forall x, y, d | InGrid(g, x, y) && g[x][y] != Wall
      ensures RelaxedAt(t, g, p[1..], x, y, d)
    {
      assert RelaxedAt(t, g, p, x, y, d);
    }
  }

  /** The rest of a worklist keeps the per-update facts of the whole. */
  lemma DroppingKeepsPlaced(g: Tiles, p: seq<Update>)
    requires |p| > 0 && WellPlaced(g, p)
    ensures WellPlaced(g, p[1..])
  {
    forall i | 0 <= i < |p| - 1
      ensures p[1..][i] == p[i + 1]
    {
    }
  }

  lemma DroppingKeepsWitnessed(g: Tiles, p: seq<Update>, ex: int, ey: int, base: int)
    requires |p| > 0 && PendingWitnessed(g, p, ex, ey, base)
    ensures PendingWitnessed(g, p[1..], ex, ey, base)
  {
    forall i | 0 <= i < |p| - 1
      ensures p[1..][i] == p[i + 1]
    {
    }
  }

  /** t is old(t) with the entry of u's state lowered to u's cost. */
  twostate predicate CommittedAt(t: array3<int>, g: Tiles, u: Update)
    reads t
    requires Fits(t, g) && InGrid(g, u.x, u.y)
  {
    && u.cost <= old(At(t, g, u.x, u.y, u.dir))
    && forall i, j, k :: 0 <= i < t.Length0 && 0 <= j < t.Length1 && 0 <= k < t.Length2
         ==> t[i, j, k] == if i == u.x && j == u.y && k == u.dir.Index() then u.cost else old(t[i, j, k])
  }

  /** Committing an update on an open tile keeps every entry between 0 and
      Unreachable, keeps walls at Unreachable, lowers no entry but its own, and
      pushes updates that lie inside the grid. */
  twostate lemma CommittingKeepsBounds(t: array3<int>, new g: Tiles, new p: seq<Update>, new next: seq<Update>)
    requires Fits(t, g) && WallBordered(g) && |p| > 0 && WellPlaced(g, p)
    requires Open(g, StateOf(p[0])) && CommittedAt(t, g, p[0])
    requires old(Bounded(t)) && old(WallsUnreachable(t, g))
    requires next == p[1..] + Expansion(p[0])
    ensures Bounded(t) && WallsUnreachable(t, g) && WellPlaced(g, next)
    ensures NoneRaised(t)
    ensures At(t, g, p[0].x, p[0].y, p[0].dir) == p[0].cost
  {
    var u := p[0];
    OpenTileIsInterior(g, u.x, u.y);
    forall x, y, d | InGrid(g, x, y) && g[x][y] == Wall
      ensures At(t, g, x, y, d) == Unreachable
    {
      assert old(At(t, g, x, y, d)) == Unreachable;
    }
    forall i | 0 <= i < |next|
      ensures InGrid(g, next[i].x, next[i].y) && 0 <= next[i].cost
    {
      if i < |p| - 1 {
        assert next[i] == p[i + 1];
      }
    }
  }

  /** Committing the head u of the worklist (its cost is no worse than its entry)
      and pushing its two quarter turns and the tile behind keeps the table
      relaxed: every other entry is unchanged or lowered to a cost that was
      pending, and the three relaxations out of u are now pending. */
  twostate lemma CommittingKeepsRelaxed(t: array3<int>, new g: Tiles, new p: seq<Update>, new next: seq<Update>)
    requires Fits(t, g) && WallBordered(g) && |p| > 0
    requires Open(g, StateOf(p[0])) && CommittedAt(t, g, p[0])
    requires old(Relaxed(t, g, p))
    requires next == p[1..] + Expansion(p[0])
    ensures Relaxed(t, g, next)
  {
    var u := p[0];
    assert p == [u] + p[1..];
    OpenTileIsInterior(g, u.x, u.y);
    forall x, y, d | InGrid(g, x, y)
      ensures At(t, g, x, y, d) <= old(At(t, g, x, y, d))
      ensures (x != u.x || y != u.y || d != u.dir) ==> At(t, g, x, y, d) == old(At(t, g, x, y, d))
    {
      IndexIsInjective(d, u.dir);
    }
    forall x, y, d | InGrid(g, x, y) && g[x][y] != Wall
      ensures RelaxedAt(t, g, next, x, y, d)
    {
      assert old(RelaxedAt(t, g, p, x, y, d));
    }
  }

  /** Each update a commit of u pushes onto an open tile is witnessed by the walk
      that witnessed u with one more move in front. */
  lemma ExpansionIsWitnessed(g: Tiles, u: Update, i: int, ex: int, ey: int, base: int)
    requires WallBordered(g) && Open(g, StateOf(u)) && HasWalk(g, StateOf(u), ex, ey, u.cost - base)
    requires 0 <= i < 3 && Open(g, StateOf(Expansion(u)[i]))
    ensures HasWalk(g, StateOf(Expansion(u)[i]), ex, ey, Expansion(u)[i].cost - base)
  {
    var s := StateOf(u);
    var w :| WalkTo(g, w, s, ex, ey) && WalkCost(w) == u.cost - base;
    var v := StateOf(Expansion(u)[i]);
    TurnsAreInverse(u.dir);
    assert IsMove(g, v, s);
    Prepend(g, v, w);
    assert WalkTo(g, [v] + w, v, ex, ey);
  }

  /** Replacing the head u of the worklist by its expansion keeps every pending
      update on an open tile witnessed. */
  lemma CommittingKeepsPendingWitnessed(g: Tiles, p: seq<Update>, next: seq<Update>, ex: int, ey: int, base: int)
    requires WallBordered(g) && |p| > 0 && Open(g, StateOf(p[0]))
    requires PendingWitnessed(g, p, ex, ey, base)
    requires next == p[1..] + Expansion(p[0])
    ensures PendingWitnessed(g, next, ex, ey, base)
  {
    forall i | 0 <= i < |next| && Open(g, StateOf(next[i]))
      ensures HasWalk(g, StateOf(next[i]), ex, ey, next[i].cost - base)
    {
      if i < |p| - 1 {
        assert next[i] == p[i + 1];
      } else {
        assert next[i] == Expansion(p[0])[i - (|p| - 1)];
        ExpansionIsWitnessed(g, p[0], i - (|p| - 1), ex, ey, base);
      }
    }
  }

  /** Committing an update that is witnessed keeps every finite entry witnessed. */
  twostate lemma CommittingKeepsWitnessed(t: array3<int>, new g: Tiles, new u: Update, new ex: int, new ey: int, new base: int)
    requires Fits(t, g) && InGrid(g, u.x, u.y) && CommittedAt(t, g, u)
    requires old(Witnessed(t, g, ex, ey, base))
    requires u.cost < Unreachable ==> HasWalk(g, StateOf(u), ex, ey, u.cost - base)
    ensures Witnessed(t, g, ex, ey, base)
  {
    forall x, y, d | InGrid(g, x, y) && At(t, g, x, y, d) < Unreachable
      ensures HasWalk(g, State(x, y, d), ex, ey, At(t, g, x, y, d) - base)
    {
      IndexIsInjective(d, u.dir);
      if x == u.x && y == u.y && d == u.dir {
      } else {
        assert old(At(t, g, x, y, d)) == At(t, g, x, y, d);
      }
    }
  }

  /** The loop invariant of UpdateDistances, for its seed update and worklist. The
      flags record whether the table was closed, and whether it was witnessed by
      walks to the seed's tile, when the relaxation started. */
  ghost predicate Progress(t: array3<int>, g: Tiles, pending: seq<Update>, seed: Update, closed: bool, witnessed: bool)
    reads t
    requires Fits(t, g)
  {
    && Bounded(t) && WallsUnreachable(t, g) && WellPlaced(g, pending)
    && InGrid(g, seed.x, seed.y)
    && (g[seed.x][seed.y] != Wall ==> At(t, g, seed.x, seed.y, seed.dir) <= seed.cost || (|pending| > 0 && pending[0] == seed))
    && (closed ==> Relaxed(t, g, pending))
    && (witnessed ==> Witnessed(t, g, seed.x, seed.y, seed.cost) && PendingWitnessed(g, pending, seed.x, seed.y, seed.cost))
  }

  /** Dropping the head of the worklist, because it lies on a wall or is worse
      than its entry, keeps the invariant. */
  lemma DroppingKeepsProgress(t: array3<int>, g: Tiles, p: seq<Update>, seed: Update, closed: bool, witnessed: bool)
    requires Fits(t, g) && |p| > 0 && Progress(t, g, p, seed, closed, witnessed)
    requires g[p[0].x][p[0].y] == Wall || At(t, g, p[0].x, p[0].y, p[0].dir) < p[0].cost
    ensures Progress(t, g, p[1..], seed, closed, witnessed)
  {
    DroppingKeepsPlaced(g, p);
    if closed {
      DroppingKeepsRelaxed(t, g, p);
    }
    if witnessed {
      DroppingKeepsWitnessed(g, p, seed.x, seed.y, seed.cost);
    }
  }

  /** Replacing the head of the worklist by its expansion makes the worklist
      lighter, whenever the head costs at most Unreachable. */
  lemma CommitLowersPotential(p: seq<Update>)
    requires |p| > 0 && p[0].cost <= Unreachable
    ensures Potential((p + Expansion(p[0]))[1..]) < Potential(p)
  {
    PotentialOfExpansion(p[0]);
    ExpansionIsLighter(p[0].cost);
    ReplacingHeadByLighter(p, Expansion(p[0]));
  }

  /** Replacing the head of a worklist by updates that weigh less than it makes
      the worklist lighter. */
  lemma ReplacingHeadByLighter(p: seq<Update>, e: seq<Update>)
    requires |p| > 0 && Potential(e) < Weight(p[0].cost)
    ensures Potential((p + e)[1..]) < Potential(p)
  {
    assert (p + e)[1..] == p[1..] + e;
    PotentialOfAppend(p[1..], e);
  }

  // ---------------------------------------------------------------------------
  // Relaxation

  /** One round of the worklist: the head update is dropped when it lies on a
      wall or is worse than its entry, and otherwise committed, with its two
      quarter turns and the tile behind pushed at the back. */
  method ProcessFirst(g: Tiles, table: array3<int>, updates: seq<Update>,
                      ghost seed: Update, ghost closed: bool, ghost witnessed: bool)
    returns (rest: seq<Update>)
    requires WallBordered(g) && Fits(table, g) && |updates| > 0
    requires Progress(table, g, updates, seed, closed, witnessed)
    modifies table
    ensures Progress(table, g, rest, seed, closed, witnessed)
    ensures NoneRaised(table)
    ensures Potential(rest) < Potential(updates)
  {
    var update := updates[0];
    assert Potential(updates) == Weight(update.cost) + Potential(updates[1..]);

    // walls are never opened
    if g[update.x][update.y] == Wall {
      DroppingKeepsProgress(table, g, updates, seed, closed, witnessed);
      return updates[1..];
    }

    // an update that would make the entry worse is dropped
    if table[update.x, update.y, update.dir.Index()] < update.cost {
      DroppingKeepsProgress(table, g, updates, seed, closed, witnessed);
      return updates[1..];
    }

    table[update.x, update.y, update.dir.Index()] := update.cost;
    rest := updates + Expansion(update);
    rest := rest[1..];
    CommitLowersPotential(updates);

    // the committed table and the new worklist keep the invariant
    assert rest == updates[1..] + Expansion(update);
    CommittingKeepsBounds(table, g, updates, rest);
    if closed {
      CommittingKeepsRelaxed(table, g, updates, rest);
    }
    if witnessed {
      CommittingKeepsWitnessed(table, g, update, seed.x, seed.y, seed.cost);
      CommittingKeepsPendingWitnessed(g, updates, rest, seed.x, seed.y, seed.cost);
    }
  }

  /** Lowers table entries by relaxing backwards from (x, y, dir) at cost, with a
      first-in first-out worklist. An update on a wall, or one that is worse than
      the entry, is dropped; otherwise it is committed (an equal cost is committed
      again) and the two quarter turns and the tile behind are pushed. A table
      that satisfied every triangle inequality still does, and a table whose finite
      entries were costs of walks to (x, y) above cost still has only such entries. */
  method UpdateDistances(maze: Maze, table: array3<int>, x: int, y: int, dir: Direction, cost: int)
    requires WallBordered(maze.tiles)
    requires Fits(table, maze.tiles) && Bounded(table) && WallsUnreachable(table, maze.tiles)
    requires InGrid(maze.tiles, x, y) && 0 <= cost
    modifies table
    ensures Bounded(table) && WallsUnreachable(table, maze.tiles)
    ensures NoneRaised(table)
    ensures maze.tiles[x][y] != Wall ==> At(table, maze.tiles, x, y, dir) <= cost
    ensures old(Closed(table, maze.tiles)) ==> Closed(table, maze.tiles)
    ensures old(Witnessed(table, maze.tiles, x, y, cost)) ==> Witnessed(table, maze.tiles, x, y, cost)
  {
    var g := maze.tiles;
    ghost var closed := Closed(table, g);
    ghost var witnessed := Witnessed(table, g, x, y, cost);
    var updates := [Update(x, y, dir, cost)];
    ghost var seed := updates[0];
    if closed {
      RelaxedWithMoreWork(table, g, [], updates);
    }
    if g[x][y] != Wall {
      assert WalkTo(g, [State(x, y, dir)], State(x, y, dir), x, y);
    }
    while 0 < |updates|
      invariant Progress(table, g, updates, seed, closed, witnessed)
      invariant NoneRaised(table)
      decreases Potential(updates)
    {
      updates := ProcessFirst(g, table, updates, seed, closed, witnessed);
    }
  }

  // ---------------------------------------------------------------------------
  // What a closed, witnessed table means: the cheapest cost of reaching the end.

  /** A closed table never charges more for a state than a move out of it plus the
      entry of the state the move reaches. */
  lemma MoveRespectsClosed(t: array3<int>, g: Tiles, s: State, u: State)
    requires Fits(t, g) && Closed(t, g) && IsMove(g, s, u)
    ensures AtState(t, g, s) <= MoveCost(s, u) + AtState(t, g, u)
  {
    assert RelaxedAt(t, g, [], u.x, u.y, u.dir);
    if IsTurn(s, u) {
      assert s.dir == u.dir.Left() || s.dir == u.dir.Right();
    }
  }

  /** Along any walk, a closed table charges its first state at most the walk's
      cost plus the entry of its last state. */
  lemma {:induction false} ClosedTableUnderestimates(t: array3<int>, g: Tiles, p: seq<State>)
    requires Fits(t, g) && Closed(t, g) && IsWalk(g, p)
    ensures Open(g, Last(p)) && AtState(t, g, p[0]) <= WalkCost(p) + AtState(t, g, Last(p))
    decreases |p|
  {
    if |p| > 1 {
      TailIsWalk(g, p);
      MoveRespectsClosed(t, g, p[0], p[1]);
      ClosedTableUnderestimates(t, g, p[1..]);
    }
  }

  /** The end tile holds 0 in every facing. */
  ghost predicate EndIsZero(t: array3<int>, g: Tiles, ex: int, ey: int)
    reads t
    requires Fits(t, g) && InGrid(g, ex, ey)
  {
    forall d {:trigger At(t, g, ex, ey, d)} :: At(t, g, ex, ey, d) == 0
  }

  /** A closed table that holds 0 on the end tile and whose finite entries are all
      costs of real walks to the end holds, for every open state, exactly the cost
      of the cheapest walk from it to the end; Unreachable means no walk costs less. */
  lemma TableIsShortestDistance(t: array3<int>, g: Tiles, ex: int, ey: int, s: State)
    requires Fits(t, g) && Closed(t, g) && Witnessed(t, g, ex, ey, 0)
    requires InGrid(g, ex, ey) && EndIsZero(t, g, ex, ey)
    requires InGrid(g, s.x, s.y)
    ensures AtState(t, g, s) < Unreachable ==> HasWalk(g, s, ex, ey, AtState(t, g, s))
    ensures NoCheaperWalk(g, s, ex, ey, AtState(t, g, s))
  {
    forall p | WalkTo(g, p, s, ex, ey)
      ensures AtState(t, g, s) <= WalkCost(p)
    {
      ClosedTableUnderestimates(t, g, p);
      assert At(t, g, ex, ey, Last(p).dir) == 0;
    }
  }

  /** Some walk from s to the tile (ex, ey) costs less than Unreachable. */
  ghost predicate ReachesEnd(g: Tiles, s: State, ex: int, ey: int)
  {
    exists p {:trigger WalkTo(g, p, s, ex, ey)} :: WalkTo(g, p, s, ex, ey) && WalkCost(p) < Unreachable
  }

  /** On a closed table that holds 0 on an open end tile, a state reaches the end
      only if its entry is finite; when finite entries are walk costs as well, the
      converse holds, so a finite entry means exactly that the end can be reached. */
  lemma ReachableIsFinite(t: array3<int>, g: Tiles, ex: int, ey: int, s: State)
    requires Fits(t, g) && Closed(t, g) && InGrid(g, ex, ey) && InGrid(g, s.x, s.y)
    requires g[ex][ey] != Wall ==> EndIsZero(t, g, ex, ey)
    ensures ReachesEnd(g, s, ex, ey) ==> AtState(t, g, s) < Unreachable
    ensures Witnessed(t, g, ex, ey, 0) && AtState(t, g, s) < Unreachable ==> ReachesEnd(g, s, ex, ey)
  {
    if ReachesEnd(g, s, ex, ey) {
      var p :| WalkTo(g, p, s, ex, ey) && WalkCost(p) < Unreachable;
      ClosedTableUnderestimates(t, g, p);
      assert At(t, g, ex, ey, Last(p).dir) == 0;
    }
    if Witnessed(t, g, ex, ey, 0) && AtState(t, g, s) < Unreachable {
      assert HasWalk(g, s, ex, ey, AtState(t, g, s));
    }
  }

  /** A table with every entry Unreachable is bounded, unreachable on the walls,
      closed (every triangle inequality holds against Unreachable), and witnessed
      for any end and base, having no finite entry. */
  lemma InitialTableIsClosed(t: array3<int>, g: Tiles, ex: int, ey: int, base: int)
    requires Fits(t, g) && WallBordered(g)
    requires forall i, j, k :: 0 <= i < t.Length0 && 0 <= j < t.Length1 && 0 <= k < t.Length2 ==> t[i, j, k] == Unreachable
    ensures Bounded(t) && WallsUnreachable(t, g) && Closed(t, g) && Witnessed(t, g, ex, ey, base)
  {
    forall x, y, d | InGrid(g, x, y) && g[x][y] != Wall
      ensures RelaxedAt(t, g, [], x, y, d)
    {
      OpenTileIsInterior(g, x, y);
    }
  }

  /** A fresh width x height x 4 table with every entry Unreachable, filled
      column by column and, within a column, row by row. */
  method NewTable(width: nat, height: nat) returns (t: array3<int>)
    ensures fresh(t) && t.Length0 == width && t.Length1 == height && t.Length2 == 4
    ensures forall i, j, k :: 0 <= i < width && 0 <= j < height && 0 <= k < 4 ==> t[i, j, k] == Unreachable
  {
    t := new int[width, height, 4];
    for x := 0 to width
      invariant forall i, j, k :: 0 <= i < x && 0 <= j < height && 0 <= k < 4 ==> t[i, j, k] == Unreachable
    {
      for y := 0 to height
        invariant forall i, j, k :: 0 <= i < x && 0 <= j < height && 0 <= k < 4 ==> t[i, j, k] == Unreachable
        invariant forall j, k :: 0 <= j < y && 0 <= k < 4 ==> t[x, j, k] == Unreachable
      {
        t[x, y, East.Index()] := Unreachable;
        t[x, y, North.Index()] := Unreachable;
        t[x, y, South.Index()] := Unreachable;
        t[x, y, West.Index()] := Unreachable;
      }
    }
  }

  /** Builds the table: every entry Unreachable, then relaxes from the end tile
      at cost 0 facing East, North, South and West in turn. */
  method CreateDistanceMap(maze: Maze) returns (distances: array3<int>)
    requires maze.Valid() && WallBordered(maze.tiles)
    ensures fresh(distances) && Fits(distances, maze.tiles)
    ensures Bounded(distances) && WallsUnreachable(distances, maze.tiles)
    ensures Closed(distances, maze.tiles)
    ensures Witnessed(distances, maze.tiles, maze.endX, maze.endY, 0)
    ensures maze.tiles[maze.endX][maze.endY] != Wall ==> EndIsZero(distances, maze.tiles, maze.endX, maze.endY)
  {
    distances := NewTable(maze.width, maze.height);
    InitialTableIsClosed(distances, maze.tiles, maze.endX, maze.endY, 0);
    SeedEnd(maze, distances, East, {});
    SeedEnd(maze, distances, North, {East});
    SeedEnd(maze, distances, South, {East, North});
    SeedEnd(maze, distances, West, {East, North, South});
    if maze.tiles[maze.endX][maze.endY] != Wall {
      forall d: Direction
        ensures At(distances, maze.tiles, maze.endX, maze.endY, d) == 0
      {
        assert d in {East, North, South} + {West} by {
          match d
          case East =>
          case North =>
          case South =>
          case West =>
        }
      }
    }
  }

  /** One of the four seeds: relaxes from the end tile facing d at cost 0. The
      table stays bounded, closed and witnessed, and on an open end tile the
      facings already at 0 stay there and d joins them. */
  method SeedEnd(maze: Maze, table: array3<int>, d: Direction, ghost zeros: set<Direction>)
    requires maze.Valid() && WallBordered(maze.tiles)
    requires Fits(table, maze.tiles) && Bounded(table) && WallsUnreachable(table, maze.tiles)
    requires Closed(table, maze.tiles) && Witnessed(table, maze.tiles, maze.endX, maze.endY, 0)
    requires maze.tiles[maze.endX][maze.endY] != Wall ==> forall e :: e in zeros ==> At(table, maze.tiles, maze.endX, maze.endY, e) == 0
    modifies table
    ensures Bounded(table) && WallsUnreachable(table, maze.tiles)
    ensures Closed(table, maze.tiles) && Witnessed(table, maze.tiles, maze.endX, maze.endY, 0)
    ensures maze.tiles[maze.endX][maze.endY] != Wall ==> forall e :: e in zeros + {d} ==> At(table, maze.tiles, maze.endX, maze.endY, e) == 0
  {
    UpdateDistances(maze, table, maze.endX, maze.endY, d, 0);
  }
}
