/** The maze object: its tiles, its dimensions and the positions of the start and
    the end, and the dead-end pruning that rewrites the tiles in place. */
module Mazes {
  import opened Grid

  class Maze {
    var tiles: Tiles
    var width: int
    var height: int
    var startX: int
    var startY: int
    var endX: int
    var endY: int

    ghost predicate Valid()
      reads this
    {
      && IsGrid(tiles)
      && width == Width(tiles) && height == Height(tiles)
      && InGrid(tiles, startX, startY) && InGrid(tiles, endX, endY)
    }

    /** Takes the tiles and scans them row by row for 'S' and 'E'. The last
        occurrence of each wins; a symbol that does not occur leaves (0, 0). */
    constructor (t: Tiles)
      requires IsGrid(t)
      ensures Valid() && tiles == t
      ensures Occurs(t, Start) ==> IsLastOccurrence(t, Start, startX, startY)
      ensures !Occurs(t, Start) ==> startX == 0 && startY == 0
      ensures Occurs(t, End) ==> IsLastOccurrence(t, End, endX, endY)
      ensures !Occurs(t, End) ==> endX == 0 && endY == 0
    {
      var sx, sy, ex, ey := ScanForStartAndEnd(t);
      ScanDone(t, Start, sx, sy);
      ScanDone(t, End, ex, ey);
      tiles := t;
      width := Width(t);
      height := Height(t);
      startX, startY := sx, sy;
      endX, endY := ex, ey;
    }

    /** Turns every dead end into a wall, cascading from each one it finds, so that
        afterwards no dead end is left; on a maze without dead ends it changes nothing. */
    method RemoveDeadEnds()
      requires Valid() && WallBordered(tiles)
      modifies this`tiles
      ensures Valid() && WallBordered(tiles)
      ensures Pruned(old(tiles), tiles) && OnlyForcedWalls(old(tiles), tiles)
      ensures NoDeadEnds(tiles)
      ensures NoDeadEnds(old(tiles)) ==> tiles == old(tiles)
    {
      for y := 0 to height
        invariant Valid() && WallBordered(tiles) && Pruned(old(tiles), tiles)
        invariant OnlyForcedWalls(old(tiles), tiles)
        invariant SettledBefore(tiles, 0, y)
        invariant NoDeadEnds(old(tiles)) ==> tiles == old(tiles)
      {
        for x := 0 to width
          invariant Valid() && WallBordered(tiles) && Pruned(old(tiles), tiles)
          invariant OnlyForcedWalls(old(tiles), tiles)
          invariant SettledBefore(tiles, x, y)
          invariant NoDeadEnds(old(tiles)) ==> tiles == old(tiles)
        {
          ghost var before := tiles;
          PruneIfDeadEnd(x, y);
          PrunedIsTransitive(old(tiles), before, tiles);
          ForcedIsTransitive(old(tiles), before, tiles);
          SettledBeforeGrows(before, tiles, x, y);
        }
        SettledBeforeNextRow(tiles, y);
      }
      SettledBeforeEnd(tiles);
    }

    /** The test-then-remove step the pruning repeats for the scanned tile and for
        each neighbour of a removed one: afterwards (x, y) is not a dead end, and no
        tile that was not a dead end has become one. */
    method PruneIfDeadEnd(x: int, y: int)
      requires Valid() && WallBordered(tiles) && InGrid(tiles, x, y)
      modifies this`tiles
      ensures Valid() && WallBordered(tiles) && Pruned(old(tiles), tiles)
      ensures OnlyForcedWalls(old(tiles), tiles)
      ensures !IsDeadEnd(tiles, x, y)
      ensures KeepsSettled(old(tiles), tiles)
      ensures !IsDeadEnd(old(tiles), x, y) ==> tiles == old(tiles)
      ensures OpenCount(tiles) <= OpenCount(old(tiles))
      decreases OpenCount(tiles), 1
    {
      if IsDeadEnd(tiles, x, y) {
        RemoveDeadEnd(x, y);
        PrunedShrinksOpenCells(old(tiles), tiles);
      }
    }

    /** Walls in the dead end (x, y), then re-examines its right, upper, lower and
        left neighbours, each of which may have become a dead end. */
    method RemoveDeadEnd(x: int, y: int)
      requires Valid() && WallBordered(tiles) && InGrid(tiles, x, y) && IsDeadEnd(tiles, x, y)
      modifies this`tiles
      ensures Valid() && WallBordered(tiles) && Pruned(old(tiles), tiles)
      ensures OnlyForcedWalls(old(tiles), tiles)
      ensures tiles[x][y] == Wall
      ensures KeepsSettled(old(tiles), tiles)
      decreases OpenCount(tiles), 0
    {
      ghost var g0 := tiles;
      WallingInRemovesOneOpenCell(tiles, x, y);
      CascadeStarts(tiles, x, y);
      tiles := SetTile(tiles, x, y, Wall);
      PruneNeighbour(g0, x, y, 0);
      PruneNeighbour(g0, x, y, 1);
      PruneNeighbour(g0, x, y, 2);
      PruneNeighbour(g0, x, y, 3);
    }

    /** The k-th re-examination RemoveDeadEnd makes after walling in (x, y) of
        g0: the right, upper, lower or left neighbour is pruned if it has become
        a dead end, and the cascade moves on to the next neighbour. */
    method PruneNeighbour(ghost g0: Tiles, x: int, y: int, k: int)
      requires Valid() && WallBordered(tiles) && WallBordered(g0) && 0 <= k < 4
      requires InGrid(g0, x, y) && g0[x][y] != Wall && Cascading(g0, x, y, tiles, k)
      modifies this`tiles
      ensures Valid() && WallBordered(tiles) && Cascading(g0, x, y, tiles, k + 1)
      ensures OpenCount(tiles) <= OpenCount(old(tiles))
      ensures k == 3 ==> KeepsSettled(g0, tiles)
      decreases OpenCount(tiles), 2
    {
      ghost var g := tiles;
      OpenTileIsInterior(g0, x, y);
      var (nx, ny) := Neighbour(x, y, k);
      PruneIfDeadEnd(nx, ny);
      CascadeStep(g0, x, y, g, tiles, k);
    }
  }

  /** No tile the scan has visited before (x, y) is a dead end. */
  ghost predicate SettledBefore(g: Tiles, x: int, y: int)
    requires WallBordered(g)
  {
    forall i, j {:trigger IsDeadEnd(g, i, j)} :: InGrid(g, i, j) && Precedes(i, j, x, y) ==> !IsDeadEnd(g, i, j)
  }

  /** Settling (x, y) without unsettling anything extends the settled prefix by one. */
  lemma SettledBeforeGrows(a: Tiles, b: Tiles, x: int, y: int)
    requires WallBordered(a) && WallBordered(b) && |a| == |b| && InGrid(b, x, y)
    requires (forall i :: 0 <= i < |a| ==> |a[i]| == |b[i]|)
    requires SettledBefore(a, x, y) && KeepsSettled(a, b) && !IsDeadEnd(b, x, y)
    ensures SettledBefore(b, x + 1, y)
  {
  }

  /** Past the end of a row is the start of the next. */
  lemma SettledBeforeNextRow(g: Tiles, y: int)
    requires WallBordered(g) && SettledBefore(g, |g|, y)
    ensures SettledBefore(g, 0, y + 1)
  {
  }

  /** Past the last row, every tile is settled. */
  lemma SettledBeforeEnd(g: Tiles)
    requires WallBordered(g) && SettledBefore(g, 0, |g[0]|)
    ensures NoDeadEnds(g)
  {
  }

  /** Every tile of b that was not a dead end in a is not one in b either. */
  ghost predicate KeepsSettled(a: Tiles, b: Tiles)
    requires WallBordered(a) && WallBordered(b) && |a| == |b|
  {
    forall i, j {:trigger IsDeadEnd(b, i, j)} :: InGrid(b, i, j) && InGrid(a, i, j) && !IsDeadEnd(a, i, j) ==> !IsDeadEnd(b, i, j)
  }

  /** (i, j) is one of the neighbours of (x, y) from the k-th on. */
  predicate Pending(x: int, y: int, k: int, i: int, j: int)
  {
    exists m {:trigger Neighbour(x, y, m)} :: k <= m < 4 && Neighbour(x, y, m) == (i, j)
  }

  /** Part way through the cascade that walled in (x, y) of g0, having
      re-examined the first k neighbours: g is g0 pruned, walling in only forced
      tiles, (x, y) is a wall, and every tile that was not a dead end in g0 is
      not one in g, except perhaps the neighbours still to be re-examined. */
  ghost predicate Cascading(g0: Tiles, x: int, y: int, g: Tiles, k: int)
    requires WallBordered(g0) && WallBordered(g)
  {
    && Pruned(g0, g) && OnlyForcedWalls(g0, g) && InGrid(g0, x, y) && g[x][y] == Wall
    && forall i, j {:trigger IsDeadEnd(g, i, j)} ::
         InGrid(g0, i, j) && !IsDeadEnd(g0, i, j) && !Pending(x, y, k, i, j) ==> !IsDeadEnd(g, i, j)
  }

  /** Walling in the dead end (x, y) is forced, and can only turn its four
      neighbours into dead ends. */
  lemma CascadeStarts(g0: Tiles, x: int, y: int)
    requires WallBordered(g0) && InGrid(g0, x, y) && IsDeadEnd(g0, x, y)
    ensures WallBordered(SetTile(g0, x, y, Wall)) && Cascading(g0, x, y, SetTile(g0, x, y, Wall), 0)
  {
    var g := SetTile(g0, x, y, Wall);
    assert Pruned(g0, g);
    PrunedKeepsBorder(g0, g);
    DeadEndIsForced(g0, x, y);
    forall i, j | InGrid(g0, i, j) && !IsDeadEnd(g0, i, j) && !Pending(x, y, 0, i, j)
      ensures !IsDeadEnd(g, i, j)
    {
      if !(i == x && j == y) {
        assert Neighbour(x, y, 0) == (x + 1, y) && Neighbour(x, y, 1) == (x, y - 1);
        assert Neighbour(x, y, 2) == (x, y + 1) && Neighbour(x, y, 3) == (x - 1, y);
        DeadEndIsLocal(g0, x, y, i, j);
      }
    }
  }

  /** Re-examining the k-th neighbour, which leaves it settled, keeps every
      settled tile settled and walls in only forced tiles, moves the cascade on
      to the next neighbour. */
  lemma CascadeStep(g0: Tiles, x: int, y: int, g: Tiles, h: Tiles, k: int)
    requires WallBordered(g0) && WallBordered(g) && WallBordered(h) && 0 <= k < 4
    requires Cascading(g0, x, y, g, k) && Pruned(g, h) && OnlyForcedWalls(g, h) && KeepsSettled(g, h)
    requires InGrid(h, Neighbour(x, y, k).0, Neighbour(x, y, k).1) && !IsDeadEnd(h, Neighbour(x, y, k).0, Neighbour(x, y, k).1)
    ensures Cascading(g0, x, y, h, k + 1)
    ensures k == 3 ==> KeepsSettled(g0, h)
  {
    PrunedIsTransitive(g0, g, h);
    ForcedIsTransitive(g0, g, h);
    forall i, j | InGrid(g0, i, j) && !IsDeadEnd(g0, i, j) && !Pending(x, y, k + 1, i, j)
      ensures !IsDeadEnd(h, i, j)
    {
      if (i, j) != Neighbour(x, y, k) {
        forall m | k <= m < 4
          ensures Neighbour(x, y, m) != (i, j)
        {
          if m > k {
            assert !(k + 1 <= m < 4 && Neighbour(x, y, m) == (i, j));
          }
        }
      }
    }
    if k == 3 {
      forall i, j | InGrid(g0, i, j) ensures !Pending(x, y, 4, i, j) { }
    }
  }

  /** The constructor's scan: visits the tiles row by row, and within a row
      column by column, remembering the last 'S' and the last 'E' seen. */
  method ScanForStartAndEnd(t: Tiles) returns (sx: int, sy: int, ex: int, ey: int)
    requires IsGrid(t)
    ensures ScanResult(t, Start, 0, Height(t), sx, sy)
    ensures ScanResult(t, End, 0, Height(t), ex, ey)
  {
    sx, sy, ex, ey := 0, 0, 0, 0;
    for y := 0 to Height(t)
      invariant ScanResult(t, Start, 0, y, sx, sy)
      invariant ScanResult(t, End, 0, y, ex, ey)
    {
      for x := 0 to Width(t)
        invariant ScanResult(t, Start, x, y, sx, sy)
        invariant ScanResult(t, End, x, y, ex, ey)
      {
        ScanStep(t, Start, x, y, sx, sy);
        ScanStep(t, End, x, y, ex, ey);
        if t[x][y] == Start {
          sx, sy := x, y;
        } else if t[x][y] == End {
          ex, ey := x, y;
        }
      }
      ScanRowDone(t, Start, y, sx, sy);
      ScanRowDone(t, End, y, ex, ey);
    }
  }

  /** Result of the scan for c after visiting every tile before (x, y): the last
      occurrence found so far, or (0, 0) when there was none. */
  ghost predicate ScanResult(g: Tiles, c: char, x: int, y: int, fx: int, fy: int)
  {
    if exists i, j {:trigger g[i][j]} :: InGrid(g, i, j) && Precedes(i, j, x, y) && g[i][j] == c then
      && InGrid(g, fx, fy) && Precedes(fx, fy, x, y) && g[fx][fy] == c
      && forall i, j {:trigger g[i][j]} :: InGrid(g, i, j) && Precedes(i, j, x, y) && g[i][j] == c
                        ==> (i == fx && j == fy) || Precedes(i, j, fx, fy)
    else
      fx == 0 && fy == 0
  }

  /** Visiting (x, y): the result moves to (x, y) exactly when it holds c. */
  lemma ScanStep(g: Tiles, c: char, x: int, y: int, fx: int, fy: int)
    requires IsGrid(g) && InGrid(g, x, y) && ScanResult(g, c, x, y, fx, fy)
    ensures g[x][y] == c ==> ScanResult(g, c, x + 1, y, x, y)
    ensures g[x][y] != c ==> ScanResult(g, c, x + 1, y, fx, fy)
  {
    forall i, j | InGrid(g, i, j)
      ensures Precedes(i, j, x + 1, y) <==> Precedes(i, j, x, y) || (i == x && j == y)
    {
    }
  }

  /** Finishing a row: "before (Width, y)" and "before (0, y + 1)" are the same tiles. */
  lemma ScanRowDone(g: Tiles, c: char, y: int, fx: int, fy: int)
    requires IsGrid(g) && ScanResult(g, c, Width(g), y, fx, fy)
    ensures ScanResult(g, c, 0, y + 1, fx, fy)
  {
    forall i, j | InGrid(g, i, j)
      ensures Precedes(i, j, Width(g), y) <==> Precedes(i, j, 0, y + 1)
    {
    }
  }

  /** After the last row the scan result is the last occurrence in the whole grid. */
  lemma ScanDone(g: Tiles, c: char, fx: int, fy: int)
    requires IsGrid(g) && ScanResult(g, c, 0, Height(g), fx, fy)
    ensures Occurs(g, c) ==> IsLastOccurrence(g, c, fx, fy)
    ensures !Occurs(g, c) ==> fx == 0 && fy == 0
  {
    forall i, j | InGrid(g, i, j)
      ensures Precedes(i, j, 0, Height(g))
    {
    }
  }
}
