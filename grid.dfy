/** The maze as a grid of tile symbols, stored column-major: g[x][y] is the tile
    in column x of row y. Symbols: '#' wall, '.' floor, 'S' start, 'E' end,
    'O' a bench (a tile on some best path). */
module Grid {
  import opened Directions

  type Tiles = seq<seq<char>>

  const Wall: char := '#'
  const Start: char := 'S'
  const End: char := 'E'
  const Bench: char := 'O'

  /** A non-empty rectangle of columns, all of the same non-zero length. */
  predicate IsGrid(g: Tiles)
  {
    |g| > 0 && |g[0]| > 0 && forall x :: 0 <= x < |g| ==> |g[x]| == |g[0]|
  }

  /** Number of columns: the range of x. */
  function Width(g: Tiles): (w: int)
    requires IsGrid(g)
    ensures w > 0
  {
    |g|
  }

  /** Number of rows: the range of y. */
  function Height(g: Tiles): (h: int)
    requires IsGrid(g)
    ensures h > 0
  {
    |g[0]|
  }

  predicate InGrid(g: Tiles, x: int, y: int)
  {
    0 <= x < |g| && 0 <= y < |g[x]|
  }

  /** Every tile of the outermost ring is a wall. */
  ghost predicate WallBordered(g: Tiles)
  {
    && IsGrid(g)
    && forall x, y {:trigger g[x][y]} :: InGrid(g, x, y) && (x == 0 || x == |g| - 1 || y == 0 || y == |g[0]| - 1)
                      ==> g[x][y] == Wall
  }

  /** On a wall-bordered grid an open tile has all four neighbours inside the grid. */
  lemma OpenTileIsInterior(g: Tiles, x: int, y: int)
    requires WallBordered(g) && InGrid(g, x, y) && g[x][y] != Wall
    ensures 0 < x < |g| - 1 && 0 < y < |g[0]| - 1
    ensures Surrounded(g, x, y)
  {
  }

  /** The grids a and b have the same columns of the same lengths. */
  predicate SameShape(a: Tiles, b: Tiles)
  {
    |a| == |b| && forall x :: 0 <= x < |a| ==> |a[x]| == |b[x]|
  }

  /** The grid with the single tile at (x, y) replaced by c. */
  function SetTile(g: Tiles, x: int, y: int, c: char): (r: Tiles)
    requires InGrid(g, x, y)
    ensures SameShape(g, r)
    ensures r[x][y] == c
    ensures forall i, j :: InGrid(g, i, j) && (i != x || j != y) ==> r[i][j] == g[i][j]
  {
    g[x := g[x][y := c]]
  }

  // ---------------------------------------------------------------------------
  // Reading the maze: the input lines are rows, the tiles are columns.

  /** Builds tiles[x][y] from lines[y][x], one column per character of the first
      line and one row per line; a longer line is cut to the first line's length. */
  method Transpose(lines: seq<string>) returns (tiles: Tiles)
    requires |lines| > 0
    requires forall y :: 0 <= y < |lines| ==> |lines[0]| <= |lines[y]|
    ensures |tiles| == |lines[0]|
    ensures forall x :: 0 <= x < |tiles| ==> |tiles[x]| == |lines|
    ensures forall x, y :: 0 <= x < |tiles| && 0 <= y < |lines| ==> tiles[x][y] == lines[y][x]
  {
    var width := |lines[0]|;
    var height := |lines|;
    tiles := [];
    for x := 0 to width
      invariant |tiles| == x
      invariant forall i :: 0 <= i < x ==> |tiles[i]| == height
      invariant forall i, j :: 0 <= i < x && 0 <= j < height ==> tiles[i][j] == lines[j][i]
    {
      var column := [];
      for y := 0 to height
        invariant |column| == y
        invariant forall j :: 0 <= j < y ==> column[j] == lines[j][x]
      {
        column := column + [lines[y][x]];
      }
      tiles := tiles + [column];
    }
  }

  // ---------------------------------------------------------------------------
  // The scan range of the maze. The source takes the width from the length of a
  // column and the height from the number of columns; these two functions keep
  // that as written, Width and Height above are the corrected pair.

  function SourceWidth(g: Tiles): (w: int)
    requires IsGrid(g)
    ensures w == Height(g)
  {
    |g[0]|
  }

  function SourceHeight(g: Tiles): (h: int)
    requires IsGrid(g)
    ensures h == Width(g)
  {
    |g|
  }

  /** As written, the scan "for y < height, for x < width: tiles[x][y]" reads
      outside the grid on every grid that is not square. */
  lemma SourceScanLeavesGrid(g: Tiles)
    requires IsGrid(g) && |g| != |g[0]|
    ensures exists x, y :: 0 <= x < SourceWidth(g) && 0 <= y < SourceHeight(g) && !InGrid(g, x, y)
  {
    if |g| < |g[0]| {
      assert 0 <= |g| < SourceWidth(g) && 0 < SourceHeight(g) && !InGrid(g, |g|, 0);
    } else {
      assert 0 < SourceWidth(g) && |g[0]| < SourceHeight(g) && !InGrid(g, 0, |g[0]|);
    }
  }

  /** A three-row, five-column maze: as written the scan asks for row 3 of column 0. */
  lemma SourceScanLeavesWideMaze()
    ensures var g := ["###", "#S#", "#.#", "#E#", "###"];
            IsGrid(g) && 3 < SourceHeight(g) && 0 < SourceWidth(g) && !InGrid(g, 0, 3)
  {
  }

  /** Corrected: the scan over Width and Height visits exactly the tiles of the grid,
      and on a square grid it coincides with the scan as written. */
  lemma ScanStaysInGrid(g: Tiles)
    requires IsGrid(g)
    ensures forall x, y :: 0 <= x < Width(g) && 0 <= y < Height(g) <==> InGrid(g, x, y)
    ensures |g| == |g[0]| ==> SourceWidth(g) == Width(g) && SourceHeight(g) == Height(g)
  {
  }

  // ---------------------------------------------------------------------------
  // Locating the start and the end: the scan runs row by row (y outer), and
  // left to right within a row (x inner); the last occurrence wins.

  /** (x1, y1) is visited strictly before (x2, y2) by the row-major scan. */
  predicate Precedes(x1: int, y1: int, x2: int, y2: int)
  {
    y1 < y2 || (y1 == y2 && x1 < x2)
  }

  ghost predicate Occurs(g: Tiles, c: char)
  {
    exists x, y {:trigger g[x][y]} :: InGrid(g, x, y) && g[x][y] == c
  }

  /** (x, y) holds c and no later tile of the scan does. */
  ghost predicate IsLastOccurrence(g: Tiles, c: char, x: int, y: int)
  {
    && InGrid(g, x, y) && g[x][y] == c
    && forall i, j {:trigger g[i][j]} :: InGrid(g, i, j) && g[i][j] == c ==> (i == x && j == y) || Precedes(i, j, x, y)
  }

  /** The last occurrence is unique, so the scan's result is well defined. */
  lemma LastOccurrenceIsUnique(g: Tiles, c: char, x1: int, y1: int, x2: int, y2: int)
    requires IsLastOccurrence(g, c, x1, y1) && IsLastOccurrence(g, c, x2, y2)
    ensures x1 == x2 && y1 == y2
  {
  }

  // ---------------------------------------------------------------------------
  // Dead ends

  /** Start, end and walls are never pruned. */
  predicate IsProtected(c: char)
  {
    c == Start || c == End || c == Wall
  }

  /** The k-th neighbour of (x, y) the dead-end test looks at and the removal
      re-examines: right, up, down, left, which is the order of the facings'
      slots, East, North, South, West. */
  function Neighbour(x: int, y: int, k: int): (r: (int, int))
    ensures 0 <= k < 4 ==> forall d: Direction {:trigger d.Index()} :: d.Index() == k ==> r == (x + d.OffsetX(), y + d.OffsetY())
  {
    if k == 0 then (x + 1, y) else if k == 1 then (x, y - 1) else if k == 2 then (x, y + 1) else (x - 1, y)
  }

  /** All four neighbours of (x, y) lie inside the grid. */
  predicate Surrounded(g: Tiles, x: int, y: int)
  {
    InGrid(g, x + 1, y) && InGrid(g, x - 1, y) && InGrid(g, x, y + 1) && InGrid(g, x, y - 1)
  }

  /** Number of the k-th to the fourth neighbour of (x, y) that are not walls. */
  function OpenNeighboursFrom(g: Tiles, x: int, y: int, k: nat): nat
    requires Surrounded(g, x, y) && k <= 4
    decreases 4 - k
  {
    if k == 4 then 0
    else
      var (i, j) := Neighbour(x, y, k);
      (if g[i][j] != Wall then 1 else 0) + OpenNeighboursFrom(g, x, y, k + 1)
  }

  /** Number of the four neighbours (right, up, down, left) that are not walls. */
  function OpenPaths(g: Tiles, x: int, y: int): (n: nat)
    requires Surrounded(g, x, y)
    ensures n <= 4 && n == OpenNeighboursFrom(g, x, y, 0)
  {
    (if g[x + 1][y] != Wall then 1 else 0)
    + (if g[x][y - 1] != Wall then 1 else 0)
    + (if g[x][y + 1] != Wall then 1 else 0)
    + (if g[x - 1][y] != Wall then 1 else 0)
  }

  /** An unprotected tile with at most one open neighbour. The protection test
      comes first, so walls on the border never look at their neighbours. */
  predicate IsDeadEnd(g: Tiles, x: int, y: int): (b: bool)
    requires WallBordered(g) && InGrid(g, x, y)
    ensures b ==> g[x][y] != Wall && g[x][y] != Start && g[x][y] != End
    ensures b ==> 0 < x < |g| - 1 && 0 < y < |g[0]| - 1 && OpenPaths(g, x, y) <= 1
  {
    if IsProtected(g[x][y]) then false
    else
      OpenTileIsInterior(g, x, y);
      OpenPaths(g, x, y) <= 1
  }

  ghost predicate NoDeadEnds(g: Tiles)
    requires WallBordered(g)
  {
    forall x, y {:trigger IsDeadEnd(g, x, y)} :: InGrid(g, x, y) ==> !IsDeadEnd(g, x, y)
  }

  /** b is a with some unprotected tiles turned into walls, and nothing else changed. */
  ghost predicate Pruned(a: Tiles, b: Tiles)
  {
    && SameShape(a, b)
    && forall x, y {:trigger b[x][y]} :: InGrid(a, x, y) ==> b[x][y] == a[x][y] || (b[x][y] == Wall && !IsProtected(a[x][y]))
  }

  /** Number of tiles of one column that are not walls. */
  function OpenInColumn(col: seq<char>): (n: nat)
    ensures n <= |col|
  {
    if |col| == 0 then 0 else (if col[0] != Wall then 1 else 0) + OpenInColumn(col[1..])
  }

  /** Number of tiles of the grid that are not walls: the measure that the
      cascading removal of dead ends decreases. */
  function OpenCount(g: Tiles): nat
  {
    if |g| == 0 then 0 else OpenInColumn(g[0]) + OpenCount(g[1..])
  }

  lemma {:induction false} WallingInColumn(col: seq<char>, y: int)
    requires 0 <= y < |col| && col[y] != Wall
    ensures OpenInColumn(col[y := Wall]) == OpenInColumn(col) - 1
    decreases y
  {
    if y > 0 {
      assert col[y := Wall][1..] == col[1..][y - 1 := Wall];
      WallingInColumn(col[1..], y - 1);
    } else {
      assert col[y := Wall][1..] == col[1..];
    }
  }

  lemma {:induction false} ColumnNeverOpens(a: seq<char>, b: seq<char>)
    requires |a| == |b| && forall y :: 0 <= y < |a| ==> b[y] == a[y] || b[y] == Wall
    ensures OpenInColumn(b) <= OpenInColumn(a)
    decreases |a|
  {
    if |a| > 0 {
      ColumnNeverOpens(a[1..], b[1..]);
    }
  }

  /** Walling in one open tile lowers the number of open tiles by exactly one. */
  lemma {:induction false} WallingInRemovesOneOpenCell(g: Tiles, x: int, y: int)
    requires InGrid(g, x, y) && g[x][y] != Wall
    ensures OpenCount(SetTile(g, x, y, Wall)) == OpenCount(g) - 1
    decreases x
  {
    var h := SetTile(g, x, y, Wall);
    if x > 0 {
      assert h[1..] == SetTile(g[1..], x - 1, y, Wall);
      WallingInRemovesOneOpenCell(g[1..], x - 1, y);
    } else {
      assert h[1..] == g[1..];
      WallingInColumn(g[0], y);
    }
  }

  /** Pruning never opens a tile, so it never raises the number of open tiles. */
  lemma {:induction false} PrunedShrinksOpenCells(a: Tiles, b: Tiles)
    requires Pruned(a, b)
    ensures OpenCount(b) <= OpenCount(a)
    decreases |a|
  {
    if |a| > 0 {
      assert forall y :: 0 <= y < |a[0]| ==> b[0][y] == a[0][y] || b[0][y] == Wall by {
        forall y | 0 <= y < |a[0]| ensures b[0][y] == a[0][y] || b[0][y] == Wall {
          assert InGrid(a, 0, y);
        }
      }
      ColumnNeverOpens(a[0], b[0]);
      forall x, y | InGrid(a[1..], x, y)
        ensures b[1..][x][y] == a[1..][x][y] || (b[1..][x][y] == Wall && !IsProtected(a[1..][x][y]))
      {
        assert InGrid(a, x + 1, y);
      }
      PrunedShrinksOpenCells(a[1..], b[1..]);
    }
  }

  lemma PrunedIsTransitive(a: Tiles, b: Tiles, c: Tiles)
    requires Pruned(a, b) && Pruned(b, c)
    ensures Pruned(a, c)
  {
    forall x, y | InGrid(a, x, y)
      ensures c[x][y] == a[x][y] || (c[x][y] == Wall && !IsProtected(a[x][y]))
    {
      assert InGrid(b, x, y);
    }
  }

  lemma PrunedKeepsBorder(a: Tiles, b: Tiles)
    requires WallBordered(a) && Pruned(a, b)
    ensures WallBordered(b)
  {
    assert |b[0]| == |a[0]|;
    forall x, y | InGrid(b, x, y) && (x == 0 || x == |b| - 1 || y == 0 || y == |b[0]| - 1)
      ensures b[x][y] == Wall
    {
      assert InGrid(a, x, y);
    }
  }

  /** Whether a tile is a dead end depends only on the tile and its four neighbours:
      walling in (x, y) cannot change the status of any other tile that is not
      one of its neighbours, and it leaves (x, y) itself settled. */
  lemma DeadEndIsLocal(g: Tiles, x: int, y: int, i: int, j: int)
    requires WallBordered(g) && InGrid(g, x, y) && !IsProtected(g[x][y]) && InGrid(g, i, j)
    requires !((i == x + 1 || i == x - 1) && j == y) && !(i == x && (j == y + 1 || j == y - 1))
    ensures WallBordered(SetTile(g, x, y, Wall))
    ensures IsDeadEnd(SetTile(g, x, y, Wall), i, j) == ((i != x || j != y) && IsDeadEnd(g, i, j))
  {
    var h := SetTile(g, x, y, Wall);
    PrunedKeepsBorder(g, h);
    if (i != x || j != y) && !IsProtected(g[i][j]) {
      OpenTileIsInterior(g, i, j);
    }
  }

  // ---------------------------------------------------------------------------
  // Which tiles pruning must wall in

  /** c is a possible end result of pruning g: g with some unprotected tiles
      walled in, still bordered by walls, and without a dead end. */
  ghost predicate DeadEndFreePruning(g: Tiles, c: Tiles)
  {
    Pruned(g, c) && WallBordered(c) && NoDeadEnds(c)
  }

  /** h walls in only tiles that every dead-end-free pruning of g walls in too:
      each such pruning is a pruning of h. */
  ghost predicate OnlyForcedWalls(g: Tiles, h: Tiles)
  {
    forall c {:trigger DeadEndFreePruning(g, c)} :: DeadEndFreePruning(g, c) ==> Pruned(h, c)
  }

  /** Walling in tiles never opens a neighbour of a tile. */
  lemma PrunedHasNoMoreOpenPaths(a: Tiles, b: Tiles, x: int, y: int)
    requires Pruned(a, b) && Surrounded(a, x, y)
    ensures Surrounded(b, x, y) && OpenPaths(b, x, y) <= OpenPaths(a, x, y)
  {
    assert InGrid(a, x + 1, y) && InGrid(a, x - 1, y) && InGrid(a, x, y + 1) && InGrid(a, x, y - 1);
    assert b[x + 1][y] == a[x + 1][y] || b[x + 1][y] == Wall;
    assert b[x - 1][y] == a[x - 1][y] || b[x - 1][y] == Wall;
    assert b[x][y + 1] == a[x][y + 1] || b[x][y + 1] == Wall;
    assert b[x][y - 1] == a[x][y - 1] || b[x][y - 1] == Wall;
  }

  /** A dead end of g is a wall in every dead-end-free pruning c of g: left open
      in c, it would have no more open neighbours there than in g and so still be
      a dead end. Walling it in is forced. */
  lemma DeadEndIsForced(g: Tiles, x: int, y: int)
    requires WallBordered(g) && InGrid(g, x, y) && IsDeadEnd(g, x, y)
    ensures OnlyForcedWalls(g, SetTile(g, x, y, Wall))
  {
    var h := SetTile(g, x, y, Wall);
    forall c | DeadEndFreePruning(g, c)
      ensures Pruned(h, c)
    {
      PrunedHasNoMoreOpenPaths(g, c, x, y);
      assert InGrid(c, x, y) && !IsDeadEnd(c, x, y);
      assert c[x][y] == Wall;
      forall i, j | InGrid(h, i, j)
        ensures c[i][j] == h[i][j] || (c[i][j] == Wall && !IsProtected(h[i][j]))
      {
        assert InGrid(g, i, j);
      }
    }
  }

  lemma ForcedIsTransitive(a: Tiles, b: Tiles, c: Tiles)
    requires OnlyForcedWalls(a, b) && OnlyForcedWalls(b, c)
    ensures OnlyForcedWalls(a, c)
  {
    forall d | DeadEndFreePruning(a, d)
      ensures Pruned(c, d)
    {
      assert DeadEndFreePruning(b, d);
    }
  }

  /** A dead-end-free pruning of g that walls in only forced tiles is the largest
      one, so there is only one: the result of pruning depends on g alone, not on
      the order in which the dead ends are found. */
  lemma ForcedPruningIsUnique(g: Tiles, a: Tiles, b: Tiles)
    requires DeadEndFreePruning(g, a) && OnlyForcedWalls(g, a)
    requires DeadEndFreePruning(g, b) && OnlyForcedWalls(g, b)
    ensures a == b
  {
    assert Pruned(a, b) && Pruned(b, a);
    forall x | 0 <= x < |a|
      ensures a[x] == b[x]
    {
      forall y | 0 <= y < |a[x]|
        ensures a[x][y] == b[x][y]
      {
        assert InGrid(a, x, y) && InGrid(b, x, y);
      }
    }
  }

  // ---------------------------------------------------------------------------
  // Benches

  /** The tiles marked as benches. */
  function Benches(g: Tiles): set<(int, int)>
  {
    set x, y | 0 <= x < |g| && 0 <= y < |g[x]| && g[x][y] == Bench :: (x, y)
  }

  /** Pruning only turns tiles into walls, so it puts no bench anywhere. */
  lemma PrunedAddsNoBenches(a: Tiles, b: Tiles)
    requires Pruned(a, b)
    ensures Benches(b) <= Benches(a)
  {
    forall p | p in Benches(b)
      ensures p in Benches(a)
    {
      assert b[p.0][p.1] == Bench;
    }
  }
}
