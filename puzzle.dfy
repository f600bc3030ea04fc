/** The whole program: turn the maze text into tiles, prune the dead ends,
    compute every state's distance to the end, mark the best paths from the
    start facing east, and count the benches. */
module Puzzle {
  import opened Directions
  import opened Grid
  import opened Mazes
  import opened Walks
  import opened Distances
  import opened BestPaths

  /** The maze text: at least one line, no line shorter than the first, and a
      wall on every character of the border of the rectangle the first line
      spans. */
  ghost predicate WalledText(lines: seq<string>)
  {
    && |lines| > 0
    && (forall y :: 0 <= y < |lines| ==> |lines[0]| <= |lines[y]|)
    && forall y, x {:trigger lines[y][x]} ::
         0 <= y < |lines| && 0 <= x < |lines[0]| && (y == 0 || y == |lines| - 1 || x == 0 || x == |lines[0]| - 1)
         ==> lines[y][x] == Wall
  }

  /** Reading the maze: the text becomes tiles, the maze is built from them,
      and its dead ends are walled in. */
  method BuildMaze(lines: seq<string>) returns (maze: Maze, ghost input: Tiles)
    requires WalledText(lines) && |lines[0]| > 0
    ensures fresh(maze) && maze.Valid() && WallBordered(maze.tiles)
    ensures |input| == |lines[0]| && forall x :: 0 <= x < |input| ==> |input[x]| == |lines|
    ensures forall x, y :: InGrid(input, x, y) ==> input[x][y] == lines[y][x]
    ensures Occurs(input, Start) ==> IsLastOccurrence(input, Start, maze.startX, maze.startY)
    ensures !Occurs(input, Start) ==> maze.startX == 0 && maze.startY == 0
    ensures Occurs(input, End) ==> IsLastOccurrence(input, End, maze.endX, maze.endY)
    ensures !Occurs(input, End) ==> maze.endX == 0 && maze.endY == 0
    ensures Pruned(input, maze.tiles) && OnlyForcedWalls(input, maze.tiles) && NoDeadEnds(maze.tiles)
  {
    var tiles := Transpose(lines);
    input := tiles;
    assert WallBordered(input) by {
      forall x, y | InGrid(input, x, y) && (x == 0 || x == |input| - 1 || y == 0 || y == |input[0]| - 1)
        ensures input[x][y] == Wall
      {
        assert input[x][y] == lines[y][x];
      }
    }
    maze := new Maze(tiles);
    maze.RemoveDeadEnds();
  }

  /** On the pruned tiles the start, facing east, can take a step without
      leaving the grid: an 'S' is never pruned and lies inside the wall border,
      and without one the start is the corner (0, 0) of a grid at least two
      columns wide. An 'E' is never pruned either. */
  lemma StartAndEndSurvive(input: Tiles, pruned: Tiles, sx: int, sy: int, ex: int, ey: int)
    requires Pruned(input, pruned) && WallBordered(pruned) && |input| >= 2
    requires Occurs(input, Start) ==> IsLastOccurrence(input, Start, sx, sy)
    requires !Occurs(input, Start) ==> sx == 0 && sy == 0
    requires Occurs(input, End) ==> IsLastOccurrence(input, End, ex, ey)
    ensures Steppable(pruned, State(sx, sy, East))
    ensures Occurs(input, Start) ==> InGrid(pruned, sx, sy) && pruned[sx][sy] == Start
    ensures Occurs(input, End) ==> InGrid(pruned, ex, ey) && pruned[ex][ey] == End
  {
    if Occurs(input, Start) {
      assert pruned[sx][sy] == Start;
      OpenTileIsInterior(pruned, sx, sy);
    } else {
      assert InGrid(pruned, 1, 0);
    }
    if Occurs(input, End) {
      assert pruned[ex][ey] == End;
    }
  }

  /** The second half of the pipeline: marks the best paths from the start
      facing east and counts the benches. */
  method MarkAndCount(maze: Maze, table: array3<int>, ghost pruned: Tiles) returns (benches: int)
    requires maze.Valid() && maze.tiles == pruned && Markable(table, pruned)
    requires Steppable(pruned, State(maze.startX, maze.startY, East))
    modifies maze`tiles
    ensures maze.Valid() && SameShape(pruned, maze.tiles)
    ensures Marks(pruned, maze.tiles, table, pruned, State(maze.startX, maze.startY, East), 3)
    ensures benches == |Benches(maze.tiles)|
  {
    AddBenches(maze, table, pruned, maze.startX, maze.startY, East);
    benches := CountBenches(maze);
  }

  /** When the text has an end tile and no bench, and some walk from the start
      to the end costs less than Unreachable, the benches the marking walk puts down are exactly the tiles on a
      cheapest walk from the start to the end. */
  lemma MarkedAreBest(input: Tiles, pruned: Tiles, table: array3<int>, marked: Tiles, start: State, ex: int, ey: int)
    requires Pruned(input, pruned) && Markable(table, pruned) && Closed(table, pruned)
    requires InGrid(pruned, ex, ey) && Witnessed(table, pruned, ex, ey, 0)
    requires Occurs(input, End) ==> pruned[ex][ey] == End
    requires pruned[ex][ey] != Wall ==> EndIsZero(table, pruned, ex, ey)
    requires SameShape(pruned, marked) && Steppable(pruned, start) && Marks(pruned, marked, table, pruned, start, 3)
    ensures Occurs(input, End) && Benches(input) == {} && ReachesEnd(pruned, start, ex, ey)
            ==> Benches(marked) == BestTiles(pruned, start, ex, ey) && |Benches(marked)| == |BestTiles(pruned, start, ex, ey)|
  {
    if Occurs(input, End) && Benches(input) == {} && ReachesEnd(pruned, start, ex, ey) {
      ReachableIsFinite(table, pruned, ex, ey, start);
      PrunedAddsNoBenches(input, pruned);
      assert pruned[ex][ey] != Wall;
      MarkedTilesAreBestTiles(table, pruned, ex, ey, start, pruned, marked);
    }
  }

  /** Runs the pipeline on the lines of the maze text. `input` is the text as
      tiles and `pruned` the tiles once the dead ends are walled in; the table
      is computed on `pruned`. Benches end up exactly on the tiles the marking
      walk visits, and their number is returned. The start entry is finite
      exactly when some walk from the start reaches the end for less than
      Unreachable. When the text has an end tile and no bench, and such a walk
      exists, the benches are exactly the tiles on a cheapest walk. */
  method Solve(lines: seq<string>)
      returns (maze: Maze, table: array3<int>, benches: int, ghost input: Tiles, ghost pruned: Tiles)
    requires WalledText(lines) && |lines[0]| >= 2
    ensures fresh(maze) && fresh(table) && maze.Valid()
    ensures |input| == |lines[0]| && forall x :: 0 <= x < |input| ==> |input[x]| == |lines|
    ensures forall x, y :: InGrid(input, x, y) ==> input[x][y] == lines[y][x]
    ensures Occurs(input, Start) ==> IsLastOccurrence(input, Start, maze.startX, maze.startY)
    ensures Occurs(input, End) ==> IsLastOccurrence(input, End, maze.endX, maze.endY)
    ensures Pruned(input, pruned) && OnlyForcedWalls(input, pruned) && WallBordered(pruned) && NoDeadEnds(pruned)
    ensures SameShape(pruned, maze.tiles) && Steppable(pruned, State(maze.startX, maze.startY, East))
    ensures InGrid(pruned, maze.endX, maze.endY)
    ensures Occurs(input, End) ==> pruned[maze.endX][maze.endY] == End
    ensures Markable(table, pruned) && Closed(table, pruned) && Witnessed(table, pruned, maze.endX, maze.endY, 0)
    ensures pruned[maze.endX][maze.endY] != Wall ==> EndIsZero(table, pruned, maze.endX, maze.endY)
    ensures ReachesEnd(pruned, State(maze.startX, maze.startY, East), maze.endX, maze.endY)
            <==> AtState(table, pruned, State(maze.startX, maze.startY, East)) < Unreachable
    ensures Marks(pruned, maze.tiles, table, pruned, State(maze.startX, maze.startY, East), 3)
    ensures benches == |Benches(maze.tiles)|
    ensures Occurs(input, End) && Benches(input) == {}
            && ReachesEnd(pruned, State(maze.startX, maze.startY, East), maze.endX, maze.endY)
            ==> Benches(maze.tiles) == BestTiles(pruned, State(maze.startX, maze.startY, East), maze.endX, maze.endY)
                && benches == |BestTiles(pruned, State(maze.startX, maze.startY, East), maze.endX, maze.endY)|
  {
    maze, input := BuildMaze(lines);
    pruned := maze.tiles;
    StartAndEndSurvive(input, pruned, maze.startX, maze.startY, maze.endX, maze.endY);
    table := CreateDistanceMap(maze);
    ghost var start := State(maze.startX, maze.startY, East);
    ReachableIsFinite(table, pruned, maze.endX, maze.endY, start);
    benches := MarkAndCount(maze, table, pruned);
    MarkedAreBest(input, pruned, table, maze.tiles, start, maze.endX, maze.endY);
  }
}
