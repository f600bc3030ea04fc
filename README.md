# Reindeer maze: benches on the best paths

This project models `2024/day16/puzzle2.py`, a solver for a maze puzzle, and
proves properties of the model. A reindeer stands on the start tile `S`
facing east. Each move is either a step forward onto the next non-wall tile,
costing 1, or a quarter turn on the spot, costing 1000. The program puts a
bench `O` on every tile of every cheapest walk from `S` to the end tile `E`,
then counts the benches.

The program is one pipeline. The model follows its stages, one module per
concern:

- `Directions` (`directions.dfy`): the four facings. They have left and right
  turns and a step vector, and each owns a slot in the distance table.
- `Grid` (`grid.dfy`): the tiles as columns, `tiles[x][y]`, built by
  transposing the text lines. Also the pure facts about dead ends, open-tile
  counts and benches, and the width/height finding below.
- `Mazes` (`maze.dfy`): the `Maze` class. Its constructor scans for `S` and
  `E`. Dead-end pruning rewrites `tiles` in place with the source's eager
  recursive cascade.
- `Walks` (`walks.dfy`): the reindeer's states, moves, walks and walk costs.
  These are the reference the distance table is proved against.
- `Distances` (`distances.dfy`): the distance table, an `array3<int>` indexed
  `[x, y, facing]`, filled from the end tile by a first-in first-out worklist.
  The relaxation is proved to terminate without any unbounded loop. The
  finished table satisfies every triangle inequality. Every finite entry is
  the cost of a real walk to the end. Together these make each entry exactly
  the cheapest cost to the end.
- `BestPaths` (`benches.dfy`): the recursive marking walk, which follows every
  move whose entry is exactly the move's cost lower, and the bench count.
  `VisitsExactlyBestTiles` proves the walk visits exactly the tiles that lie
  on a cheapest walk to the end.
- `Puzzle` (`puzzle.dfy`): the pipeline of `main`, from the text lines to the
  number of benches.

## Model

| member | source | states |
|---|---|---|
| `Directions.Direction.OffsetX` | 2024/day16/puzzle2.py:26-35 | the horizontal step is -1, 0 or 1, and it is non-zero exactly for East and West |
| `Directions.Direction.OffsetY` | 2024/day16/puzzle2.py:37-46 | the vertical step is -1, 0 or 1, and it is non-zero exactly for North and South |
| `Directions.Direction.Left` | 2024/day16/puzzle2.py:15-24 | the left turn changes the facing and turns the step vector (dx, dy) into (dy, -dx), a counter-clockwise quarter turn on screen coordinates |
| `Directions.Direction.Right` | 2024/day16/puzzle2.py:48-57 | the right turn differs from the facing and from its left turn, turns (dx, dy) into (-dy, dx), and is undone by a left turn |
| `Directions.Direction.Index` | 2024/day16/puzzle2.py:189-193 | each facing owns one of the four slots of a table cell |
| `Directions.IndexIsInjective` | 2024/day16/puzzle2.py:189-193 | distinct facings own distinct slots |
| `Directions.TurnsAreInverse` | 2024/day16/puzzle2.py:15-57 | right(left(d)) == d and left(right(d)) == d for every facing |
| `Directions.OffsetIsUnitStep` | 2024/day16/puzzle2.py:26-46 | each step vector moves exactly one cell along one axis: abs(dx) + abs(dy) == 1 |
| `Directions.OneTurnIsNotReversal` | 2024/day16/puzzle2.py:15-57 | one turn never reverses the facing, and two left turns do |
| `Grid.Transpose` | 2024/day16/puzzle2.py:139-145 | the tiles have one column per character of the first line and one entry per line, and tiles[x][y] == lines[y][x] |
| `Grid.Width` | 2024/day16/puzzle2.py:74 | corrected: the x range is the number of columns, which is positive on a grid |
| `Grid.SourceWidth` | 2024/day16/puzzle2.py:74 | as written: the value taken as the width is the length of a column, i.e. the corrected height |
| `Grid.Height` | 2024/day16/puzzle2.py:75 | corrected: the y range is the length of a column, which is positive on a grid |
| `Grid.SourceHeight` | 2024/day16/puzzle2.py:75 | as written: the value taken as the height is the number of columns, i.e. the corrected width |
| `Grid.SourceScanLeavesGrid` | 2024/day16/puzzle2.py:74-78 | as written, on every grid that is not square the scan range holds a position outside the grid |
| `Grid.SourceScanLeavesWideMaze` | 2024/day16/puzzle2.py:74-78 | as written, on a 5-column, 3-row maze the scan asks for row 3 of column 0 |
| `Grid.ScanStaysInGrid` | 2024/day16/puzzle2.py:76-77 | the corrected scan range is exactly the grid, and on a square grid it coincides with the range as written |
| `Grid.OpenTileIsInterior` | 2024/day16/puzzle2.py:97-109 | on a wall-bordered grid every non-wall tile lies off the border, so the four neighbour reads of the dead-end test stay in range |
| `Grid.SetTile` | 2024/day16/puzzle2.py:112 | writing one tile changes that tile only and keeps the grid's shape |
| `Grid.Neighbour` | 2024/day16/puzzle2.py:100-108 | the k-th neighbour is one step along the facing with slot k: right, up, down, left is East, North, South, West |
| `Grid.OpenPaths` | 2024/day16/puzzle2.py:100-108 | the count equals the number of the four neighbours, taken in the order right, up, down, left, that are not walls, so it is at most 4 |
| `Grid.IsDeadEnd` | 2024/day16/puzzle2.py:97-109 | a dead end is a floor tile other than 'S' and 'E', off the border, with at most one open neighbour; the short-circuit of line 98 is `Grid.IsProtected`, tested first, so a wall, 'S' or 'E' is never a dead end |
| `Grid.LastOccurrenceIsUnique` | 2024/day16/puzzle2.py:76-83 | the last occurrence of a symbol in the row-major scan is unique |
| `Grid.WallingInRemovesOneOpenCell` | 2024/day16/puzzle2.py:111-112 | walling in one open tile lowers the number of non-wall tiles by exactly one |
| `Grid.PrunedShrinksOpenCells` | 2024/day16/puzzle2.py:111-120 | pruning never raises the number of non-wall tiles |
| `Grid.PrunedIsTransitive` | 2024/day16/puzzle2.py:91-120 | one pruning after another is again a pruning that only walls in unprotected tiles |
| `Grid.PrunedKeepsBorder` | 2024/day16/puzzle2.py:98-112 | pruning keeps the wall border |
| `Grid.DeadEndIsLocal` | 2024/day16/puzzle2.py:97-112 | walling in (x, y) changes whether a tile is a dead end only for (x, y) and its four neighbours |
| `Grid.PrunedHasNoMoreOpenPaths` | 2024/day16/puzzle2.py:100-112 | walling in tiles never gives a tile more open neighbours |
| `Grid.DeadEndIsForced` | 2024/day16/puzzle2.py:109-112 | a dead end is a wall in every dead-end-free pruning of the grid, so walling it in removes nothing a dead-end-free result could keep |
| `Grid.ForcedIsTransitive` | 2024/day16/puzzle2.py:111-120 | two steps that each wall in only forced tiles together wall in only forced tiles |
| `Grid.ForcedPruningIsUnique` | 2024/day16/puzzle2.py:91-120 | there is only one dead-end-free pruning that walls in only forced tiles, so the result of pruning does not depend on the order in which dead ends are found |
| `Grid.PrunedAddsNoBenches` | 2024/day16/puzzle2.py:91-120 | pruning puts no bench anywhere |
| `Mazes.Maze.constructor` | 2024/day16/puzzle2.py:72-83 | the maze keeps the tiles. If an 'S' ('E') occurs, the start (end) is its last occurrence in the scan, y outer and x inner; otherwise it stays (0, 0) |
| `Mazes.ScanForStartAndEnd` | 2024/day16/puzzle2.py:76-83 | after the nested loops each result is the last occurrence of its symbol, or (0, 0) when there is none |
| `Mazes.ScanStep` | 2024/day16/puzzle2.py:78-83 | visiting a tile moves the result there exactly when the tile holds the symbol |
| `Mazes.ScanRowDone` | 2024/day16/puzzle2.py:76-77 | the end of one row and the start of the next cover the same tiles |
| `Mazes.ScanDone` | 2024/day16/puzzle2.py:76-83 | after the last row the result is the last occurrence in the whole grid, or (0, 0) |
| `Mazes.Maze.RemoveDeadEnds` | 2024/day16/puzzle2.py:91-95 | afterwards no tile is a dead end and the border is intact. Only unprotected tiles became walls, and only those that every dead-end-free pruning walls in: the result is the largest dead-end-free pruning of the maze. On a maze without dead ends nothing changes, so a second run is a no-op |
| `Mazes.Maze.PruneIfDeadEnd` | 2024/day16/puzzle2.py:94-95 | afterwards the tile is not a dead end, and no other tile has become one. Only forced, unprotected tiles became walls and the open count did not rise. A tile that was not a dead end leaves the tiles unchanged |
| `Mazes.Maze.RemoveDeadEnd` | 2024/day16/puzzle2.py:111-120 | the tile becomes a wall, only forced tiles are walled in, the cascade leaves no settled tile unsettled, and the border is intact |
| `Mazes.Maze.PruneNeighbour` | 2024/day16/puzzle2.py:113-120 | re-examining the k-th neighbour settles it, walls in only forced tiles and moves the cascade on; after the fourth no settled tile is unsettled |
| `Mazes.CascadeStarts` | 2024/day16/puzzle2.py:112 | walling in a dead end is forced and can unsettle only its four neighbours |
| `Mazes.CascadeStep` | 2024/day16/puzzle2.py:113-120 | settling one neighbour with forced walls only, while keeping every settled tile settled, advances the cascade |
| `Walks.Forward` | 2024/day16/puzzle2.py:217 | a forward step keeps the facing and changes the state |
| `Walks.Prepend` | 2024/day16/puzzle2.py:169-178 | a move in front of a walk gives a walk to the same last state costing the move more |
| `Walks.TailIsWalk` | 2024/day16/puzzle2.py:169-178 | a walk without its first state is a walk to the same last state, cheaper by its first move |
| `Distances.Expansion` | 2024/day16/puzzle2.py:169-178 | exactly three updates, in order: the left turn and the right turn on the same tile at cost + 1000, then the tile behind the facing at cost + 1; `ExpansionIsPredecessors` and `ExpansionHasEveryPredecessor` state what these are |
| `Distances.ExpansionIsLighter` | 2024/day16/puzzle2.py:169-178 | the three updates a commit pushes weigh less than the committed one |
| `Distances.ExpansionIsPredecessors` | 2024/day16/puzzle2.py:169-178 | each of the three updates a commit pushes is a state from which one move reaches the committed state, at the committed cost plus that move's cost |
| `Distances.ExpansionHasEveryPredecessor` | 2024/day16/puzzle2.py:169-178 | every state from which one move reaches the committed state is among the three pushed updates |
| `Distances.CommitLowersPotential` | 2024/day16/puzzle2.py:165-180 | replacing the head of the worklist by its expansion makes the worklist strictly lighter, so the loop terminates |
| `Distances.Pow4IsMonotone` | 2024/day16/puzzle2.py:152 | the termination weights are monotone |
| `Distances.PotentialOfExpansion` | 2024/day16/puzzle2.py:169-178 | the weight of the three pushed updates is the sum of their weights |
| `Distances.PotentialOfAppend` | 2024/day16/puzzle2.py:169-178 | appending to the worklist adds the weights |
| `Distances.RelaxedWithMoreWork` | 2024/day16/puzzle2.py:152-180 | adding pending work keeps every relaxation accounted for |
| `Distances.DroppingKeepsRelaxed` | 2024/day16/puzzle2.py:155-163 | dropping a head update on a wall, or one worse than its entry, loses no relaxation |
| `Distances.DroppingKeepsPlaced` | 2024/day16/puzzle2.py:157-163 | the rest of the worklist stays inside the grid with non-negative costs |
| `Distances.DroppingKeepsWitnessed` | 2024/day16/puzzle2.py:157-163 | the rest of the worklist is still made of real walk costs |
| `Distances.CommittingKeepsBounds` | 2024/day16/puzzle2.py:166-178 | a commit lowers only its own entry, to its cost. Entries stay between 0 and Unreachable, walls stay Unreachable, and the pushed updates lie inside the grid |
| `Distances.CommittingKeepsRelaxed` | 2024/day16/puzzle2.py:166-178 | after a commit and its three pushes every triangle inequality holds or waits in the worklist |
| `Distances.ExpansionIsWitnessed` | 2024/day16/puzzle2.py:169-178 | each pushed update onto an open tile costs a real walk: the committed one with one more move in front |
| `Distances.CommittingKeepsPendingWitnessed` | 2024/day16/puzzle2.py:169-180 | after a commit every pending update on an open tile is still a real walk cost |
| `Distances.CommittingKeepsWitnessed` | 2024/day16/puzzle2.py:166 | committing a witnessed cost keeps every finite entry a real walk cost |
| `Distances.DroppingKeepsProgress` | 2024/day16/puzzle2.py:155-163 | the loop invariant survives a drop |
| `Distances.ProcessFirst` | 2024/day16/puzzle2.py:153-180 | one round keeps the loop invariant, raises no entry, and makes the worklist lighter |
| `Distances.UpdateDistances` | 2024/day16/puzzle2.py:149-180 | no entry rises, entries stay in 0..Unreachable, walls stay Unreachable, and an open seed ends at most its cost. A table that met every triangle inequality still does, and one whose finite entries were walk costs still is |
| `Distances.MoveRespectsClosed` | 2024/day16/puzzle2.py:169-178 | in a closed table an entry is at most a move's cost plus the entry the move reaches |
| `Distances.ClosedTableUnderestimates` | 2024/day16/puzzle2.py:161-178 | in a closed table an entry is at most any walk's cost plus the entry at the walk's end |
| `Distances.TableIsShortestDistance` | 2024/day16/puzzle2.py:183-202 | with the end at 0, every finite entry is the cost of a walk to the end and no walk costs less than the entry |
| `Distances.ReachableIsFinite` | 2024/day16/puzzle2.py:183-202 | on a closed table holding 0 on an open end tile, a state with a walk to the end cheaper than Unreachable has a finite entry; on a witnessed table the converse holds too |
| `Distances.InitialTableIsClosed` | 2024/day16/puzzle2.py:185-194 | the all-Unreachable table is bounded, closed, Unreachable on walls and witnessed |
| `Distances.NewTable` | 2024/day16/puzzle2.py:185-194 | a fresh width x height x 4 table holding Unreachable everywhere |
| `Distances.CreateDistanceMap` | 2024/day16/puzzle2.py:183-202 | the table fits the maze and is bounded, with walls at Unreachable. It satisfies every triangle inequality and each finite entry is a real walk cost. An open end tile holds 0 in all four facings |
| `Distances.SeedEnd` | 2024/day16/puzzle2.py:197-200 | one seed at the end tile keeps the table bounded, closed and witnessed; on an open end the facings already at 0 stay at 0 and the seeded facing joins them |
| `Distances.Update` | 2024/day16/puzzle2.py:123-133 | a pending relaxation: a tile, a facing and a candidate cost |
| `BestPaths.FiniteIsOpen` | 2024/day16/puzzle2.py:209-218 | a state with a finite entry is on an open tile, so the marking walk's reads in front of it stay in range |
| `BestPaths.Successor` | 2024/day16/puzzle2.py:209-218 | the three moves tried are the left turn, the right turn (each a turn costing 1000) and the step forward (not a turn, costing 1) |
| `BestPaths.Tight` | 2024/day16/puzzle2.py:209-217 | a move is followed exactly when its entry plus the move's cost equals the entry it starts from |
| `BestPaths.TightIsSteppable` | 2024/day16/puzzle2.py:209-218 | a followed move reaches an open state whose entry is at least 0 and strictly lower, so the recursion terminates |
| `BestPaths.AddBenches` | 2024/day16/puzzle2.py:205-218 | afterwards a tile holds a bench exactly when the marking walk from the state visits it; every other tile is as before and the table is not written |
| `BestPaths.FollowIfTight` | 2024/day16/puzzle2.py:208-218 | following or skipping the k-th move extends the marked tiles from those reached with the first k moves to the first k + 1 |
| `BestPaths.MarkingExtends` | 2024/day16/puzzle2.py:208-218 | the marks of the first k moves plus those of the k-th move's walk are the marks of the first k + 1 moves |
| `BestPaths.TightIsMove` | 2024/day16/puzzle2.py:209-218 | a followed move is a real move whose cost is exactly the drop in the entry |
| `BestPaths.PrependPassesThrough` | 2024/day16/puzzle2.py:208-218 | a move in front of a walk to the end through a tile is another such walk, costing the move more |
| `BestPaths.TightMoveExtendsWalk` | 2024/day16/puzzle2.py:208-218 | a followed move in front of a walk costing the next entry gives a walk costing this entry |
| `BestPaths.VisitedTileIsOnWalk` | 2024/day16/puzzle2.py:205-218 | every visited tile lies on a walk to the end costing exactly the starting entry |
| `BestPaths.TightWalkIsVisited` | 2024/day16/puzzle2.py:205-218 | every tile of a walk to the end costing exactly the starting entry is visited |
| `BestPaths.VisitsExactlyBestTiles` | 2024/day16/puzzle2.py:205-218 | on the finished table the marking walk visits a tile if and only if it lies on a cheapest walk to the end |
| `BestPaths.MarkedTilesAreBestTiles` | 2024/day16/puzzle2.py:205-218 | on a grid without benches the benches put down are exactly the tiles on the cheapest walks |
| `BestPaths.BenchesBeforeStep` | 2024/day16/puzzle2.py:225-226 | looking at one more tile adds it to the counted set exactly when it is a bench |
| `BestPaths.CountBenches` | 2024/day16/puzzle2.py:221-227 | the count is exactly the number of bench tiles, between 0 and width * height |
| `Puzzle.BuildMaze` | 2024/day16/puzzle2.py:139-146 | the tiles are the transposed text. Start and end are the last 'S' and 'E' or (0, 0). The pruned tiles keep the border, have no dead ends and are the largest dead-end-free pruning of the text: only tiles every dead-end-free pruning walls in are walls |
| `Puzzle.StartAndEndSurvive` | 2024/day16/puzzle2.py:98 | 'S' and 'E' survive pruning, and the start facing east can step without leaving the grid |
| `Puzzle.MarkAndCount` | 2024/day16/puzzle2.py:234-236 | benches go exactly on the tiles visited from the start facing east, and the count is their number |
| `Puzzle.MarkedAreBest` | 2024/day16/puzzle2.py:230-236 | with an 'E', no bench in the text and some walk from the start to the end costing less than Unreachable, the benches are exactly the tiles of the cheapest walks from the start |
| `Puzzle.Solve` | 2024/day16/puzzle2.py:230-236 | the whole pipeline: tiles from the text, the largest dead-end-free pruning of them, a closed and witnessed table that holds 0 on an open end tile ('E' survives pruning), benches on the visited tiles, and the count. The start entry is finite exactly when some walk from the start reaches the end for less than Unreachable. With an 'E', no bench in the text and such a walk, the count is the number of tiles on cheapest walks |

## Left out

- Reading the file `input` and splitting it into lines (`get_maze`, lines 136-138) is I/O. `Puzzle.Solve` takes the lines as its parameter.
- `Maze.print` and the printing in `main` (lines 85-89, 235-237) are console output and are not modelled.
- `sys.maxsize` is modelled as the constant 2^63 - 1, its value on 64-bit builds. The model does not vary it by platform.
- The class-attribute defaults of `Maze` and `UpdateInfo` (lines 61-70, 124-127) are a Python artefact. The model's constructor sets every field.
- `UpdateInfo` is a value datatype (`Distances.Update`). The worklist is a sequence processed front first. The linear cost of `list.remove` is not modelled. `remove(update)` removes the first element that compares equal to `update`; `UpdateInfo` compares by identity and `update` is the head, so it is modelled as dropping the head.
- Error cases: the program raises no errors of its own. A missing 'S' or 'E' leaves (0, 0), which the model follows.
- Texts the model does not take: `Puzzle.Solve` requires at least one line, a first line of at least 2 characters, no line shorter than the first, and a wall on every border tile. On an empty text, or a line shorter than the first, Python raises IndexError. With a first line of 1 character and no 'S', the step east from (0, 0) read at line 217 raises IndexError. On a text whose border has an opening, the neighbour reads at lines 100-108 and 217 wrap round to the opposite edge when an index is -1 (top and left edges) and raise IndexError when it is one past the end (right and bottom edges). Neither behaviour is modelled: the wall border is required instead.
- Non-square texts follow the corrected width and height given under Findings, not the IndexError the source raises on them.
- Python's default recursion limit of about 1000 frames is not modelled. The source never calls `sys.setrecursionlimit`, so a cascade of more than about 1000 nested `__remove_dead_end` calls, or a best path that makes `add_benches` recurse that deep, raises RecursionError in the source. The model's recursion is unbounded.
- `Puzzle.Solve`: the cheapest-walk statement is made on the pruned tiles, with the table they were relaxed on. That pruning dead ends keeps every cheapest walk of the original maze is not proved. It needs only an 'E', no 'O' in the text and a walk from the start to the end costing less than Unreachable; otherwise the statement is only that the benches are the visited tiles.
- `Distances.TableIsShortestDistance`: an entry equal to Unreachable says only that no walk costs less than Unreachable. Walks costing that much or more are not excluded.
- `Distances.CreateDistanceMap`: the end tile is shown to hold 0 only when it is not a wall, i.e. when the text has an 'E'. Without one, the end (0, 0) is a border wall and the source's seeds are all dropped.

## Findings

| source | as written | input that shows it | evidently intended | confidence | as-written member | corrected member |
|---|---|---|---|---|---|---|
| 2024/day16/puzzle2.py:74-75 | `width` is taken from `len(tiles[0])` and `height` from `len(tiles)`, but `tiles` is stored column by column, so these are the row count and the column count; the scan then reads `tiles[x][y]` with x below the row count and y below the column count | the text of 3 lines of 5 characters (`#####`, `#S.E#`, `#####`) gives 5 columns of 3 tiles; the scan reaches y = 3 with x = 0 and reads `tiles[0][3]`, past the end of column 0, which raises IndexError; every non-square maze is read out of range in this way | width is the number of columns `len(tiles)` and height the column length `len(tiles[0])`; on a square maze both readings agree | not executed | `Grid.SourceScanLeavesGrid`, `Grid.SourceScanLeavesWideMaze` | `Grid.Width`, `Grid.Height`, `Grid.ScanStaysInGrid` |
