# Maze: generation, solving and drawing

This project models the `Maze` class of `src/Maze.java`. A `Maze`
carries out four jobs in turn:

- It builds a `width` x `height` grid graph. Cells are labelled in row-major order and each lists its west, east, north and south neighbours.
- It carves a perfect maze by a randomised depth-first search from the top-left cell. The entry (north wall of cell 0) and the exit (south wall of the last cell) are opened first.
- It solves the maze by a depth-first search that tries east, south, west and north in that order and backs up at dead ends. The cells on the final stack are marked with `'+'`.
- It draws the maze as text, with `'X'` for walls and corners.

The model is the class `Mazes.Maze` (`maze.dfy`). Its fields are:

- `maze`: the `myMaze` list, as a sequence of `Vertex` values indexed by label.
- `steps`: the `mySteps` list.
- The constants `width`, `height` and `debug`.

Three ghost fields record what the generation did:

- the order in which cells were entered;
- for each entered cell, the cell it was carved from;
- the cells behind each debugging snapshot.

The class invariant `Valid` is `Perfect` over these fields.

A neighbour list holds labels, not object references, so Java object identity becomes equality of labels.

How each operation is modelled:

- **`buildGraph`**: three loops over a two-dimensional array framed by visited sentinels.
- **`buildMazeHelper` (`CarveFrom`)**: keeps its recursion. While the current cell has an unvisited neighbour, the loop hands each round to `CarveToward`, which carves towards one neighbour and recurses.
  - The random rejection-sampling loop becomes a choice of any index whose neighbour is unvisited.
- **`solveMaze`**: a loop over an explicit stack.
- **`toString`**: nested loops that append two-character pieces.

The supporting modules hold the specification functions and what is proved about them:

- `Grid` (`grid.dfy`): labels, rows and columns, neighbour lists, grid adjacency and the direction inferred from a label difference.
- `Walls` (`walls.dfy`): wall flags, what a carve step does to them, the count of cleared flags, and wall symmetry.
- `Spanning` (`spanning.dfy`): the generation order as a tree linked by open passages, and reachability.
- `Cells` (`cells.dfy`): the `Vertex` record, with the state the `Vertex` constructor gives it, and the layout `buildGraph` produces.
- `Layout` (`layout.dfy`): `buildGraph`'s framed grid.
- `Generation` (`generate.dfy`): the invariant the carve keeps, and what holds once it is done.
- `Search` (`search.dfy`): the invariant of the solver's loop.
- `Drawing` (`render.dfy`): the text `toString` produces.

Main results:

- **After construction**, the maze is perfect:
  - Every cell lies on one tree of open passages rooted at the entry.
  - Exactly `w*h - 1` passages were carved, plus the entry and the exit.
  - For width 2 and more, every wall is symmetric between neighbours and closed on the outer boundary.
  - No cleared wall leads outside the grid, except the entry and the exit.
  - In debugging mode there is one snapshot per cell, drawn just after that cell was entered. Each snapshot shows the maze in the generation state of that moment: the cells entered so far are linked by open passages, and exactly the entry, the exit and the carve steps made so far are open. A wall open in one snapshot stays open in every later one and in the finished maze.
- **`SolveMaze`** always reaches the exit. It leaves the walls as they were, and `'+'` marks exactly a route of open passages from the entry to the exit. The solver's north probe never reads outside the maze, because the probe order and the entry's position rule that case out.
- **`toString`** yields `2h + 1` lines. Each line is `4w + 1` characters ending in `'X'`, followed by a newline. The text shows:
  - gaps at cleared walls;
  - a cell's content only when the cell is visited;
  - no character outside `X`, space, `V`, `+` and newline.

The model follows the code in these details, each of which is easy to get wrong when reading the program loosely:

- A line of the drawing has two characters per column, so a line is `4w + 2` characters long with its newline.
- The right-hand border is always `'X'`, even at the exit.
- A one-cell maze draws as `"X   X\nX + X\nX   X\n"` once solved.
- The class does not check its dimensions.
- Direction inference tests a difference of 1 for "west" before it tests `width`.

## Model

| member | source | states |
|---|---|---|
| Mazes.Maze.constructor | src/Maze.java:51-59 | the new maze has the given dimensions and flag, is perfect (`Valid`), has every cell visited and showing 'V', and holds one snapshot per cell in debugging mode and none otherwise; snapshot `k` draws the maze in the generation state just after the `k+1`-th cell was entered, with `k` carve steps made, and its open walls stay open in later snapshots and in the finished maze |
| Mazes.Maze.BuildGraph | src/Maze.java:64-113 | the cells are exactly `Graph(w, h)`: `w*h` fresh vertices labelled in row-major order, each with its grid neighbour list |
| Mazes.Maze.FrameBorder | src/Maze.java:72-77 | every entry of the top and bottom rows of the framed grid is a visited sentinel |
| Mazes.Maze.LabelInterior | src/Maze.java:79-92 | every entry of the framed grid is a sentinel on the border and otherwise a fresh vertex whose label counts the interior entries before it in row-major order |
| Mazes.Maze.CollectCells | src/Maze.java:94-112 | collecting the interior entries row by row yields exactly the list of cells `Graph(w, h)` |
| Mazes.Maze.CollectCell | src/Maze.java:96-107 | an interior entry keeps the labels of its unvisited west, east, north and south entries, in that order |
| Layout.FramedNeighbors | src/Maze.java:96-107 | the kept labels of an interior entry's four grid entries are exactly the neighbour list of its label |
| Layout.CellCollected | src/Maze.java:100-109 | the vertex collected for entry `(row, col)` is cell `(row-1)*w + col-1` of the fresh graph, so appending it extends the list by one cell |
| Generation.GraphShaped | src/Maze.java:364-373 | every fresh cell has all four walls, is unvisited, shows ' ', and the graph has the buildGraph layout |
| Grid.NeighborsAreAdjacent | src/Maze.java:94-111 | a label is in a cell's neighbour list if and only if the two cells are one step apart along a row or a column |
| Grid.NeighborsSymmetric | src/Maze.java:94-111 | if `j` is a neighbour of `i` then `i` is a neighbour of `j` |
| Grid.NeighborsBounded | src/Maze.java:94-111 | a neighbour list has at most four distinct labels, all inside the grid, and never the cell itself |
| Generation.OpenedTotal | src/Maze.java:120-121 | opening the entry and the exit of a fully walled grid clears exactly two wall flags |
| Generation.OpenedLayout | src/Maze.java:120-121 | after the entry and exit are opened the layout is unchanged, nothing is visited, and the only cleared walls are the gates |
| Generation.OpenedConsistent | src/Maze.java:120-121 | after the entry and exit are opened, the walls are symmetric between neighbours and closed on the boundary except at the gates |
| Generation.InitialBuilding | src/Maze.java:118-121 | the opened fresh graph satisfies the generation invariant with nothing entered and nothing carved |
| Mazes.Maze.BuildMaze | src/Maze.java:118-123 | after carving from cell 0 the maze is perfect, every cell is visited and shows 'V', and debugging snapshot `k` draws the generation state after `k+1` cells were entered, its open walls staying open up to the finished maze |
| Mazes.Maze.CarveFrom | src/Maze.java:130-169 | entering an unvisited cell and carving until it has no unvisited neighbour keeps the generation invariant, enters the cell right after those entered before, makes one carve step per cell entered after it, leaves every entered cell off the call stack with all its neighbours entered, and logs, per cell entered in debugging mode, a snapshot of the generation state at that moment whose open walls stay open in the cells returned |
| Mazes.Maze.RecordStep | src/Maze.java:137-139 | the log gains exactly the drawing of the maze as it stands, right after the newest cell was entered, and the log stays a chain of snapshots of the generation state |
| Mazes.Maze.CarveToward | src/Maze.java:141-167 | choosing an unvisited neighbour, clearing the facing walls and carving on from it keeps the loop state and enters at least one more cell |
| Mazes.Maze.HasUnvisited | src/Maze.java:177-188 | the result is true if and only if some listed cell is unvisited |
| Generation.EnterKeeps | src/Maze.java:131-132 | marking an unvisited cell visited with 'V' and linking it to the cell it was carved from keeps the generation invariant |
| Generation.CarveKeeps | src/Maze.java:147-162 | clearing the facing wall pair towards an unvisited neighbour keeps the invariant with one more carve step and opens a passage between the two cells |
| Walls.Clear | src/Maze.java:150-161 | clearing a wall removes exactly that wall and leaves the other three as they were |
| Walls.CarveClearsPair | src/Maze.java:148-162 | a carve step clears the inferred wall of the current cell and the opposite wall of the chosen cell and changes nothing else |
| Walls.CarveCountsTwo | src/Maze.java:148-162 | when both facing walls are present, a carve step clears exactly two wall flags |
| Walls.CarveOpensBoth | src/Maze.java:148-162 | after a carve step between neighbours, the passage is open in both directions |
| Walls.CarveKeepsSafe | src/Maze.java:148-162 | a carve step between neighbours never opens a wall that leads outside the grid |
| Walls.CarveKeepsConsistent | src/Maze.java:148-162 | for width 2 and more, a carve step between neighbours keeps the walls symmetric and the boundary closed |
| Grid.AcrossInferred | src/Maze.java:148-162 | the direction inferred from a neighbour's label difference leads to that neighbour, and its opposite leads back |
| Grid.InferredIsToward | src/Maze.java:148-162 | for width 2 and more, the inferred direction is the true geometric direction, and the opposite one points back |
| Grid.NarrowMazeMisreadsNorth | src/Maze.java:148-158 | in a one-column maze, a north neighbour's difference of 1 is read as west |
| Generation.CarvingStart | src/Maze.java:130-139 | entering a cell sets up the loop state of buildMazeHelper for that cell |
| Generation.CarvingStep | src/Maze.java:147-164 | carving towards an unvisited neighbour gives the state the recursive call needs: the neighbour is unvisited and reached through an open passage from the calling cell |
| Generation.CarvingResume | src/Maze.java:164-167 | when the recursive call returns, the loop state of the calling cell holds again with more cells entered |
| Generation.CarvingDone | src/Maze.java:141 | when no neighbour is left unvisited the cell is finished, so buildMazeHelper may return |
| Generation.SnapshotsAppend | src/Maze.java:137-139 | appending the drawing taken after entering a cell extends the log by one snapshot of the generation state with exactly the cells entered so far |
| Generation.SnapshotsCarried | src/Maze.java:141-167 | clearing further walls after a snapshot keeps every logged snapshot's open walls open in the current cells |
| Generation.GridClosed | src/Maze.java:141-168 | once the entry is entered and every entered cell has had all its neighbours entered, every cell of the grid is entered |
| Generation.Complete | src/Maze.java:118-169 | after the top-level call, the generation order spans the grid as a tree of open passages, `w*h - 1` carve steps were made (`2*w*h` cleared flags), all cells are visited with 'V', and no cleared wall leads outside the grid except the gates |
| Spanning.ClosedHoldsAll | src/Maze.java:202-219 | a set of cells that holds the entry and is closed under open passages holds every cell of a spanning tree |
| Spanning.Pigeonhole | src/Maze.java:141-168 | distinct labels below `n` are at most `n`, and exactly `n` when they cover all of them |
| Mazes.Maze.SolveMaze | src/Maze.java:193-224 | solving keeps the maze perfect and its walls unchanged, and returns a route of open passages from the entry to the exit whose cells alone show '+', all visited |
| Mazes.Maze.SearchForExit | src/Maze.java:196-219 | the search loop ends at the exit with the loop invariant intact |
| Mazes.Maze.SearchStep | src/Maze.java:202-219 | one round of the loop keeps the search invariant and either visits a new cell or shortens the stack without visiting one; it pushes the current cell and moves to, and visits, the first of the east, south, west and north cells that lies behind a cleared wall and is unvisited, and when there is none it pops exactly the top of the stack, which must be non-empty, into the current cell and leaves the cells unchanged |
| Mazes.Maze.Probe | src/Maze.java:203-214 | the first of the east, south, west and north probes that finds an unvisited cell behind a cleared wall decides the next cell; when none of them does, nothing is found and every cleared wall leads to a visited cell |
| Walls.SafeProbes | src/Maze.java:203-210 | in a generated maze each probe behind a cleared wall stays inside the grid, except north from the entry and south from the exit |
| Search.SearchPush | src/Maze.java:216-218 | pushing the current cell and stepping to an unvisited cell behind a cleared wall keeps the search invariant |
| Search.SearchPop | src/Maze.java:211-213 | backing up from a cell whose cleared walls all lead to visited cells keeps the search invariant |
| Search.EntryNotDeadEnd | src/Maze.java:211-212 | if the entry's open passages all lead to visited cells, the exit has been visited |
| Search.SolvingDeadEnd | src/Maze.java:211-213 | at a dead end away from the exit the current cell is not the entry and the stack is not empty, so the stack is never popped when empty |
| Search.EntryNeverStuck | src/Maze.java:205-210 | at the entry, with its north wall cleared, one of the east, south and west probes succeeds, so the north probe at label `-width` is never reached |
| Search.SolveSetup | src/Maze.java:194-198 | after cleaning, the probes are safe, the tree still spans the maze, and visiting the entry starts the search |
| Search.Solved | src/Maze.java:221-223 | marking the final stack with '+' yields a perfect maze with the original walls, a route from entry to exit, and '+' on the route cells and nowhere else |
| Mazes.Maze.CleanMaze | src/Maze.java:230-235 | every cell becomes unvisited and blank, and nothing else changes |
| Mazes.Maze.LabelPath | src/Maze.java:242-249 | the cells listed on the stack, and only those, get content '+', and nothing else changes |
| Generation.PerfectRelabel | src/Maze.java:230-249 | changing only visited flags and contents keeps a maze perfect |
| Mazes.Maze.Display | src/Maze.java:254-267 | the output is the log of steps in debugging mode, otherwise the drawing before solving, followed by the drawing after solving, and the solved maze is marked along a route |
| Mazes.Maze.ToString | src/Maze.java:272-312 | the text is exactly `Render(w, h, maze)` |
| Mazes.Maze.DrawTop | src/Maze.java:278-289 | the first loop yields exactly the first text line |
| Mazes.Maze.DrawRows | src/Maze.java:290-311 | the remaining loops append the other `2h` lines, yielding the whole drawing |
| Mazes.Maze.DrawRow | src/Maze.java:292-308 | one pass over the columns appends exactly the `2w + 1` pieces of one text line |
| Drawing.RenderLines | src/Maze.java:272-312 | the drawing has `2h + 1` lines of `4w + 2` characters each, and character `p` of line `r` sits at position `r * (4w + 2) + p` |
| Drawing.LineShape | src/Maze.java:279-309 | every line ends in "X\n" and otherwise holds only 'X', ' ', 'V' and '+' |
| Drawing.PieceShape | src/Maze.java:281-307 | for each piece but the last of its line, the second character is a space and the first is 'X', ' ', 'V' or '+' |
| Drawing.TopLine | src/Maze.java:279-289 | the top line has 'X' at every corner, and above each cell 'X' exactly when its north wall is present |
| Drawing.CellLine | src/Maze.java:293-300 | on a cell's text line, the west wall shows as 'X' exactly when present, and the cell's content shows only when it is visited |
| Drawing.WallLine | src/Maze.java:293-304 | on the line below a cell, corners are 'X' and the south wall shows as 'X' exactly when present |
| Drawing.SolvedSingleCell | src/Maze.java:272-312 | one cell, visited and marked '+', with only its north and south walls cleared, is drawn as "X   X\nX + X\nX   X\n" |
| Search.SolvedOneCell | src/Maze.java:193-224 | a one-cell maze in the state solveMaze leaves (generated, walls kept, '+' exactly on a solution route) is drawn as "X   X\nX + X\nX   X\n" |

## Left out

- `display` prints with `System.out.println`. The model returns the printed texts as a sequence of strings.
- `java.util.Random` and the redraw loop at `src/Maze.java:143-145` are not modelled. The model picks any neighbour that is unvisited. Termination of the redraw loop holds only with probability 1, so it is not modelled either.
- Mazes.Maze.CarveFrom: the carve works on the cells and the debugging log as values, not on the object's fields in place. `BuildMaze` assigns the results back to the fields. In debugging mode `buildMazeHelper` calls `toString()`, which reads `myMaze` (`src/Maze.java:138`); the model draws the value `cs` instead, which holds what `myMaze` holds at that point. Updates to the object in place, one field at a time, are therefore not modelled.
- Mazes.Maze.BuildMaze: the two wall clearings at `src/Maze.java:120-121` are applied through the function `Opened`, which states them, rather than as two separate assignments.
- Mazes.Maze.constructor: requires positive dimensions. The Java class does not check them: with a zero dimension, or a width of -1 or -2, `myMaze` stays empty and `myMaze.get(0)` at `src/Maze.java:120` throws an index exception; a height of -1 does the same, and a height of -2 makes `graph[0]` at `src/Maze.java:73` throw; a dimension below -2 makes the allocation at `src/Maze.java:66` throw. Exceptions are not modelled.
- Mazes.Maze.constructor: Java's 32-bit `int` arithmetic is not modelled. The model's dimensions are unbounded. In Java, a dimension of 2^31-2 or more makes `myHeight + 2` or `myWidth + 2` at `src/Maze.java:66` wrap to a negative size, so the allocation throws `NegativeArraySizeException`. The products `myWidth * myHeight` at `src/Maze.java:121` and `src/Maze.java:196` would also wrap beyond 2^31-1, although memory runs out before that.
- Mazes.Maze.Probe: requires that the north probe at a top-row cell is never needed. In the Java code that probe would read label `-width` and throw. `Search.EntryNeverStuck` proves the requirement holds at every call.
- `Stack.pop` on an empty stack would throw `EmptyStackException`. The model proves the stack is never empty when popped (`Search.SolvingDeadEnd`).
- Object identity (`equals` at `src/Maze.java:202`) is modelled as equality of labels.
- Mazes.Maze.SolveMaze: the generated maze is called a tree because its cells are linked to the entry by `w*h - 1` passages with `2*w*h` cleared flags. Acyclicity is not stated separately.
- Walls.CarveKeepsConsistent: proved only for width 2 and more. In a one-column maze the code misreads a north or south step as west or east (`Grid.NarrowMazeMisreadsNorth`). The walls it clears are then not the geometrically facing ones. Reachability and the solver's correctness are still proved for width 1.
- Mazes.Maze.CarveFrom: `buildMazeHelper` recurses once per cell entered, up to `w*h` calls deep, so on a large maze the Java code can overflow the JVM stack. The model's recursion has no depth limit.
- `src/Main.java` is not part of this model. It only constructs mazes with fixed sizes and calls `display`.
- The helper methods `RecordStep`, `CarveToward`, `SearchForExit`, `SearchStep`, `Probe`, `FrameBorder`, `LabelInterior`, `CollectCells`, `CollectCell`, `DrawTop`, `DrawRows` and `DrawRow` split the bodies of the source methods into parts. They do not add steps of their own.
