/**
 * The Maze class: it builds the grid graph, carves a perfect maze by a
 * randomised depth-first search from the top-left cell, draws it as text,
 * and solves it by a depth-first search from the entry to the exit.
 */
module Mazes {
  import opened Grid
  import opened Walls
  import opened Cells
  import opened Spanning
  import opened Drawing
  import opened Generation
  import opened Search
  import opened Layout

  class Maze {
    const width: nat
    const height: nat
    const debug: bool

    /** `myMaze`: the cells in row-major label order. */
    var maze: seq<Vertex>

    /** `mySteps`: in debugging mode, the drawing after each cell was entered. */
    var steps: seq<string>

    /** The cells in the order generation entered them. */
    ghost var order: seq<nat>

    /** For each entered cell but the first, the position in `order` of the cell it was carved from. */
    ghost var link: seq<nat>

    /** The cells behind each entry of `steps`. */
    ghost var snapshots: seq<seq<Vertex>>

    /** The maze as generated: see `Perfect`. */
    ghost predicate Valid()
      reads this
    {
      Perfect(maze, width, height, order, link)
    }

    /** Right after generation every cell is visited and shows 'V'. */
    ghost predicate Generated()
      reads this
    {
      forall i :: 0 <= i < |maze| ==> maze[i].visited && maze[i].content == 'V'
    }

    /** A `theWidth` x `theHeight` maze, generated at once. */
    constructor (theWidth: nat, theHeight: nat, theDebug: bool)
      requires theWidth > 0 && theHeight > 0
      ensures width == theWidth && height == theHeight && debug == theDebug
      ensures Valid() && Generated()
      ensures Snapshots(width, height, debug, steps, snapshots, order, link, WallsOf(maze))
      ensures |steps| == if debug then width * height else 0
    {
      width := theWidth;
      height := theHeight;
      debug := theDebug;
      maze := [];
      steps := [];
      order := [];
      link := [];
      snapshots := [];
      new;
      BuildGraph();
      BuildMaze();
    }

    /**
     * buildGraph: lays the cells out on a grid framed by visited sentinels,
     * labels the interior in row-major order and gives each interior cell
     * the labels of its non-sentinel grid neighbours.
     */
    method BuildGraph()
      requires width > 0 && height > 0 && maze == []
      modifies this`maze
      ensures maze == Graph(width, height)
    {
      var graph := new Vertex[height + 2, width + 2];
      FrameBorder(graph);
      LabelInterior(graph);
      CollectCells(graph);
    }

    /** The first loop of buildGraph: the top and bottom rows become sentinels. */
    method FrameBorder(graph: array2<Vertex>)
      requires graph.Length0 == height + 2 && graph.Length1 == width + 2
      modifies graph
      ensures forall r, c :: (r == 0 || r == height + 1) && 0 <= c < width + 2 ==> graph[r, c] == Sentinel()
    {
      for col := 0 to width + 2
        invariant forall r, c :: (r == 0 || r == height + 1) && 0 <= c < col ==> graph[r, c] == Sentinel()
      {
        graph[0, col] := NewVertex(0);
        graph[0, col] := graph[0, col].(visited := true);
        graph[height + 1, col] := NewVertex(0);
        graph[height + 1, col] := graph[height + 1, col].(visited := true);
      }
    }

    /**
     * The second loop of buildGraph: in every interior row the first and
     * last entries become sentinels and the others take the next labels.
     */
    method LabelInterior(graph: array2<Vertex>)
      requires graph.Length0 == height + 2 && graph.Length1 == width + 2
      requires forall r, c :: (r == 0 || r == height + 1) && 0 <= c < width + 2 ==> graph[r, c] == Sentinel()
      modifies graph
      ensures forall r, c :: 0 <= r < height + 2 && 0 <= c < width + 2 ==> graph[r, c] == Framed(width, height, r, c)
    {
      var nextLabel := 0;
      for row := 1 to height + 1
        invariant nextLabel == (row - 1) * width
        invariant forall r, c :: (0 <= r < row || r == height + 1) && 0 <= c < width + 2 ==>
          graph[r, c] == Framed(width, height, r, c)
      {
        for col := 0 to width + 2
          invariant nextLabel == (row - 1) * width + Interior(width, col)
          invariant forall r, c :: (0 <= r < row || r == height + 1) && 0 <= c < width + 2 ==>
            graph[r, c] == Framed(width, height, r, c)
          invariant forall c :: 0 <= c < col ==> graph[row, c] == Framed(width, height, row, c)
        {
          var tempVertex := NewVertex(0);
          if col == 0 || col == width + 1 {
            tempVertex := tempVertex.(visited := true);
          } else {
            tempVertex := tempVertex.(id := nextLabel);
            nextLabel := nextLabel + 1;
          }
          graph[row, col] := tempVertex;
        }
        assert (row - 1) * width + width == row * width;
      }
    }

    /**
     * The third loop of buildGraph: each interior cell, in row-major order,
     * keeps the non-sentinel entries among its four grid neighbours and is
     * appended to the list of cells.
     */
    method CollectCells(graph: array2<Vertex>)
      requires width > 0 && maze == []
      requires graph.Length0 == height + 2 && graph.Length1 == width + 2
      requires forall r, c :: 0 <= r < height + 2 && 0 <= c < width + 2 ==> graph[r, c] == Framed(width, height, r, c)
      modifies this`maze
      ensures maze == Graph(width, height)
    {
      for row := 1 to height + 1
        invariant maze == Graph(width, height)[..(row - 1) * width]
      {
        for col := 1 to width + 1
          invariant maze == Graph(width, height)[..(row - 1) * width + (col - 1)]
        {
          var tempVertex := CollectCell(graph, row, col);
          CellCollected(width, height, row, col);
          maze := maze + [tempVertex];
        }
        assert (row - 1) * width + width == row * width;
      }
      assert Graph(width, height)[..height * width] == Graph(width, height);
    }

    /**
     * The body of buildGraph's third loop for interior entry `(row, col)`:
     * the entry with the labels of the non-sentinel vertices among its
     * west, east, north and south grid entries, in that order.
     */
    method CollectCell(graph: array2<Vertex>, row: nat, col: nat) returns (tempVertex: Vertex)
      requires 1 <= row <= height && 1 <= col <= width
      requires graph.Length0 == height + 2 && graph.Length1 == width + 2
      requires forall r, c :: 0 <= r < height + 2 && 0 <= c < width + 2 ==> graph[r, c] == Framed(width, height, r, c)
      ensures tempVertex == Framed(width, height, row, col).(neighbors := Kept([Framed(width, height, row, col - 1),
        Framed(width, height, row, col + 1), Framed(width, height, row - 1, col), Framed(width, height, row + 1, col)]))
    {
      var tempNeighbors := [graph[row, col - 1], graph[row, col + 1], graph[row - 1, col], graph[row + 1, col]];
      tempVertex := graph[row, col];
      assert tempNeighbors[..0] == [];
      for k := 0 to 4
        invariant tempVertex == graph[row, col].(neighbors := Kept(tempNeighbors[..k]))
      {
        assert tempNeighbors[..k + 1][..k] == tempNeighbors[..k];
        if !tempNeighbors[k].visited {
          tempVertex := tempVertex.(neighbors := tempVertex.neighbors + [tempNeighbors[k].id]);
        }
      }
      assert tempNeighbors[..4] == tempNeighbors;
    }

    /**
     * buildMaze: opens the entry and the exit, then carves from the
     * top-left cell. The carve works on the cells and the debugging log as
     * values, and its results become the new state of the object.
     */
    method BuildMaze()
      requires width > 0 && height > 0 && maze == Graph(width, height)
      requires order == [] && link == [] && steps == [] && snapshots == []
      modifies this
      ensures Valid() && Generated()
      ensures Snapshots(width, height, debug, steps, snapshots, order, link, WallsOf(maze))
    {
      InitialBuilding(width, height);
      var cs := Opened(maze);
      ghost var carves: nat;
      cs, steps, order, link, carves, snapshots := CarveFrom(cs, [], 0, [], [], 0, [], [], 0);
      Complete(cs, width, height, order, link, carves, 0);
      assert MarkersOnly(cs);
      maze := cs;
    }

    /**
     * buildMazeHelper: enters cell `v`, records the drawing in debugging
     * mode, then while `v` has an unvisited neighbour, carves on towards
     * one. Besides the cells and the log it threads the ghost generation
     * state: the cells entered so far (`entered`), their tree links, the
     * number of carve steps, the cells behind the log, the cells whose
     * calls are still running (`stack`) and the position in `entered` of
     * the cell `v` is carved from.
     */
    method CarveFrom(cs0: seq<Vertex>, log0: seq<string>, v: nat,
                     ghost entered: seq<nat>, ghost links: seq<nat>, ghost made: nat, ghost shots0: seq<seq<Vertex>>,
                     ghost stack: seq<nat>, ghost from: nat)
      returns (cs: seq<Vertex>, log: seq<string>, ghost done: seq<nat>, ghost tree: seq<nat>, ghost total: nat,
               ghost shots: seq<seq<Vertex>>)
      requires width > 0 && height > 0 && Building(cs0, width, height, entered, links, made, v) && !cs0[v].visited
      requires entered == [] ==> v == 0
      requires entered != [] ==> from < |entered| && Opens(WallsOf(cs0), width, entered[from], v)
      requires made == |entered| && Finished(width, height, entered, stack)
      requires Snapshots(width, height, debug, log0, shots0, entered, links, WallsOf(cs0))
      ensures Building(cs, width, height, done, tree, total, v)
      ensures total + 1 == |done| && entered + [v] <= done
      ensures Finished(width, height, done, stack)
      ensures Snapshots(width, height, debug, log, shots, done, tree, WallsOf(cs))
      decreases |cs0| - |entered|, 0
    {
      CarvingStart(cs0, width, height, entered, links, made, v, stack, from);
      cs := Entered(cs0, v);
      done, tree, total := entered + [v], links + [from], made;
      log, shots := log0, shots0;
      if debug {
        log, shots := RecordStep(cs, log, shots, entered, links, v, from);
      }

      var more := HasUnvisited(cs, cs[v].neighbors);
      while more
        invariant Carving(cs, width, height, done, tree, total, v, stack, entered)
        invariant forall k :: 0 <= k < |cs[v].neighbors| ==> cs[v].neighbors[k] < |cs|
        invariant Snapshots(width, height, debug, log, shots, done, tree, WallsOf(cs))
        invariant more <==> exists k :: 0 <= k < |cs[v].neighbors| && !cs[cs[v].neighbors[k]].visited
        decreases |cs| - |done|
      {
        cs, log, done, tree, total, shots := CarveToward(cs, log, v, done, tree, total, shots, stack, entered);
        more := HasUnvisited(cs, cs[v].neighbors);
      }
      CarvingDone(cs, width, height, done, tree, total, v, stack, entered);
    }

    /** buildMazeHelper's debugging branch: the maze as drawn right after `v` was entered is logged. */
    method RecordStep(cs: seq<Vertex>, log0: seq<string>, ghost shots0: seq<seq<Vertex>>,
                      ghost entered: seq<nat>, ghost links: seq<nat>, v: nat, ghost from: nat)
      returns (log: seq<string>, ghost shots: seq<seq<Vertex>>)
      requires debug && width > 0 && height > 0
      requires Building(cs, width, height, entered + [v], links + [from], |entered|, v)
      requires Snapshots(width, height, debug, log0, shots0, entered, links, WallsOf(cs))
      ensures log == log0 + [Render(width, height, cs)] && shots == shots0 + [cs]
      ensures Snapshots(width, height, debug, log, shots, entered + [v], links + [from], WallsOf(cs))
    {
      var top := DrawTop(cs);
      var text := DrawRows(cs, top);
      ShotTaken(width, height, cs, entered, links, v, from);
      SnapshotsAppend(width, height, debug, log0, shots0, entered, links, cs, v, from);
      log, shots := log0 + [text], shots0 + [cs];
    }

    /**
     * One round of buildMazeHelper's loop: picks an unvisited neighbour of
     * `v`, clears the walls between them and carves on from there.
     * `outer` holds the cells entered before `v`.
     */
    method CarveToward(cs0: seq<Vertex>, log0: seq<string>, v: nat,
                       ghost entered: seq<nat>, ghost links: seq<nat>, ghost made: nat, ghost shots0: seq<seq<Vertex>>,
                       ghost stack: seq<nat>, ghost outer: seq<nat>)
      returns (cs: seq<Vertex>, log: seq<string>, ghost done: seq<nat>, ghost tree: seq<nat>, ghost total: nat,
               ghost shots: seq<seq<Vertex>>)
      requires height > 0 && Carving(cs0, width, height, entered, links, made, v, stack, outer)
      requires forall k :: 0 <= k < |cs0[v].neighbors| ==> cs0[v].neighbors[k] < |cs0|
      requires exists k :: 0 <= k < |cs0[v].neighbors| && !cs0[cs0[v].neighbors[k]].visited
      requires Snapshots(width, height, debug, log0, shots0, entered, links, WallsOf(cs0))
      ensures Carving(cs, width, height, done, tree, total, v, stack, outer) && |entered| < |done|
      ensures forall k :: 0 <= k < |cs[v].neighbors| ==> cs[v].neighbors[k] < |cs|
      ensures Snapshots(width, height, debug, log, shots, done, tree, WallsOf(cs))
      decreases |cs0| - |entered|, 1
    {
      var index :| 0 <= index < |cs0[v].neighbors| && !cs0[cs0[v].neighbors[index]].visited;
      var nextVertex := cs0[v].neighbors[index];
      var carved := Carved(cs0, width, v, nextVertex);
      CarvingStep(cs0, width, height, entered, links, made, v, stack, outer, nextVertex, carved);
      SnapshotsCarried(width, height, debug, log0, shots0, entered, links, WallsOf(cs0), WallsOf(carved));
      cs, log, done, tree, total, shots :=
        CarveFrom(carved, log0, nextVertex, entered, links, made + 1, shots0, stack + [v], |outer|);
      CarvingResume(cs, width, height, done, tree, total, v, stack, outer, entered, nextVertex);
    }

    /** hasUnvisited: whether one of the listed cells is still unvisited. */
    method HasUnvisited(cs: seq<Vertex>, theNeighbors: seq<nat>) returns (result: bool)
      requires forall k :: 0 <= k < |theNeighbors| ==> theNeighbors[k] < |cs|
      ensures result <==> exists k :: 0 <= k < |theNeighbors| && !cs[theNeighbors[k]].visited
    {
      result := false;
      for k := 0 to |theNeighbors|
        invariant !result
        invariant forall m :: 0 <= m < k ==> cs[theNeighbors[m]].visited
      {
        if !cs[theNeighbors[k]].visited {
          result := true;
          break;
        }
      }
    }

    /**
     * solveMaze: clears the marks, searches depth first from the entry,
     * trying east, south, west and north in turn and backing up at dead
     * ends, and marks the cells left on the stack with '+'.
     */
    method SolveMaze() returns (ghost route: seq<nat>)
      requires Valid()
      modifies this`maze
      ensures Valid()
      ensures WallsOf(maze) == WallsOf(old(maze))
      ensures Solution(WallsOf(maze), width, route)
      ensures forall i :: 0 <= i < |maze| ==> maze[i].content == (if i in route then '+' else ' ')
      ensures forall k :: 0 <= k < |route| ==> maze[route[k]].visited
    {
      ghost var start := maze;
      CleanMaze();
      ghost var base := maze;
      SolveSetup(start, base, width, height, order, link);
      var curPoint: nat := 0;
      maze := maze[curPoint := maze[curPoint].(visited := true)];
      var path: seq<nat>;
      ghost var trail: seq<nat>;
      path, curPoint, trail := SearchForExit(base, WallsOf(base), order, link);
      ghost var searched, stack := maze, path;
      path := path + [curPoint];
      route := path;
      LabelPath(path);
      Solved(start, base, searched, maze, width, height, order, link, stack, curPoint, trail);
    }

    /**
     * The loop of solveMaze: depth first from the entry until the current
     * cell is the exit. `base` is the cleaned maze, `ws` its wall flags and
     * `tree`, `parents` its spanning tree.
     */
    method SearchForExit(ghost base: seq<Vertex>, ghost ws: seq<Walls>, ghost tree: seq<nat>, ghost parents: seq<nat>)
      returns (path: seq<nat>, curPoint: nat, ghost trail: seq<nat>)
      requires Solving(maze, base, ws, width, [], 0, [0]) && |maze| == width * height
      requires Safe(ws, width) && Spans(ws, width, tree, parents)
      modifies this`maze
      ensures Solving(maze, base, ws, width, path, curPoint, trail) && curPoint + 1 == |maze|
    {
      var endPoint := width * height - 1;
      curPoint := 0;
      path := [];
      trail := [0];
      while curPoint != endPoint
        invariant Solving(maze, base, ws, width, path, curPoint, trail)
        decreases |maze| - |trail|, |path|
      {
        maze, path, curPoint, trail := SearchStep(base, ws, tree, parents, maze, path, curPoint, trail);
      }
    }

    /**
     * One round of solveMaze's loop: step to the cell the probes find, or
     * at a dead end back up to the cell below the top of the stack. The
     * round either visits one more cell or shortens the stack.
     */
    method SearchStep(ghost base: seq<Vertex>, ghost ws: seq<Walls>, ghost tree: seq<nat>, ghost parents: seq<nat>,
                      cs: seq<Vertex>, path: seq<nat>, curPoint: nat, ghost trail: seq<nat>)
      returns (cs': seq<Vertex>, path': seq<nat>, curPoint': nat, ghost trail': seq<nat>)
      requires Solving(cs, base, ws, width, path, curPoint, trail) && curPoint + 1 != |cs|
      requires Safe(ws, width) && Spans(ws, width, tree, parents)
      ensures Solving(cs', base, ws, width, path', curPoint', trail')
      ensures |trail'| > |trail| || (trail' == trail && |path'| < |path|)
      ensures EastOpen(cs, curPoint) ==>
        path' == path + [curPoint] && curPoint' == curPoint + 1 && cs' == Visit(cs, curPoint')
      ensures !EastOpen(cs, curPoint) && SouthOpen(cs, curPoint) ==>
        path' == path + [curPoint] && curPoint' == curPoint + width && cs' == Visit(cs, curPoint')
      ensures !EastOpen(cs, curPoint) && !SouthOpen(cs, curPoint) && WestOpen(cs, curPoint) ==>
        path' == path + [curPoint] && curPoint' + 1 == curPoint && cs' == Visit(cs, curPoint')
      ensures !EastOpen(cs, curPoint) && !SouthOpen(cs, curPoint) && !WestOpen(cs, curPoint) && NorthOpen(cs, curPoint) ==>
        path' == path + [curPoint] && curPoint' + width == curPoint && cs' == Visit(cs, curPoint')
      ensures !EastOpen(cs, curPoint) && !SouthOpen(cs, curPoint) && !WestOpen(cs, curPoint) && !NorthOpen(cs, curPoint) ==>
        path != [] && cs' == cs && path' == path[..|path| - 1] && curPoint' == path[|path| - 1]
    {
      SolvingProbes(cs, base, ws, width, path, curPoint, trail);
      EntryNeverStuck(cs, base, ws, width, tree, parents, path, curPoint, trail);
      var found, nextPoint := Probe(cs, curPoint);
      if !found {
        SolvingDeadEnd(cs, base, ws, width, tree, parents, path, curPoint, trail);
        return cs, path[..|path| - 1], path[|path| - 1], trail;
      }
      SolvingPush(cs, base, ws, width, path, curPoint, trail, nextPoint);
      path' := path + [curPoint];
      curPoint' := nextPoint;
      cs' := cs[curPoint' := cs[curPoint'].(visited := true)];
      trail' := trail + [curPoint'];
    }

    /** solveMaze's east probe succeeds: the east wall is cleared and the cell behind it unvisited. */
    predicate EastOpen(cs: seq<Vertex>, x: nat)
    {
      x < |cs| && !cs[x].walls.east && x + 1 < |cs| && !cs[x + 1].visited
    }

    /** solveMaze's south probe succeeds. */
    predicate SouthOpen(cs: seq<Vertex>, x: nat)
    {
      x < |cs| && !cs[x].walls.south && x + width < |cs| && !cs[x + width].visited
    }

    /** solveMaze's west probe succeeds. */
    predicate WestOpen(cs: seq<Vertex>, x: nat)
    {
      x < |cs| && !cs[x].walls.west && x >= 1 && !cs[x - 1].visited
    }

    /** solveMaze's north probe succeeds. */
    predicate NorthOpen(cs: seq<Vertex>, x: nat)
    {
      x < |cs| && !cs[x].walls.north && x >= width && !cs[x - width].visited
    }

    /**
     * The probes of solveMaze's loop at `curPoint`, not the exit: east,
     * south, west, then north, the first unvisited cell behind a cleared
     * wall. Finding none means every cleared wall leads to a visited cell.
     * The north probe reads the cell `myWidth` labels back, which for a
     * top-row cell lies outside the maze; the last precondition says the
     * probes never get that far there.
     */
    method Probe(cs: seq<Vertex>, curPoint: nat) returns (found: bool, nextPoint: nat)
      requires curPoint + 1 < |cs|
      requires !cs[curPoint].walls.east ==> curPoint + 1 < |cs|
      requires !cs[curPoint].walls.south ==> curPoint + width < |cs|
      requires !cs[curPoint].walls.west ==> curPoint >= 1
      requires !cs[curPoint].walls.north && curPoint < width ==>
        (!cs[curPoint].walls.east && !cs[curPoint + 1].visited) ||
        (!cs[curPoint].walls.south && !cs[curPoint + width].visited) ||
        (!cs[curPoint].walls.west && !cs[curPoint - 1].visited)
      ensures found ==> nextPoint < |cs| && !cs[nextPoint].visited
      ensures found ==>
        (nextPoint == curPoint + 1 && !cs[curPoint].walls.east) ||
        (nextPoint == curPoint + width && !cs[curPoint].walls.south) ||
        (nextPoint + 1 == curPoint && !cs[curPoint].walls.west) ||
        (nextPoint + width == curPoint && !cs[curPoint].walls.north)
      ensures !found && !cs[curPoint].walls.east ==> cs[curPoint + 1].visited
      ensures !found && !cs[curPoint].walls.south ==> cs[curPoint + width].visited
      ensures !found && !cs[curPoint].walls.west ==> cs[curPoint - 1].visited
      ensures !found && !cs[curPoint].walls.north ==> curPoint >= width && cs[curPoint - width].visited
      ensures EastOpen(cs, curPoint) ==> found && nextPoint == curPoint + 1
      ensures !EastOpen(cs, curPoint) && SouthOpen(cs, curPoint) ==> found && nextPoint == curPoint + width
      ensures !EastOpen(cs, curPoint) && !SouthOpen(cs, curPoint) && WestOpen(cs, curPoint) ==>
        found && nextPoint + 1 == curPoint
      ensures !EastOpen(cs, curPoint) && !SouthOpen(cs, curPoint) && !WestOpen(cs, curPoint) && NorthOpen(cs, curPoint) ==>
        found && nextPoint + width == curPoint
      ensures !EastOpen(cs, curPoint) && !SouthOpen(cs, curPoint) && !WestOpen(cs, curPoint) && !NorthOpen(cs, curPoint) ==>
        !found
    {
      found, nextPoint := true, 0;
      if !cs[curPoint].walls.east && !cs[curPoint + 1].visited {
        nextPoint := curPoint + 1;
      } else if !cs[curPoint].walls.south && !cs[curPoint + width].visited {
        nextPoint := curPoint + width;
      } else if !cs[curPoint].walls.west && !cs[curPoint - 1].visited {
        nextPoint := curPoint - 1;
      } else if !cs[curPoint].walls.north && !cs[curPoint - width].visited {
        nextPoint := curPoint - width;
      } else {
        found := false;
      }
    }

    /** cleanMaze: every cell unvisited and blank again. */
    method CleanMaze()
      modifies this`maze
      ensures |maze| == |old(maze)|
      ensures forall i :: 0 <= i < |maze| ==> maze[i] == old(maze[i]).(visited := false, content := ' ')
    {
      for k := 0 to |maze|
        invariant |maze| == |old(maze)|
        invariant forall i :: 0 <= i < k ==> maze[i] == old(maze[i]).(visited := false, content := ' ')
        invariant forall i :: k <= i < |maze| ==> maze[i] == old(maze[i])
      {
        maze := maze[k := maze[k].(visited := false, content := ' ')];
      }
    }

    /** labelPath: pops the whole stack, marking each cell with '+'. */
    method LabelPath(thePath: seq<nat>)
      requires forall k :: 0 <= k < |thePath| ==> thePath[k] < |maze|
      modifies this`maze
      ensures |maze| == |old(maze)|
      ensures forall i :: 0 <= i < |maze| ==>
        maze[i] == if i in thePath then old(maze[i]).(content := '+') else old(maze[i])
    {
      var stack := thePath;
      while stack != []
        invariant stack == thePath[..|stack|] && |maze| == |old(maze)|
        invariant forall i :: 0 <= i < |maze| ==>
          maze[i] == if i in thePath[|stack|..] then old(maze[i]).(content := '+') else old(maze[i])
        decreases |stack|
      {
        var curPoint := stack[|stack| - 1];
        assert thePath[|stack| - 1..] == [curPoint] + thePath[|stack|..];
        stack := stack[..|stack| - 1];
        maze := maze[curPoint := maze[curPoint].(content := '+')];
      }
      assert thePath[0..] == thePath;
    }

    /**
     * display: the recorded steps in debugging mode, otherwise the maze
     * once; then the maze again after solving it.
     */
    method Display() returns (output: seq<string>, ghost route: seq<nat>)
      requires Valid()
      modifies this`maze
      ensures Valid() && WallsOf(maze) == WallsOf(old(maze)) && Solution(WallsOf(maze), width, route)
      ensures output == (if debug then steps else [Render(width, height, old(maze))]) + [Render(width, height, maze)]
      ensures forall i :: 0 <= i < |maze| ==> maze[i].content == (if i in route then '+' else ' ')
    {
      if debug {
        output := steps;
      } else {
        var text := ToString();
        output := [text];
      }
      route := SolveMaze();
      var text := ToString();
      output := output + [text];
    }

    /**
     * toString: the maze drawn with 'X' for walls and corners, the first
     * text row from the north walls, then two text rows per maze row.
     */
    method ToString() returns (s: string)
      requires width > 0 && height > 0 && |maze| == width * height
      ensures s == Render(width, height, maze)
    {
      var top := DrawTop(maze);
      s := DrawRows(maze, top);
    }

    /**
     * The first part of toString: a corner before each cell and 'X' above
     * it unless its north wall is cleared, then the closing "X\n".
     */
    method DrawTop(cs: seq<Vertex>) returns (result: string)
      requires width > 0 && height > 0 && |cs| == width * height
      ensures result == Lines(width, height, cs, 1)
    {
      result := "";
      var colNum := 2 * width + 1;
      for row := 0 to 1
        invariant result == Pieces(width, height, cs, 0, if row == 0 then 0 else colNum - 1)
      {
        for col := 0 to colNum - 1
          invariant result == Pieces(width, height, cs, 0, col)
        {
          PieceStep(width, height, cs, 0, col, "");
          result := result + Piece(width, height, cs, 0, col);
        }
      }
      TopLineEnds(width, height, cs);
      result := result + "X\n";
    }

    /**
     * The rest of toString: after `top`, the remaining `2h` text rows, each
     * of `2w + 1` two-character pieces; `Piece` is the branch chain that
     * picks a piece from the cell's walls, visited flag and content.
     */
    method DrawRows(cs: seq<Vertex>, top: string) returns (result: string)
      requires width > 0 && height > 0 && |cs| == width * height
      requires top == Lines(width, height, cs, 1)
      ensures result == Render(width, height, cs)
    {
      result := top;
      var rowNum := 2 * height + 1;
      var colNum := 2 * width + 1;
      for row := 1 to rowNum
        invariant result == Lines(width, height, cs, row)
      {
        RowStart(width, height, cs, row);
        result := DrawRow(cs, row, result);
      }
    }

    /** One text row of toString after `prefix`: its `2w + 1` pieces, the last one ending the line. */
    method DrawRow(cs: seq<Vertex>, row: nat, prefix: string) returns (result: string)
      requires width > 0 && height > 0 && |cs| == width * height && row <= 2 * height
      ensures result == prefix + Pieces(width, height, cs, row, 2 * width + 1)
    {
      result := prefix;
      var colNum := 2 * width + 1;
      for col := 0 to colNum
        invariant result == prefix + Pieces(width, height, cs, row, col)
      {
        PieceStep(width, height, cs, row, col, prefix);
        result := result + Piece(width, height, cs, row, col);
      }
    }
  }
}
