/**
 * The depth-first search of solveMaze: the walk kept on its stack, the
 * visited cells, and why the search never backs out of the entry and
 * always ends on the exit.
 */
module Search {
  import opened Grid
  import opened Walls
  import opened Cells
  import opened Spanning
  import opened Generation
  import opened Drawing

  /** A walk from the entry through open passages that never repeats a cell. */
  ghost predicate Walk(ws: seq<Walls>, w: nat, route: seq<nat>)
  {
    |route| > 0 && route[0] == 0 && Distinct(route) &&
    (forall k :: 0 <= k < |route| ==> route[k] < |ws|) &&
    (forall k :: 0 <= k && k + 1 < |route| ==> Opens(ws, w, route[k], route[k + 1]))
  }

  /** A walk that ends on the exit. */
  ghost predicate Solution(ws: seq<Walls>, w: nat, route: seq<nat>)
  {
    Walk(ws, w, route) && route[|route| - 1] + 1 == |ws|
  }

  /**
   * The state of the search: the stack `path` with the current cell `cur`
   * on top is a walk of visited cells; `trail` lists the visited cells;
   * a visited cell off the walk has every open passage leading to a visited
   * cell; and the exit is visited only once it is the current cell.
   */
  ghost predicate Searching(cs: seq<Vertex>, ws: seq<Walls>, w: nat, path: seq<nat>, cur: nat, trail: seq<nat>)
  {
    |cs| == |ws| && (forall i :: 0 <= i < |cs| ==> cs[i].walls == ws[i]) &&
    Walk(ws, w, path + [cur]) &&
    (forall k :: 0 <= k < |path + [cur]| ==> (path + [cur])[k] in trail) &&
    Distinct(trail) && (forall k :: 0 <= k < |trail| ==> trail[k] < |cs|) &&
    (forall i :: 0 <= i < |cs| ==> (cs[i].visited <==> i in trail)) &&
    (forall x, b :: x in trail && x !in path + [cur] && x < |ws| && Opens(ws, w, x, b) ==> b in trail) &&
    (|cs| - 1 in trail ==> cur + 1 == |cs|)
  }

  /** Marking cell `x` visited. */
  function Visit(cs: seq<Vertex>, x: nat): seq<Vertex>
    requires x < |cs|
  {
    cs[x := cs[x].(visited := true)]
  }

  /** Starting on the entry, with every cell unvisited, sets up the search. */
  lemma SearchStart(cs: seq<Vertex>, ws: seq<Walls>, w: nat)
    requires |cs| == |ws| > 0 && forall i :: 0 <= i < |cs| ==> cs[i].walls == ws[i] && !cs[i].visited
    ensures Searching(Visit(cs, 0), ws, w, [], 0, [0])
  {
    assert [] + [0] == [0];
  }

  /** The search is bounded: no more visited cells than cells. */
  lemma SearchBounded(cs: seq<Vertex>, ws: seq<Walls>, w: nat, path: seq<nat>, cur: nat, trail: seq<nat>)
    requires Searching(cs, ws, w, path, cur, trail)
    ensures |trail| <= |cs|
  {
    Pigeonhole(trail, |cs|);
  }

  /** A walk extended through an open passage to a cell not yet on it is a walk. */
  lemma WalkExtend(ws: seq<Walls>, w: nat, route: seq<nat>, trail: seq<nat>, next: nat)
    requires Walk(ws, w, route) && (forall k :: 0 <= k < |route| ==> route[k] in trail)
    requires next < |ws| && next !in trail && Opens(ws, w, route[|route| - 1], next)
    ensures Walk(ws, w, route + [next])
  {
    var route' := route + [next];
    forall k | 0 <= k < |route|
      ensures route[k] != next
    {
      assert route[k] in trail;
    }
    assert Distinct(route');
    forall k | 0 <= k && k + 1 < |route'|
      ensures Opens(ws, w, route'[k], route'[k + 1])
    {
      if k + 1 < |route| {
        assert route'[k] == route[k] && route'[k + 1] == route[k + 1];
      }
    }
  }

  /** Moving from the current cell through an open passage to an unvisited cell. */
  lemma SearchPush(cs: seq<Vertex>, ws: seq<Walls>, w: nat, path: seq<nat>, cur: nat, trail: seq<nat>, next: nat)
    requires Searching(cs, ws, w, path, cur, trail) && cur < |cs| && cur + 1 != |cs|
    requires next < |cs| && !cs[next].visited && Opens(ws, w, cur, next)
    ensures Searching(Visit(cs, next), ws, w, path + [cur], next, trail + [next])
  {
    var route := path + [cur];
    assert route[|route| - 1] == cur;
    WalkExtend(ws, w, route, trail, next);
    assert path + [cur] + [next] == route + [next];
  }

  /**
   * Once every open passage of the current cell leads to a visited cell,
   * backing up to the cell below it on the stack keeps the search state.
   */
  lemma SearchPop(cs: seq<Vertex>, ws: seq<Walls>, w: nat, path: seq<nat>, cur: nat, trail: seq<nat>)
    requires Searching(cs, ws, w, path, cur, trail) && cur < |cs| && cur + 1 != |cs| && path != []
    requires forall b :: Opens(ws, w, cur, b) ==> b in trail
    ensures Searching(cs, ws, w, path[..|path| - 1], path[|path| - 1], trail)
  {
    var route := path + [cur];
    var top := path[..|path| - 1] + [path[|path| - 1]];
    assert top == path;
    forall k | 0 <= k < |path|
      ensures path[k] == route[k]
    {
    }
  }

  /**
   * Every open passage of `cur` leads to a visited cell when each of the
   * four probes of solveMaze finds a wall or a visited cell; the north
   * passage of the entry leads out of the maze and needs no probe.
   */
  lemma DeadEndExplored(cs: seq<Vertex>, ws: seq<Walls>, w: nat, cur: nat, trail: seq<nat>)
    requires |cs| == |ws| && cur < |cs| && forall i :: 0 <= i < |cs| ==> (cs[i].visited <==> i in trail)
    requires !ws[cur].east ==> cur + 1 < |cs| && cs[cur + 1].visited
    requires !ws[cur].south ==> cur + w < |cs| && cs[cur + w].visited
    requires !ws[cur].west ==> cur >= 1 && cs[cur - 1].visited
    requires !ws[cur].north ==> cur < w || cs[cur - w].visited
    ensures forall b :: Opens(ws, w, cur, b) ==> b in trail
  {
  }

  /**
   * The search cannot be stuck on the entry: if every open passage of the
   * entry led to a visited cell, the visited cells would be closed under
   * open passages, so by the spanning tree the exit would be visited.
   */
  lemma EntryNotDeadEnd(cs: seq<Vertex>, ws: seq<Walls>, w: nat, order: seq<nat>, link: seq<nat>, path: seq<nat>, trail: seq<nat>)
    requires Searching(cs, ws, w, path, 0, trail) && Spans(ws, w, order, link)
    requires forall b :: Opens(ws, w, 0, b) ==> b in trail
    ensures |cs| - 1 in trail
  {
    var route := path + [0];
    assert route[0] == 0 && route[|path|] == 0;
    assert |path| == 0;
    var inside := Elements(trail);
    forall a, b | a in inside && a < |ws| && Opens(ws, w, a, b)
      ensures b in inside
    {
      if a == 0 {
        assert b in trail;
      } else {
        assert a !in route;
        assert b in trail;
      }
    }
    assert 0 in inside;
    ClosedHoldsAll(ws, w, order, link, inside);
    assert |ws| - 1 in inside;
  }

  /**
   * The loop state of solveMaze: `cs` is the cleaned maze `base` with
   * some cells marked visited, in the search state `Searching`, the
   * current cell inside the maze.
   */
  ghost predicate Solving(cs: seq<Vertex>, base: seq<Vertex>, ws: seq<Walls>, w: nat, path: seq<nat>, cur: nat, trail: seq<nat>)
  {
    |cs| == |base| && (forall i :: 0 <= i < |cs| ==> cs[i] == base[i].(visited := cs[i].visited)) &&
    Searching(cs, ws, w, path, cur, trail) && cur < |cs| && |trail| <= |cs|
  }

  /** Marking the entry visited in the cleaned maze starts the search. */
  lemma SolvingStart(base: seq<Vertex>, ws: seq<Walls>, w: nat)
    requires |base| == |ws| > 0 && forall i :: 0 <= i < |base| ==> base[i].walls == ws[i] && !base[i].visited
    ensures Solving(Visit(base, 0), base, ws, w, [], 0, [0])
  {
    SearchStart(base, ws, w);
  }

  /** The four probes of solveMaze at the current cell stay inside the maze, bar the entry's north gate. */
  lemma SolvingProbes(cs: seq<Vertex>, base: seq<Vertex>, ws: seq<Walls>, w: nat, path: seq<nat>, cur: nat, trail: seq<nat>)
    requires Solving(cs, base, ws, w, path, cur, trail) && Safe(ws, w)
    ensures !cs[cur].walls.east ==> cur + 1 < |cs|
    ensures !cs[cur].walls.west ==> cur >= 1
    ensures !cs[cur].walls.north ==> cur >= w || cur == 0
    ensures !cs[cur].walls.south ==> cur + w < |cs| || cur + 1 == |cs|
  {
    SafeProbes(ws, w, cur);
  }

  /**
   * Stepping through an open passage to an unvisited cell keeps the loop
   * state and visits one more cell.
   */
  lemma SolvingPush(cs: seq<Vertex>, base: seq<Vertex>, ws: seq<Walls>, w: nat, path: seq<nat>, cur: nat, trail: seq<nat>, next: nat)
    requires Solving(cs, base, ws, w, path, cur, trail) && cur + 1 != |cs| && next < |cs| && !cs[next].visited
    requires (next == cur + 1 && !cs[cur].walls.east) || (next == cur + w && !cs[cur].walls.south) ||
             (next + 1 == cur && !cs[cur].walls.west) || (next + w == cur && !cs[cur].walls.north)
    ensures Solving(Visit(cs, next), base, ws, w, path + [cur], next, trail + [next])
  {
    assert Opens(ws, w, cur, next);
    SearchPush(cs, ws, w, path, cur, trail, next);
    SearchBounded(Visit(cs, next), ws, w, path + [cur], next, trail + [next]);
  }

  /**
   * When the four probes all fail away from the exit, the current cell is
   * not the entry, the stack is not empty, and backing up keeps the loop
   * state.
   */
  lemma SolvingDeadEnd(cs: seq<Vertex>, base: seq<Vertex>, ws: seq<Walls>, w: nat, order: seq<nat>, link: seq<nat>,
                       path: seq<nat>, cur: nat, trail: seq<nat>)
    requires Solving(cs, base, ws, w, path, cur, trail) && cur + 1 != |cs| && Spans(ws, w, order, link)
    requires !cs[cur].walls.east ==> cur + 1 < |cs| && cs[cur + 1].visited
    requires !cs[cur].walls.south ==> cur + w < |cs| && cs[cur + w].visited
    requires !cs[cur].walls.west ==> cur >= 1 && cs[cur - 1].visited
    requires !cs[cur].walls.north ==> cur < w || cs[cur - w].visited
    ensures cur != 0 && path != []
    ensures Solving(cs, base, ws, w, path[..|path| - 1], path[|path| - 1], trail)
  {
    DeadEndExplored(cs, ws, w, cur, trail);
    if cur == 0 {
      EntryNotDeadEnd(cs, ws, w, order, link, path, trail);
      assert false;
    }
    var route := path + [cur];
    assert route[0] == 0;
    SearchPop(cs, ws, w, path, cur, trail);
    assert path[|path| - 1] == route[|path| - 1];
  }

  /**
   * The search never gets stuck on a top-row cell whose north wall is
   * cleared: that cell is the entry, and the entry is never a dead end, so
   * one of the east, south and west probes succeeds there.
   */
  lemma EntryNeverStuck(cs: seq<Vertex>, base: seq<Vertex>, ws: seq<Walls>, w: nat, order: seq<nat>, link: seq<nat>,
                        path: seq<nat>, cur: nat, trail: seq<nat>)
    requires Solving(cs, base, ws, w, path, cur, trail) && cur + 1 != |cs| && Safe(ws, w) && Spans(ws, w, order, link)
    ensures !cs[cur].walls.north && cur < w ==>
      (!cs[cur].walls.east && cur + 1 < |cs| && !cs[cur + 1].visited) ||
      (!cs[cur].walls.south && cur + w < |cs| && !cs[cur + w].visited) ||
      (!cs[cur].walls.west && cur >= 1 && !cs[cur - 1].visited)
  {
    SolvingProbes(cs, base, ws, w, path, cur, trail);
    if !cs[cur].walls.north && cur < w {
      var east := !cs[cur].walls.east && cur + 1 < |cs| && !cs[cur + 1].visited;
      var south := !cs[cur].walls.south && cur + w < |cs| && !cs[cur + w].visited;
      assert cur == 0;
      if !east && !south {
        SolvingDeadEnd(cs, base, ws, w, order, link, path, cur, trail);
      }
    }
  }

  /** cleanMaze's effect: every cell unvisited and blank, nothing else changed. */
  ghost predicate Cleaned(a: seq<Vertex>, base: seq<Vertex>)
  {
    |base| == |a| && forall i :: 0 <= i < |a| ==> base[i] == a[i].(visited := false, content := ' ')
  }

  /**
   * In a cleaned generated maze the probes are safe, the tree still spans
   * it, and visiting the entry sets up the search.
   */
  lemma SolveSetup(a: seq<Vertex>, base: seq<Vertex>, w: nat, h: nat, order: seq<nat>, link: seq<nat>)
    requires Perfect(a, w, h, order, link) && Cleaned(a, base)
    ensures |base| == w * h && Safe(WallsOf(base), w) && Spans(WallsOf(base), w, order, link)
    ensures Solving(Visit(base, 0), base, WallsOf(base), w, [], 0, [0])
  {
    SameGridKeeps(a, base, w, h);
    SolvingStart(base, WallsOf(base), w);
  }

  /**
   * Marking the final stack `route` with '+' once the search reached the
   * exit leaves a generated maze with its walls, a solution route, '+'
   * exactly on the route and every route cell visited.
   */
  lemma Solved(a: seq<Vertex>, base: seq<Vertex>, searched: seq<Vertex>, labelled: seq<Vertex>, w: nat, h: nat,
               order: seq<nat>, link: seq<nat>, path: seq<nat>, cur: nat, trail: seq<nat>)
    requires Perfect(a, w, h, order, link) && Cleaned(a, base)
    requires Solving(searched, base, WallsOf(base), w, path, cur, trail) && cur + 1 == |searched|
    requires |labelled| == |searched|
    requires forall i :: 0 <= i < |labelled| ==>
      labelled[i] == if i in path + [cur] then searched[i].(content := '+') else searched[i]
    ensures Perfect(labelled, w, h, order, link) && WallsOf(labelled) == WallsOf(a)
    ensures Solution(WallsOf(labelled), w, path + [cur])
    ensures forall i :: 0 <= i < |labelled| ==> labelled[i].content == (if i in path + [cur] then '+' else ' ')
    ensures forall k :: 0 <= k < |path + [cur]| ==> labelled[(path + [cur])[k]].visited
  {
    assert SameGrid(a, labelled);
    SameGridKeeps(a, labelled, w, h);
    SameGridKeeps(a, base, w, h);
    forall i | 0 <= i < |labelled|
      ensures IsMarker(labelled[i].content)
    {
      assert searched[i].content == ' ';
    }
    PerfectRelabel(a, labelled, w, h, order, link);
  }

  /**
   * A one-cell maze in the state solveMaze leaves (generated, a solution
   * route, '+' exactly on the route, every route cell visited) is drawn as
   * "X   X\nX + X\nX   X\n".
   */
  lemma SolvedOneCell(cs: seq<Vertex>, order: seq<nat>, link: seq<nat>, route: seq<nat>)
    requires Perfect(cs, 1, 1, order, link) && Solution(WallsOf(cs), 1, route)
    requires forall i :: 0 <= i < |cs| ==> cs[i].content == (if i in route then '+' else ' ')
    requires forall k :: 0 <= k < |route| ==> cs[route[k]].visited
    ensures Render(1, 1, cs) == "X   X\nX + X\nX   X\n"
  {
    var ws := WallsOf(cs);
    assert |cs| == 1 && route[0] == 0;
    assert !Has(ws[0], North) && !Has(ws[0], South);
    assert Has(ws[0], East) && Has(ws[0], West);
    SolvedSingleCell(cs);
  }
}
