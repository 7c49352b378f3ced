/**
 * The state buildMaze and buildMazeHelper move through: the fresh graph,
 * the two steps of the depth-first carve (entering a cell, carving towards
 * an unvisited neighbour), the invariant every step keeps, and what it
 * gives once every cell has been entered.
 */
module Generation {
  import opened Grid
  import opened Walls
  import opened Cells
  import opened Spanning
  import opened Drawing

  /** The list buildGraph produces: cell `i` is a fresh vertex labelled `i` with its grid neighbours. */
  function Graph(w: nat, h: nat): seq<Vertex>
    requires w > 0
  {
    seq(w * h, i requires 0 <= i < w * h => NewVertex(i).(neighbors := Neighbors(w, h, i)))
  }

  /** buildMaze's first two statements: the entry loses its north wall, the exit its south wall. */
  function Opened(cs: seq<Vertex>): seq<Vertex>
    requires |cs| > 0
  {
    var c1 := cs[0 := cs[0].(walls := cs[0].walls.(north := false))];
    c1[|cs| - 1 := c1[|cs| - 1].(walls := c1[|cs| - 1].walls.(south := false))]
  }

  /** Entering cell `v`: it becomes visited and shows 'V'. */
  function Entered(cs: seq<Vertex>, v: nat): seq<Vertex>
    requires v < |cs|
  {
    cs[v := cs[v].(visited := true, content := 'V')]
  }

  /** Carving from `v` towards `j`, the direction inferred from the difference of their labels. */
  function Carved(cs: seq<Vertex>, w: nat, v: nat, j: nat): seq<Vertex>
    requires v < |cs| && j < |cs|
  {
    var d := Inferred(w, cs[v].id - cs[j].id);
    var c1 := cs[v := cs[v].(walls := Clear(cs[v].walls, d))];
    c1[j := c1[j].(walls := Clear(c1[j].walls, Opposite(d)))]
  }

  /** The visited cells are exactly the entered ones, each entered once, and they show 'V'. */
  ghost predicate Recorded(cs: seq<Vertex>, order: seq<nat>)
  {
    Distinct(order) &&
    (forall i :: 0 <= i < |cs| ==> (cs[i].visited <==> i in order)) &&
    (forall i :: 0 <= i < |cs| ==> cs[i].content == (if cs[i].visited then 'V' else ' '))
  }

  /**
   * Apart from the entry and the exit, a wall is cleared only between two
   * cells already entered, or about to be entered (`p`).
   */
  ghost predicate TreeOnly(cs: seq<Vertex>, w: nat, p: nat)
  {
    forall x, d :: 0 <= x < |cs| && !Has(cs[x].walls, d) && !Exempt(|cs|, x, d) ==>
      (cs[x].visited || x == p) && 0 <= Across(w, x, d) < |cs| &&
      (cs[Across(w, x, d)].visited || Across(w, x, d) == p)
  }

  /** The entry's north wall and the exit's south wall are open. */
  ghost predicate Gates(cs: seq<Vertex>)
  {
    |cs| > 0 && !cs[0].walls.north && !cs[|cs| - 1].walls.south
  }

  /**
   * The generation invariant: the layout of buildGraph, the entered cells
   * recorded in `order` and linked into a tree by `link`, walls symmetric
   * from width 2 on, walls cleared only inside the tree, and two cleared
   * flags for the gates plus two for each of the `carves` carve steps.
   */
  ghost predicate Building(cs: seq<Vertex>, w: nat, h: nat, order: seq<nat>, link: seq<nat>, carves: nat, p: nat)
  {
    Shaped(cs, w, h) && p < |cs| && Recorded(cs, order) &&
    Linked(WallsOf(cs), w, order, link) &&
    (w >= 2 ==> Consistent(WallsOf(cs), w, h)) &&
    TreeOnly(cs, w, p) && Gates(cs) &&
    OpenTotal(WallsOf(cs)) == 2 + 2 * carves
  }

  /** Every entered cell outside `stack` has had all its neighbours entered. */
  ghost predicate Finished(w: nat, h: nat, order: seq<nat>, stack: seq<nat>)
    requires w > 0
  {
    forall x, y :: x in order && x !in stack && y in Neighbors(w, h, x) ==> y in order
  }

  /**
   * One debugging snapshot: `text` draws the cells `shot`, which are in
   * the generation state right after the last of `entered` was entered,
   * with one carve step fewer than cells entered; walls cleared in `shot`
   * are still cleared in `ws`.
   */
  ghost predicate Shot(w: nat, h: nat, text: string, shot: seq<Vertex>, entered: seq<nat>, links: seq<nat>, ws: seq<Walls>)
  {
    w > 0 && h > 0 && |shot| == w * h && |entered| > 0 && text == Render(w, h, shot) &&
    Building(shot, w, h, entered, links, |entered| - 1, entered[|entered| - 1]) &&
    OnlyClears(WallsOf(shot), ws)
  }

  /** Entry `k` of the log is the snapshot taken once the first `k + 1` cells were entered. */
  ghost predicate ShotsHold(w: nat, h: nat, steps: seq<string>, shots: seq<seq<Vertex>>,
                            order: seq<nat>, link: seq<nat>, ws: seq<Walls>)
  {
    |shots| <= |steps| && |shots| <= |order| && |shots| <= |link| &&
    forall k :: 0 <= k < |shots| ==> Shot(w, h, steps[k], shots[k], order[..k + 1], link[..k + 1], ws)
  }

  /** Each snapshot's cleared walls stay cleared in the next one. */
  ghost predicate Chained(shots: seq<seq<Vertex>>)
  {
    forall k :: 0 <= k < |shots| - 1 ==> OnlyClears(WallsOf(shots[k]), WallsOf(shots[k + 1]))
  }

  /**
   * In debugging mode the k-th recorded text is the maze drawn just after
   * the k-th cell was entered, in the generation state of that moment;
   * walls are only cleared further from one snapshot to the next and on
   * to the current walls `ws`. Otherwise nothing is recorded.
   */
  ghost predicate Snapshots(w: nat, h: nat, debug: bool, steps: seq<string>, shots: seq<seq<Vertex>>,
                            order: seq<nat>, link: seq<nat>, ws: seq<Walls>)
  {
    if debug then
      |steps| == |shots| == |order| == |link| &&
      ShotsHold(w, h, steps, shots, order, link, ws) && Chained(shots)
    else
      steps == []
  }

  /** The fresh graph has the layout of buildGraph and every wall in place. */
  lemma GraphShaped(w: nat, h: nat)
    requires w > 0
    ensures Shaped(Graph(w, h), w, h)
    ensures forall i :: 0 <= i < w * h ==> Graph(w, h)[i].walls == Closed && !Graph(w, h)[i].visited
    ensures forall i :: 0 <= i < w * h ==> Graph(w, h)[i].content == ' '
  {
  }

  lemma {:induction false} OpenedTotal(cs: seq<Vertex>)
    requires |cs| > 0 && forall i :: 0 <= i < |cs| ==> cs[i].walls == Closed
    ensures OpenTotal(WallsOf(Opened(cs))) == 2
  {
    var n := |cs|;
    var ws0 := WallsOf(cs);
    OpenTotalClosed(ws0);
    var ws1 := ws0[0 := ws0[0].(north := false)];
    OpenTotalUpdate(ws0, 0, ws0[0].(north := false));
    var ws2 := ws1[n - 1 := ws1[n - 1].(south := false)];
    OpenTotalUpdate(ws1, n - 1, ws1[n - 1].(south := false));
    assert WallsOf(Opened(cs)) == ws2;
  }

  /** The gates of the fresh graph are its only cleared walls; the layout and the blank contents stay. */
  lemma OpenedLayout(w: nat, h: nat)
    requires w > 0 && h > 0
    ensures |Graph(w, h)| > 0
    ensures Shaped(Opened(Graph(w, h)), w, h) && Recorded(Opened(Graph(w, h)), [])
    ensures TreeOnly(Opened(Graph(w, h)), w, 0) && Gates(Opened(Graph(w, h)))
  {
    GraphShaped(w, h);
    LabelBound(w, h, 0, 0);
    var cs := Opened(Graph(w, h));
    var n := |cs|;
    forall x, d | 0 <= x < n && !Has(cs[x].walls, d)
      ensures Exempt(n, x, d)
    {
    }
  }

  /** With only the gates cleared, the walls of the fresh graph are symmetric. */
  lemma OpenedConsistent(w: nat, h: nat)
    requires w > 0 && h > 0
    ensures Consistent(WallsOf(Opened(Graph(w, h))), w, h)
  {
    GraphShaped(w, h);
    LabelBound(w, h, 0, 0);
    var s := WallsOf(Opened(Graph(w, h)));
    assert forall x :: 0 < x < |s| ==> s[x].north;
    assert forall x :: 0 <= x && x + 1 < |s| ==> s[x].south;
  }

  /** Opening the gates of the fresh graph establishes the invariant before the first cell is entered. */
  lemma InitialBuilding(w: nat, h: nat)
    requires w > 0 && h > 0
    ensures |Graph(w, h)| > 0
    ensures Building(Opened(Graph(w, h)), w, h, [], [], 0, 0)
  {
    OpenedLayout(w, h);
    OpenedConsistent(w, h);
    GraphShaped(w, h);
    OpenedTotal(Graph(w, h));
  }

  lemma LinkedExtend(ws: seq<Walls>, w: nat, order: seq<nat>, link: seq<nat>, v: nat, from: nat)
    requires Linked(ws, w, order, link) && v < |ws|
    requires order == [] ==> v == 0
    requires order != [] ==> from < |order| && Opens(ws, w, order[from], v)
    ensures Linked(ws, w, order + [v], link + [from])
  {
  }

  /** Entering `v` keeps the layout, the gates and the walls, and walls stay cleared only inside the tree. */
  lemma EnteredLayout(cs: seq<Vertex>, w: nat, h: nat, v: nat)
    requires Shaped(cs, w, h) && v < |cs| && TreeOnly(cs, w, v) && Gates(cs)
    ensures Shaped(Entered(cs, v), w, h) && TreeOnly(Entered(cs, v), w, v) && Gates(Entered(cs, v))
    ensures WallsOf(Entered(cs, v)) == WallsOf(cs)
  {
  }

  /**
   * Entering an unvisited cell, reached from the entered cell at position
   * `from` through an open passage (or the entry, first), keeps the
   * invariant and records the cell.
   */
  lemma EnterKeeps(cs: seq<Vertex>, w: nat, h: nat, order: seq<nat>, link: seq<nat>, carves: nat, v: nat, from: nat)
    requires Building(cs, w, h, order, link, carves, v) && !cs[v].visited
    requires order == [] ==> v == 0
    requires order != [] ==> from < |order| && Opens(WallsOf(cs), w, order[from], v)
    ensures Building(Entered(cs, v), w, h, order + [v], link + [from], carves, v)
  {
    EnteredLayout(cs, w, h, v);
    LinkedExtend(WallsOf(cs), w, order, link, v, from);
    var es := Entered(cs, v);
    assert Recorded(es, order + [v]) by {
      assert v !in order;
    }
  }

  /** The carve step only clears walls, and it clears those of `CarveWalls`. */
  lemma CarvedWalls(cs: seq<Vertex>, w: nat, h: nat, v: nat, j: nat)
    requires Shaped(cs, w, h) && v < |cs| && j < |cs| && v != j
    ensures WallsOf(Carved(cs, w, v, j)) == CarveWalls(WallsOf(cs), w, v, j)
    ensures forall i :: 0 <= i < |cs| ==> Carved(cs, w, v, j)[i] == cs[i].(walls := Carved(cs, w, v, j)[i].walls)
  {
  }

  /** Before the carve step, both facing walls are present: `j` has never been entered. */
  lemma CarveFacesWalls(cs: seq<Vertex>, w: nat, h: nat, v: nat, j: nat)
    requires Shaped(cs, w, h) && v < |cs| && TreeOnly(cs, w, v) && cs[v].visited
    requires j in cs[v].neighbors && j < |cs| && !cs[j].visited
    ensures v != j
    ensures Has(cs[v].walls, Inferred(w, v - j)) && Has(cs[j].walls, Opposite(Inferred(w, v - j)))
  {
    var d := Inferred(w, v - j);
    ShapedAt(cs, w, h, v);
    NeighborsBounded(w, h, v);
    AcrossInferred(w, h, v, j);
    assert !Exempt(|cs|, v, d) && !Exempt(|cs|, j, Opposite(d));
  }

  /** After the carve step, walls are still cleared only inside the tree, with `j` pending. */
  lemma CarveTreeOnly(cs: seq<Vertex>, w: nat, h: nat, v: nat, j: nat)
    requires Shaped(cs, w, h) && v < |cs| && TreeOnly(cs, w, v) && cs[v].visited
    requires j in cs[v].neighbors && j < |cs|
    ensures TreeOnly(Carved(cs, w, v, j), w, j)
  {
    var ws := WallsOf(cs);
    var t := Carved(cs, w, v, j);
    var d := Inferred(w, v - j);
    ShapedAt(cs, w, h, v);
    NeighborsBounded(w, h, v);
    AcrossInferred(w, h, v, j);
    CarvedWalls(cs, w, h, v, j);
    CarveClearsPair(ws, w, v, j);
    forall x, e | 0 <= x < |t| && !Has(t[x].walls, e) && !Exempt(|t|, x, e)
      ensures (t[x].visited || x == j) && 0 <= Across(w, x, e) < |t| &&
        (t[Across(w, x, e)].visited || Across(w, x, e) == j)
    {
      assert t[x].walls == WallsOf(t)[x];
      if !(x == v && e == d) && !(x == j && e == Opposite(d)) {
        assert !Has(cs[x].walls, e);
      }
    }
  }

  /** Open gates stay open while walls are only cleared. */
  lemma GatesKept(cs: seq<Vertex>, t: seq<Vertex>)
    requires Gates(cs) && OnlyClears(WallsOf(cs), WallsOf(t))
    ensures Gates(t)
  {
    var ws, vs := WallsOf(cs), WallsOf(t);
    var n := |cs|;
    assert !Has(ws[0], North) && !Has(ws[n - 1], South);
    assert !Has(vs[0], North) && !Has(vs[n - 1], South);
  }

  /** The carve step keeps the tree linked, the walls symmetric, and adds two cleared flags. */
  lemma CarveKeepsWalls(cs: seq<Vertex>, w: nat, h: nat, order: seq<nat>, link: seq<nat>, carves: nat, v: nat, j: nat)
    requires Shaped(cs, w, h) && v < |cs| && TreeOnly(cs, w, v) && cs[v].visited
    requires Linked(WallsOf(cs), w, order, link) && (w >= 2 ==> Consistent(WallsOf(cs), w, h))
    requires OpenTotal(WallsOf(cs)) == 2 + 2 * carves
    requires j in cs[v].neighbors && j < |cs| && !cs[j].visited
    ensures Linked(WallsOf(Carved(cs, w, v, j)), w, order, link)
    ensures w >= 2 ==> Consistent(WallsOf(Carved(cs, w, v, j)), w, h)
    ensures OpenTotal(WallsOf(Carved(cs, w, v, j))) == 2 + 2 * (carves + 1)
    ensures Opens(WallsOf(Carved(cs, w, v, j)), w, v, j)
  {
    var ws := WallsOf(cs);
    var t := Carved(cs, w, v, j);
    ShapedAt(cs, w, h, v);
    CarveFacesWalls(cs, w, h, v, j);
    CarvedWalls(cs, w, h, v, j);
    CarveOnlyClears(ws, w, v, j);
    LinkedKept(ws, WallsOf(t), w, order, link);
    if w >= 2 {
      CarveKeepsConsistent(ws, w, h, v, j);
    }
    CarveCountsTwo(ws, w, v, j);
    CarveOpensBoth(ws, w, h, v, j);
  }

  /** The carve step changes only walls, so the layout, the record and the gates are kept. */
  lemma CarveKeepsRest(cs: seq<Vertex>, w: nat, h: nat, order: seq<nat>, v: nat, j: nat)
    requires Shaped(cs, w, h) && Recorded(cs, order) && Gates(cs) && v < |cs| && j < |cs| && v != j
    ensures Shaped(Carved(cs, w, v, j), w, h) && Recorded(Carved(cs, w, v, j), order) && Gates(Carved(cs, w, v, j))
    ensures forall i :: 0 <= i < |cs| ==> Carved(cs, w, v, j)[i] == cs[i].(walls := Carved(cs, w, v, j)[i].walls)
  {
    CarvedWalls(cs, w, h, v, j);
    CarveOnlyClears(WallsOf(cs), w, v, j);
    GatesKept(cs, Carved(cs, w, v, j));
  }

  /**
   * Carving from the current, visited cell `v` towards an unvisited
   * neighbour `j` keeps the invariant with one more carve step, `j` now
   * pending, and the passage from `v` to `j` open.
   */
  lemma CarveKeeps(cs: seq<Vertex>, w: nat, h: nat, order: seq<nat>, link: seq<nat>, carves: nat, v: nat, j: nat)
    requires Building(cs, w, h, order, link, carves, v) && cs[v].visited
    requires j in cs[v].neighbors && j < |cs| && !cs[j].visited
    ensures Building(Carved(cs, w, v, j), w, h, order, link, carves + 1, j)
    ensures Opens(WallsOf(Carved(cs, w, v, j)), w, v, j)
    ensures forall i :: 0 <= i < |cs| ==> Carved(cs, w, v, j)[i] == cs[i].(walls := Carved(cs, w, v, j)[i].walls)
  {
    CarveKeepsWalls(cs, w, h, order, link, carves, v, j);
    CarveTreeOnly(cs, w, h, v, j);
    CarveKeepsRest(cs, w, h, order, v, j);
  }

  /** A pending cell that has been entered may be exchanged for any other entered cell. */
  lemma Repoint(cs: seq<Vertex>, w: nat, h: nat, order: seq<nat>, link: seq<nat>, carves: nat, p: nat, q: nat)
    requires Building(cs, w, h, order, link, carves, p) && cs[p].visited
    requires q < |cs| && cs[q].visited
    ensures Building(cs, w, h, order, link, carves, q)
  {
  }

  /** Fewer entered cells than cells, strictly fewer while one is still unvisited. */
  lemma BuildingBounded(cs: seq<Vertex>, order: seq<nat>, u: nat)
    requires Recorded(cs, order) && forall k :: 0 <= k < |order| ==> order[k] < |cs|
    ensures |order| <= |cs|
    ensures u < |cs| && !cs[u].visited ==> |order| < |cs|
  {
    Pigeonhole(order, |cs|);
    if u < |cs| && !cs[u].visited {
      var more := order + [u];
      assert Distinct(more);
      Pigeonhole(more, |cs|);
    }
  }

  /** Entering a cell with an empty stack of pending cells keeps the finished ones finished. */
  lemma FinishedEnter(w: nat, h: nat, order: seq<nat>, stack: seq<nat>, v: nat)
    requires w > 0 && Finished(w, h, order, stack)
    ensures Finished(w, h, order + [v], stack + [v])
  {
    forall x, y | x in order + [v] && x !in stack + [v] && y in Neighbors(w, h, x)
      ensures y in order + [v]
    {
      assert x in order;
    }
  }

  /** Once `v` has no unvisited neighbour, it is finished too. */
  lemma FinishedLeave(w: nat, h: nat, order: seq<nat>, stack: seq<nat>, v: nat)
    requires w > 0 && Finished(w, h, order, stack + [v])
    requires forall y :: y in Neighbors(w, h, v) ==> y in order
    ensures Finished(w, h, order, stack)
  {
  }

  /** The cells just after entering `v` make a snapshot, with walls only cleared on to themselves. */
  lemma ShotTaken(w: nat, h: nat, cs: seq<Vertex>, order: seq<nat>, link: seq<nat>, v: nat, from: nat)
    requires w > 0 && h > 0 && Building(cs, w, h, order + [v], link + [from], |order|, v)
    ensures Shot(w, h, Render(w, h, cs), cs, order + [v], link + [from], WallsOf(cs))
  {
    OnlyClearsReflexive(WallsOf(cs));
  }

  /** A snapshot's cleared walls are still cleared in the walls it is compared with. */
  lemma ShotClears(w: nat, h: nat, text: string, shot: seq<Vertex>, entered: seq<nat>, links: seq<nat>, ws: seq<Walls>)
    requires Shot(w, h, text, shot, entered, links, ws)
    ensures OnlyClears(WallsOf(shot), ws)
  {
  }

  /** Logging a new snapshot keeps the earlier ones as they were. */
  lemma ShotsExtend(w: nat, h: nat, steps: seq<string>, shots: seq<seq<Vertex>>, order: seq<nat>, link: seq<nat>,
                    ws: seq<Walls>, text: string, cs: seq<Vertex>, v: nat, from: nat)
    requires ShotsHold(w, h, steps, shots, order, link, ws) && |steps| == |shots| == |order| == |link|
    requires Shot(w, h, text, cs, order + [v], link + [from], ws)
    ensures ShotsHold(w, h, steps + [text], shots + [cs], order + [v], link + [from], ws)
  {
    var t2, s2, o, l := steps + [text], shots + [cs], order + [v], link + [from];
    forall k | 0 <= k < |s2|
      ensures Shot(w, h, t2[k], s2[k], o[..k + 1], l[..k + 1], ws)
    {
      if k < |shots| {
        assert o[..k + 1] == order[..k + 1] && l[..k + 1] == link[..k + 1];
      } else {
        assert o[..k + 1] == o && l[..k + 1] == l;
      }
    }
  }

  /** A snapshot whose walls the previous one's only clear on to extends the chain. */
  lemma ChainExtend(shots: seq<seq<Vertex>>, cs: seq<Vertex>)
    requires Chained(shots) && (|shots| > 0 ==> OnlyClears(WallsOf(shots[|shots| - 1]), WallsOf(cs)))
    ensures Chained(shots + [cs])
  {
  }

  /** Logging the cells just after entering `v` extends the log by one snapshot. */
  lemma SnapshotsAppend(w: nat, h: nat, debug: bool, steps: seq<string>, shots: seq<seq<Vertex>>,
                        order: seq<nat>, link: seq<nat>, cs: seq<Vertex>, v: nat, from: nat)
    requires debug && Snapshots(w, h, debug, steps, shots, order, link, WallsOf(cs))
    requires w > 0 && h > 0 && |cs| == w * h
    requires Shot(w, h, Render(w, h, cs), cs, order + [v], link + [from], WallsOf(cs))
    ensures Snapshots(w, h, debug, steps + [Render(w, h, cs)], shots + [cs], order + [v], link + [from], WallsOf(cs))
  {
    ShotsExtend(w, h, steps, shots, order, link, WallsOf(cs), Render(w, h, cs), cs, v, from);
    if |shots| > 0 {
      var k := |shots| - 1;
      assert Shot(w, h, steps[k], shots[k], order[..k + 1], link[..k + 1], WallsOf(cs));
      ShotClears(w, h, steps[k], shots[k], order[..k + 1], link[..k + 1], WallsOf(cs));
    }
    ChainExtend(shots, cs);
  }

  /** Clearing more walls keeps every snapshot's walls below the current ones. */
  lemma SnapshotsCarried(w: nat, h: nat, debug: bool, steps: seq<string>, shots: seq<seq<Vertex>>,
                         order: seq<nat>, link: seq<nat>, ws: seq<Walls>, vs: seq<Walls>)
    requires Snapshots(w, h, debug, steps, shots, order, link, ws) && OnlyClears(ws, vs)
    ensures Snapshots(w, h, debug, steps, shots, order, link, vs)
  {
    if debug {
      forall k | 0 <= k < |shots|
        ensures Shot(w, h, steps[k], shots[k], order[..k + 1], link[..k + 1], vs)
      {
        assert Shot(w, h, steps[k], shots[k], order[..k + 1], link[..k + 1], ws);
        OnlyClearsTransitive(WallsOf(shots[k]), ws, vs);
      }
    }
  }

  /**
   * What buildMazeHelper keeps while it loops in cell `v`: the invariant
   * with `v` pending and entered, one more cell entered than carve steps,
   * `v` entered right after the cells `outer` entered before the call, and
   * every entered cell off the call stack finished.
   */
  ghost predicate Carving(cs: seq<Vertex>, w: nat, h: nat, order: seq<nat>, link: seq<nat>, carves: nat,
                          v: nat, stack: seq<nat>, outer: seq<nat>)
  {
    w > 0 && Building(cs, w, h, order, link, carves, v) && cs[v].visited &&
    carves + 1 == |order| && outer + [v] <= order && |order| <= |cs| &&
    Finished(w, h, order, stack + [v])
  }

  /** Entering `v` at the start of buildMazeHelper sets up the loop state. */
  lemma CarvingStart(cs: seq<Vertex>, w: nat, h: nat, order: seq<nat>, link: seq<nat>, carves: nat,
                     v: nat, stack: seq<nat>, from: nat)
    requires w > 0 && Building(cs, w, h, order, link, carves, v) && !cs[v].visited
    requires order == [] ==> v == 0
    requires order != [] ==> from < |order| && Opens(WallsOf(cs), w, order[from], v)
    requires carves == |order| && Finished(w, h, order, stack)
    ensures Carving(Entered(cs, v), w, h, order + [v], link + [from], carves, v, stack, order)
    ensures Recorded(Entered(cs, v), order + [v]) && |Entered(cs, v)| == w * h
    ensures WallsOf(Entered(cs, v)) == WallsOf(cs)
    ensures forall k :: 0 <= k < |Entered(cs, v)[v].neighbors| ==> Entered(cs, v)[v].neighbors[k] < |Entered(cs, v)|
  {
    EnterKeeps(cs, w, h, order, link, carves, v, from);
    EnteredLayout(cs, w, h, v);
    FinishedEnter(w, h, order, stack, v);
    BuildingBounded(Entered(cs, v), order + [v], v);
    ShapedAt(Entered(cs, v), w, h, v);
    NeighborsBounded(w, h, v);
  }

  /**
   * Carving from `v` towards an unvisited neighbour `j` gives the state the
   * recursive call on `j` needs: `j` pending and reached through an open
   * passage from `v`, and fewer cells entered than there are cells.
   */
  lemma CarvingStep(cs: seq<Vertex>, w: nat, h: nat, order: seq<nat>, link: seq<nat>, carves: nat,
                    v: nat, stack: seq<nat>, outer: seq<nat>, j: nat, t: seq<Vertex>)
    requires Carving(cs, w, h, order, link, carves, v, stack, outer)
    requires j in cs[v].neighbors && j < |cs| && !cs[j].visited && t == Carved(cs, w, v, j)
    ensures w > 0 && Building(t, w, h, order, link, carves + 1, j) && !t[j].visited
    ensures carves + 1 == |order| && Finished(w, h, order, stack + [v])
    ensures |outer| < |order| < |t| == |cs| && Opens(WallsOf(t), w, order[|outer|], j)
    ensures OnlyClears(WallsOf(cs), WallsOf(t))
  {
    CarveKeeps(cs, w, h, order, link, carves, v, j);
    CarveFacesWalls(cs, w, h, v, j);
    CarvedWalls(cs, w, h, v, j);
    CarveOnlyClears(WallsOf(cs), w, v, j);
    BuildingBounded(cs, order, j);
    assert order[|outer|] == v;
  }

  /** Once the recursive call on `j` returns, `v` is pending again and more cells have been entered. */
  lemma CarvingResume(cs: seq<Vertex>, w: nat, h: nat, order: seq<nat>, link: seq<nat>, carves: nat,
                      v: nat, stack: seq<nat>, outer: seq<nat>, entered: seq<nat>, j: nat)
    requires w > 0 && Building(cs, w, h, order, link, carves, j) && carves + 1 == |order|
    requires outer + [v] <= entered && entered + [j] <= order && Finished(w, h, order, stack + [v])
    requires v < |cs|
    ensures Carving(cs, w, h, order, link, carves, v, stack, outer) && |entered| < |order|
    ensures forall k :: 0 <= k < |cs[v].neighbors| ==> cs[v].neighbors[k] < |cs|
  {
    assert entered[|outer|] == v && order[|outer|] == v && order[|entered|] == j;
    Repoint(cs, w, h, order, link, carves, j, v);
    BuildingBounded(cs, order, v);
    ShapedAt(cs, w, h, v);
    NeighborsBounded(w, h, v);
  }

  /** When `v` has no unvisited neighbour left, it is finished and buildMazeHelper returns. */
  lemma CarvingDone(cs: seq<Vertex>, w: nat, h: nat, order: seq<nat>, link: seq<nat>, carves: nat,
                    v: nat, stack: seq<nat>, outer: seq<nat>)
    requires Carving(cs, w, h, order, link, carves, v, stack, outer)
    requires forall k :: 0 <= k < |cs[v].neighbors| ==> cs[v].neighbors[k] < |cs| && cs[cs[v].neighbors[k]].visited
    ensures Building(cs, w, h, order, link, carves, v)
    ensures carves + 1 == |order| && outer + [v] <= order && Finished(w, h, order, stack)
  {
    ShapedAt(cs, w, h, v);
    NeighborsBounded(w, h, v);
    forall y | y in Neighbors(w, h, v)
      ensures y in order
    {
      var k :| 0 <= k < |cs[v].neighbors| && cs[v].neighbors[k] == y;
    }
    FinishedLeave(w, h, order, stack, v);
  }

  /**
   * The grid is connected: if the entry is entered and every entered cell
   * has had all its neighbours entered, every cell has been entered.
   */
  lemma {:induction false} GridClosed(w: nat, h: nat, order: seq<nat>, i: nat)
    requires w > 0 && i < w * h && 0 in order && Finished(w, h, order, [])
    ensures i in order
    decreases i
  {
    if i > 0 {
      LabelOf(w, i);
      if Col(w, i) > 0 {
        StepWest(w, i);
        GridClosed(w, h, order, i - 1);
        EastListed(w, h, i - 1);
      } else {
        StepNorth(w, i);
        GridClosed(w, h, order, i - w);
        SouthListed(w, h, i - w);
      }
    }
  }

  /** Generation ends with every cell entered, so the tree spans the maze and `n - 1` carve steps were made. */
  lemma Complete(cs: seq<Vertex>, w: nat, h: nat, order: seq<nat>, link: seq<nat>, carves: nat, p: nat)
    requires Building(cs, w, h, order, link, carves, p) && |order| == carves + 1
    requires Finished(w, h, order, [])
    ensures Spans(WallsOf(cs), w, order, link)
    ensures carves + 1 == |cs| && OpenTotal(WallsOf(cs)) == 2 * |cs|
    ensures forall i :: 0 <= i < |cs| ==> cs[i].visited && cs[i].content == 'V'
    ensures Safe(WallsOf(cs), w)
  {
    assert order[0] == 0;
    forall i | 0 <= i < |cs|
      ensures i in order
    {
      GridClosed(w, h, order, i);
    }
    Pigeonhole(order, |cs|);
  }

  /**
   * A generated maze: the layout of buildGraph, a spanning tree of open
   * passages, every cleared wall leading into the maze except at the
   * gates, symmetric walls from width 2 on, exactly `2n` cleared flags
   * (two per tree passage and the two gates), and only the display
   * markers as contents.
   */
  ghost predicate Perfect(cs: seq<Vertex>, w: nat, h: nat, order: seq<nat>, link: seq<nat>)
  {
    h > 0 && Shaped(cs, w, h) &&
    Spans(WallsOf(cs), w, order, link) && Safe(WallsOf(cs), w) &&
    (w >= 2 ==> Consistent(WallsOf(cs), w, h)) &&
    Gates(cs) && OpenTotal(WallsOf(cs)) == 2 * |cs| && MarkersOnly(cs)
  }

  /** Changing visited flags and contents to display markers leaves a generated maze generated. */
  lemma PerfectRelabel(a: seq<Vertex>, b: seq<Vertex>, w: nat, h: nat, order: seq<nat>, link: seq<nat>)
    requires Perfect(a, w, h, order, link) && SameGrid(a, b) && MarkersOnly(b)
    ensures Perfect(b, w, h, order, link)
  {
    SameGridKeeps(a, b, w, h);
  }
}
