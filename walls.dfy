/**
 * The four wall flags of a cell, the passages they open, and the carve
 * step of buildMazeHelper, which clears one wall of the current cell and
 * the facing wall of the chosen neighbour.
 */
module Walls {
  import opened Grid

  /** `true` means the wall is present. */
  datatype Walls = Walls(north: bool, east: bool, south: bool, west: bool)

  /** All four walls present: how the Vertex constructor leaves a cell. */
  const Closed: Walls := Walls(true, true, true, true)

  function Has(ws: Walls, d: Dir): bool
  {
    match d
    case North => ws.north
    case East => ws.east
    case South => ws.south
    case West => ws.west
  }

  /** Clearing a wall removes that one flag and leaves the other three. */
  function Clear(ws: Walls, d: Dir): (r: Walls)
    ensures !Has(r, d)
    ensures forall e :: e != d ==> Has(r, e) == Has(ws, e)
  {
    match d
    case North => ws.(north := false)
    case East => ws.(east := false)
    case South => ws.(south := false)
    case West => ws.(west := false)
  }

  /** The number of cleared flags of one cell. */
  function OpenFlags(ws: Walls): nat
  {
    (if ws.north then 0 else 1) + (if ws.east then 0 else 1) +
    (if ws.south then 0 else 1) + (if ws.west then 0 else 1)
  }

  /** The number of cleared flags over a whole maze. */
  function OpenTotal(s: seq<Walls>): nat
  {
    if s == [] then 0 else OpenTotal(s[..|s| - 1]) + OpenFlags(s[|s| - 1])
  }

  /** Clearing a present wall adds exactly one cleared flag. */
  lemma ClearCountsOne(ws: Walls, d: Dir)
    requires Has(ws, d)
    ensures OpenFlags(Clear(ws, d)) == OpenFlags(ws) + 1
  {
  }

  /** A fully walled maze has no cleared flag. */
  lemma {:induction false} OpenTotalClosed(s: seq<Walls>)
    requires forall x :: 0 <= x < |s| ==> s[x] == Closed
    ensures OpenTotal(s) == 0
  {
    if s != [] {
      OpenTotalClosed(s[..|s| - 1]);
    }
  }

  /** Replacing one cell's walls changes the total by the difference of that cell's counts. */
  lemma {:induction false} OpenTotalUpdate(s: seq<Walls>, x: nat, v: Walls)
    requires x < |s|
    ensures OpenTotal(s[x := v]) + OpenFlags(s[x]) == OpenTotal(s) + OpenFlags(v)
  {
    var t := s[x := v];
    if x == |s| - 1 {
      assert t[..|t| - 1] == s[..|s| - 1];
    } else {
      assert t[..|t| - 1] == s[..|s| - 1][x := v];
      OpenTotalUpdate(s[..|s| - 1], x, v);
    }
  }

  /**
   * A move through a cleared wall, by label arithmetic as the solver
   * computes it: east to `a + 1`, south to `a + w`, west to `a - 1`,
   * north to `a - w`.
   */
  predicate Opens(s: seq<Walls>, w: nat, a: nat, b: nat)
    requires a < |s|
  {
    (b == a + 1 && !s[a].east) || (b == a + w && !s[a].south) ||
    (b + 1 == a && !s[a].west) || (b + w == a && !s[a].north)
  }

  /** Through a cleared wall, the label across is reached. */
  lemma OpensAcross(s: seq<Walls>, w: nat, a: nat, d: Dir)
    requires a < |s| && !Has(s[a], d) && Across(w, a, d) >= 0
    ensures Opens(s, w, a, Across(w, a, d))
  {
  }

  /** The entry's north wall and the exit's south wall lead out of the maze. */
  predicate Exempt(n: nat, x: nat, d: Dir)
  {
    (x == 0 && d == North) || (x + 1 == n && d == South)
  }

  /**
   * Every cleared wall other than the entry and the exit leads to a cell
   * of the maze, so the solver's probes stay inside `myMaze`.
   */
  ghost predicate Safe(s: seq<Walls>, w: nat)
  {
    forall x, d :: 0 <= x < |s| && !Has(s[x], d) ==> Exempt(|s|, x, d) || 0 <= Across(w, x, d) < |s|
  }

  /** Safety, one direction at a time, in the form the solver's probes use. */
  lemma SafeProbes(s: seq<Walls>, w: nat, x: nat)
    requires Safe(s, w) && x < |s|
    ensures !s[x].east ==> x + 1 < |s|
    ensures !s[x].west ==> x >= 1
    ensures !s[x].north ==> x >= w || x == 0
    ensures !s[x].south ==> x + w < |s| || x + 1 == |s|
  {
    assert Has(s[x], East) == s[x].east && Has(s[x], West) == s[x].west;
    assert Has(s[x], North) == s[x].north && Has(s[x], South) == s[x].south;
  }

  /** Facing walls of horizontally adjacent cells agree. */
  ghost predicate RowsAgree(s: seq<Walls>, w: nat)
    requires w > 0
  {
    forall x :: 0 <= x && x + 1 < |s| && Col(w, x) + 1 < w ==> s[x].east == s[x + 1].west
  }

  /** Facing walls of vertically adjacent cells agree. */
  ghost predicate ColumnsAgree(s: seq<Walls>, w: nat)
  {
    forall x :: 0 <= x && x + w < |s| ==> s[x].south == s[x + w].north
  }

  /** The west and east borders are closed. */
  ghost predicate SidesClosed(s: seq<Walls>, w: nat)
    requires w > 0
  {
    (forall x :: 0 <= x < |s| && Col(w, x) == 0 ==> s[x].west) &&
    (forall x :: 0 <= x < |s| && Col(w, x) + 1 == w ==> s[x].east)
  }

  /** The north and south borders are closed, except at the entry and the exit. */
  ghost predicate EndsClosed(s: seq<Walls>, w: nat)
  {
    (forall x :: 0 < x < |s| && x < w ==> s[x].north) &&
    (forall x :: 0 <= x && x + 1 < |s| && |s| < x + w + 1 ==> s[x].south)
  }

  /**
   * Wall symmetry on the geometric grid: facing walls of two adjacent cells
   * agree, and the border is closed except at the entry and the exit.
   */
  ghost predicate Consistent(s: seq<Walls>, w: nat, h: nat)
    requires w > 0
  {
    |s| == w * h && RowsAgree(s, w) && ColumnsAgree(s, w) && SidesClosed(s, w) && EndsClosed(s, w)
  }

  /** `t` is `s` with possibly more walls cleared and none put back. */
  ghost predicate OnlyClears(s: seq<Walls>, t: seq<Walls>)
  {
    |s| == |t| &&
    forall x, d :: 0 <= x < |s| && !Has(s[x], d) ==> !Has(t[x], d)
  }

  lemma OnlyClearsReflexive(s: seq<Walls>)
    ensures OnlyClears(s, s)
  {
  }

  lemma OnlyClearsTransitive(s: seq<Walls>, t: seq<Walls>, u: seq<Walls>)
    requires OnlyClears(s, t) && OnlyClears(t, u)
    ensures OnlyClears(s, u)
  {
  }

  /** A passage, once open, stays open while walls are only cleared. */
  lemma OpensKept(s: seq<Walls>, t: seq<Walls>, w: nat, a: nat, b: nat)
    requires OnlyClears(s, t) && a < |s| && Opens(s, w, a, b)
    ensures Opens(t, w, a, b)
  {
    assert Has(s[a], East) == s[a].east && Has(s[a], West) == s[a].west;
    assert Has(s[a], North) == s[a].north && Has(s[a], South) == s[a].south;
    assert Has(t[a], East) == t[a].east && Has(t[a], West) == t[a].west;
    assert Has(t[a], North) == t[a].north && Has(t[a], South) == t[a].south;
  }

  /**
   * One carve step from cell `i` to its chosen neighbour `j`, with the
   * direction inferred from the label difference exactly as written:
   * the wall of `i` in that direction and the opposite wall of `j` are cleared.
   */
  function CarveWalls(s: seq<Walls>, w: nat, i: nat, j: nat): seq<Walls>
    requires i < |s| && j < |s|
  {
    var d := Inferred(w, i - j);
    s[i := Clear(s[i], d)][j := Clear(s[j], Opposite(d))]
  }

  /** The carve step clears exactly the two facing flags and no other. */
  lemma CarveClearsPair(s: seq<Walls>, w: nat, i: nat, j: nat)
    requires i < |s| && j < |s| && i != j
    ensures var t, d := CarveWalls(s, w, i, j), Inferred(w, i - j);
      |t| == |s| && !Has(t[i], d) && !Has(t[j], Opposite(d)) &&
      (forall e :: e != d ==> Has(t[i], e) == Has(s[i], e)) &&
      (forall e :: e != Opposite(d) ==> Has(t[j], e) == Has(s[j], e)) &&
      (forall x :: 0 <= x < |s| && x != i && x != j ==> t[x] == s[x])
  {
  }

  lemma CarveOnlyClears(s: seq<Walls>, w: nat, i: nat, j: nat)
    requires i < |s| && j < |s| && i != j
    ensures OnlyClears(s, CarveWalls(s, w, i, j))
  {
    CarveClearsPair(s, w, i, j);
  }

  /** After the carve step the passage is open both ways. */
  lemma CarveOpensBoth(s: seq<Walls>, w: nat, h: nat, i: nat, j: nat)
    requires w > 0 && |s| == w * h && i < |s| && j in Neighbors(w, h, i)
    ensures j < |s| && i != j
    ensures Opens(CarveWalls(s, w, i, j), w, i, j) && Opens(CarveWalls(s, w, i, j), w, j, i)
  {
    NeighborsBounded(w, h, i);
    AcrossInferred(w, h, i, j);
    CarveClearsPair(s, w, i, j);
    var t, d := CarveWalls(s, w, i, j), Inferred(w, i - j);
    OpensAcross(t, w, i, d);
    OpensAcross(t, w, j, Opposite(d));
  }

  /** The carve step keeps every cleared wall leading into the maze. */
  lemma CarveKeepsSafe(s: seq<Walls>, w: nat, h: nat, i: nat, j: nat)
    requires w > 0 && |s| == w * h && i < |s| && j in Neighbors(w, h, i) && Safe(s, w)
    ensures j < |s| && Safe(CarveWalls(s, w, i, j), w)
  {
    NeighborsBounded(w, h, i);
    AcrossInferred(w, h, i, j);
    CarveClearsPair(s, w, i, j);
    var t, dd := CarveWalls(s, w, i, j), Inferred(w, i - j);
    forall x, d | 0 <= x < |t| && !Has(t[x], d)
      ensures Exempt(|t|, x, d) || 0 <= Across(w, x, d) < |t|
    {
      if !(x == i && d == dd) && !(x == j && d == Opposite(dd)) {
        assert !Has(s[x], d);
      }
    }
  }

  /** When both facing walls were present, the carve step adds exactly two cleared flags. */
  lemma CarveCountsTwo(s: seq<Walls>, w: nat, i: nat, j: nat)
    requires i < |s| && j < |s| && i != j
    requires Has(s[i], Inferred(w, i - j)) && Has(s[j], Opposite(Inferred(w, i - j)))
    ensures OpenTotal(CarveWalls(s, w, i, j)) == OpenTotal(s) + 2
  {
    var d := Inferred(w, i - j);
    var s1 := s[i := Clear(s[i], d)];
    OpenTotalUpdate(s, i, Clear(s[i], d));
    ClearCountsOne(s[i], d);
    OpenTotalUpdate(s1, j, Clear(s[j], Opposite(d)));
    ClearCountsOne(s[j], Opposite(d));
  }

  /** The walls after opening the passage between `x` and its east neighbour `x + 1`. */
  function EastPassage(s: seq<Walls>, x: nat): seq<Walls>
    requires x + 1 < |s|
  {
    s[x := s[x].(east := false)][x + 1 := s[x + 1].(west := false)]
  }

  /** The walls after opening the passage between `x` and its south neighbour `x + w`. */
  function SouthPassage(s: seq<Walls>, w: nat, x: nat): seq<Walls>
    requires x + w < |s|
  {
    s[x := s[x].(south := false)][x + w := s[x + w].(north := false)]
  }

  lemma EastPassageRows(s: seq<Walls>, w: nat, x: nat)
    requires w > 0 && RowsAgree(s, w) && x + 1 < |s| && Col(w, x) + 1 < w
    ensures RowsAgree(EastPassage(s, x), w)
  {
  }

  lemma EastPassageColumns(s: seq<Walls>, w: nat, x: nat)
    requires ColumnsAgree(s, w) && x + 1 < |s|
    ensures ColumnsAgree(EastPassage(s, x), w)
  {
  }

  lemma EastPassageSides(s: seq<Walls>, w: nat, x: nat)
    requires w > 0 && SidesClosed(s, w) && x + 1 < |s| && Col(w, x) + 1 < w
    ensures SidesClosed(EastPassage(s, x), w)
  {
    StepEast(w, x);
  }

  lemma EastPassageEnds(s: seq<Walls>, w: nat, x: nat)
    requires EndsClosed(s, w) && x + 1 < |s|
    ensures EndsClosed(EastPassage(s, x), w)
  {
  }

  lemma SouthPassageRows(s: seq<Walls>, w: nat, x: nat)
    requires w > 0 && RowsAgree(s, w) && x + w < |s|
    ensures RowsAgree(SouthPassage(s, w, x), w)
  {
  }

  lemma SouthPassageColumns(s: seq<Walls>, w: nat, x: nat)
    requires w > 0 && ColumnsAgree(s, w) && x + w < |s|
    ensures ColumnsAgree(SouthPassage(s, w, x), w)
  {
  }

  lemma SouthPassageSides(s: seq<Walls>, w: nat, x: nat)
    requires w > 0 && SidesClosed(s, w) && x + w < |s|
    ensures SidesClosed(SouthPassage(s, w, x), w)
  {
  }

  lemma SouthPassageEnds(s: seq<Walls>, w: nat, x: nat)
    requires w > 0 && EndsClosed(s, w) && x + w < |s|
    ensures EndsClosed(SouthPassage(s, w, x), w)
  {
  }

  /** Opening an east passage inside a row keeps the walls consistent. */
  lemma EastPassageConsistent(s: seq<Walls>, w: nat, h: nat, x: nat)
    requires w > 0 && Consistent(s, w, h) && x + 1 < |s| && Col(w, x) + 1 < w
    ensures Consistent(EastPassage(s, x), w, h)
  {
    EastPassageRows(s, w, x);
    EastPassageColumns(s, w, x);
    EastPassageSides(s, w, x);
    EastPassageEnds(s, w, x);
  }

  /** Opening a south passage keeps the walls consistent. */
  lemma SouthPassageConsistent(s: seq<Walls>, w: nat, h: nat, x: nat)
    requires w > 0 && Consistent(s, w, h) && x + w < |s|
    ensures Consistent(SouthPassage(s, w, x), w, h)
  {
    SouthPassageRows(s, w, x);
    SouthPassageColumns(s, w, x);
    SouthPassageSides(s, w, x);
    SouthPassageEnds(s, w, x);
  }

  /** From width 2 on, the carve step opens a passage to the east or to the south of one of the two cells. */
  lemma CarveIsPassage(s: seq<Walls>, w: nat, h: nat, i: nat, j: nat)
    requires w >= 2 && |s| == w * h && i < |s| && j in Neighbors(w, h, i)
    ensures j < |s|
    ensures (j == i + 1 && Col(w, i) + 1 < w && CarveWalls(s, w, i, j) == EastPassage(s, i)) ||
            (i == j + 1 && Col(w, j) + 1 < w && CarveWalls(s, w, i, j) == EastPassage(s, j)) ||
            (j == i + w && CarveWalls(s, w, i, j) == SouthPassage(s, w, i)) ||
            (i == j + w && CarveWalls(s, w, i, j) == SouthPassage(s, w, j))
  {
    NeighborsBounded(w, h, i);
    if Col(w, i) > 0 && j == i - 1 {
      StepWest(w, i);
    } else if Col(w, i) + 1 < w && j == i + 1 {
    } else if Row(w, i) > 0 && j == i - w {
    } else {
      assert j == i + w;
    }
  }

  /** From width 2 on, the carve step keeps the walls symmetric and the border closed. */
  lemma CarveKeepsConsistent(s: seq<Walls>, w: nat, h: nat, i: nat, j: nat)
    requires w >= 2 && Consistent(s, w, h) && i < |s| && j in Neighbors(w, h, i)
    ensures j < |s| && Consistent(CarveWalls(s, w, i, j), w, h)
  {
    CarveIsPassage(s, w, h, i, j);
    var t := CarveWalls(s, w, i, j);
    if j == i + 1 && Col(w, i) + 1 < w && t == EastPassage(s, i) {
      EastPassageConsistent(s, w, h, i);
    } else if i == j + 1 && Col(w, j) + 1 < w && t == EastPassage(s, j) {
      EastPassageConsistent(s, w, h, j);
    } else if j == i + w && t == SouthPassage(s, w, i) {
      SouthPassageConsistent(s, w, h, i);
    } else {
      SouthPassageConsistent(s, w, h, j);
    }
  }
}
