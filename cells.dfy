/**
 * One entry of `myMaze`: the Vertex record of the maze, with its label,
 * display content, neighbour list, visited flag and four wall flags.
 */
module Cells {
  import opened Grid
  import opened Walls

  /**
   * A cell. `id` is the vertex's label; `neighbors` holds the labels of
   * the neighbouring cells, and since every label equals the cell's
   * position in `myMaze`, a label is also the index of that neighbour.
   */
  datatype Vertex = Vertex(id: nat, content: char, neighbors: seq<nat>, visited: bool, walls: Walls)

  /** The Vertex constructor: blank content, unvisited, all four walls, no neighbours yet. */
  function NewVertex(id: nat): Vertex
  {
    Vertex(id, ' ', [], false, Closed)
  }

  /** A border cell of buildGraph's grid: a fresh vertex with label 0, marked visited. */
  function Sentinel(): Vertex
  {
    NewVertex(0).(visited := true)
  }

  /** The wall flags of every cell, in label order. */
  function WallsOf(cs: seq<Vertex>): (ws: seq<Walls>)
    ensures |ws| == |cs| && forall x :: 0 <= x < |cs| ==> ws[x] == cs[x].walls
  {
    seq(|cs|, x requires 0 <= x < |cs| => cs[x].walls)
  }

  /** The neighbour list of every cell, in label order. */
  function NeighborLists(cs: seq<Vertex>): (ns: seq<seq<nat>>)
    ensures |ns| == |cs|
  {
    seq(|cs|, i requires 0 <= i < |cs| => cs[i].neighbors)
  }

  /**
   * The layout buildGraph produces: `w * h` cells, labelled by position,
   * with the neighbour lists of the grid (stated as one equality of lists,
   * so that a cell's list is looked up only where a proof asks for it).
   */
  ghost predicate Shaped(cs: seq<Vertex>, w: nat, h: nat)
  {
    w > 0 && |cs| == w * h &&
    (forall i :: 0 <= i < |cs| ==> cs[i].id == i) &&
    NeighborLists(cs) == Adjacency(w, h)
  }

  /** In a laid-out grid, cell `i` holds the neighbour list of label `i`. */
  lemma ShapedAt(cs: seq<Vertex>, w: nat, h: nat, i: nat)
    requires Shaped(cs, w, h) && i < |cs|
    ensures cs[i].id == i && cs[i].neighbors == Neighbors(w, h, i)
  {
    assert NeighborLists(cs)[i] == cs[i].neighbors;
  }

  /** Cells that agree on their labels and neighbour lists are laid out alike. */
  lemma ShapedKept(a: seq<Vertex>, b: seq<Vertex>, w: nat, h: nat)
    requires Shaped(a, w, h) && |a| == |b|
    requires forall i :: 0 <= i < |a| ==> b[i].id == a[i].id && b[i].neighbors == a[i].neighbors
    ensures Shaped(b, w, h)
  {
    assert NeighborLists(b) == NeighborLists(a);
  }

  /** The three contents a cell ever holds: blank, the generation marker and the path marker. */
  predicate IsMarker(c: char)
  {
    c == ' ' || c == 'V' || c == '+'
  }

  ghost predicate MarkersOnly(cs: seq<Vertex>)
  {
    forall i :: 0 <= i < |cs| ==> IsMarker(cs[i].content)
  }

  /** `b` differs from `a` at most in the visited flags and the contents. */
  ghost predicate SameGrid(a: seq<Vertex>, b: seq<Vertex>)
  {
    |a| == |b| &&
    forall i :: 0 <= i < |a| ==> b[i].id == a[i].id && b[i].neighbors == a[i].neighbors && b[i].walls == a[i].walls
  }

  /** Changing only visited flags and contents keeps the walls and the layout. */
  lemma SameGridKeeps(a: seq<Vertex>, b: seq<Vertex>, w: nat, h: nat)
    requires SameGrid(a, b)
    ensures WallsOf(b) == WallsOf(a)
    ensures Shaped(a, w, h) ==> Shaped(b, w, h)
  {
    if Shaped(a, w, h) {
      ShapedKept(a, b, w, h);
    }
  }
}
