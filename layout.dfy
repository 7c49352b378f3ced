/**
 * buildGraph's working grid: the interior cells framed by a border of
 * visited sentinels, and the filter that keeps the non-sentinel
 * vertices among a cell's four grid neighbours.
 */
module Layout {
  import opened Grid
  import opened Cells
  import opened Generation

  /**
   * Entry `(row, col)` of the `(h + 2) x (w + 2)` grid once the first two
   * loops of buildGraph have run: a sentinel on the border, otherwise a
   * fresh vertex labelled in row-major order.
   */
  function Framed(w: nat, h: nat, row: nat, col: nat): Vertex
  {
    if row == 0 || row == h + 1 || col == 0 || col == w + 1 then Sentinel()
    else NewVertex((row - 1) * w + (col - 1))
  }

  /** The number of interior columns before column `col`: the labels handed out so far in a row. */
  function Interior(w: nat, col: nat): nat
  {
    if col == 0 then 0 else if col <= w + 1 then col - 1 else w
  }

  /** The label of a vertex that is not yet visited, nothing for a visited one. */
  function Keep(v: Vertex): seq<nat>
  {
    if v.visited then [] else [v.id]
  }

  /** The labels of the unvisited vertices of `vs`, in order. */
  function Kept(vs: seq<Vertex>): seq<nat>
  {
    if vs == [] then [] else Kept(vs[..|vs| - 1]) + Keep(vs[|vs| - 1])
  }

  /** Filtering four vertices keeps each in turn. */
  lemma KeptFour(a: Vertex, b: Vertex, c: Vertex, d: Vertex)
    ensures Kept([a, b, c, d]) == Keep(a) + Keep(b) + Keep(c) + Keep(d)
  {
    assert [a, b, c, d][..3] == [a, b, c];
    assert [a, b, c][..2] == [a, b];
    assert [a, b][..1] == [a];
    assert [a][..0] == [];
    assert Kept([a]) == Keep(a);
    assert Kept([a, b]) == Keep(a) + Keep(b);
    assert Kept([a, b, c]) == Keep(a) + Keep(b) + Keep(c);
  }

  /**
   * For an interior entry, keeping the non-sentinel vertices among its
   * west, east, north and south grid entries gives exactly the neighbour
   * list of its label.
   */
  lemma FramedNeighbors(w: nat, h: nat, row: nat, col: nat)
    requires 1 <= row <= h && 1 <= col <= w
    ensures (row - 1) * w + (col - 1) < w * h
    ensures Kept([Framed(w, h, row, col - 1), Framed(w, h, row, col + 1), Framed(w, h, row - 1, col), Framed(w, h, row + 1, col)])
      == Neighbors(w, h, (row - 1) * w + (col - 1))
  {
    var i := (row - 1) * w + (col - 1);
    LabelBound(w, h, row - 1, col - 1);
    RowColOf(w, row - 1, col - 1);
    KeptFour(Framed(w, h, row, col - 1), Framed(w, h, row, col + 1), Framed(w, h, row - 1, col), Framed(w, h, row + 1, col));
    assert Keep(Framed(w, h, row, col - 1)) == (if Col(w, i) > 0 then [i - 1] else []);
    assert Keep(Framed(w, h, row, col + 1)) == (if Col(w, i) + 1 < w then [i + 1] else []);
    assert Keep(Framed(w, h, row - 1, col)) == (if Row(w, i) > 0 then [i - w] else []) by {
      if row > 1 {
        assert (row - 1) * w == (row - 2) * w + w;
      }
    }
    assert Keep(Framed(w, h, row + 1, col)) == (if Row(w, i) + 1 < h then [i + w] else []) by {
      assert row * w == (row - 1) * w + w;
    }
  }

  /**
   * The vertex collected for interior entry `(row, col)` is cell
   * `(row - 1) * w + (col - 1)` of the fresh graph, so appending it extends
   * the list of cells by one.
   */
  lemma CellCollected(w: nat, h: nat, row: nat, col: nat)
    requires 1 <= row <= h && 1 <= col <= w
    ensures (row - 1) * w + (col - 1) < w * h
    ensures Framed(w, h, row, col).(neighbors := Kept([Framed(w, h, row, col - 1), Framed(w, h, row, col + 1),
      Framed(w, h, row - 1, col), Framed(w, h, row + 1, col)])) == Graph(w, h)[(row - 1) * w + (col - 1)]
    ensures Graph(w, h)[..(row - 1) * w + (col - 1)] + [Graph(w, h)[(row - 1) * w + (col - 1)]] ==
      Graph(w, h)[..(row - 1) * w + (col - 1) + 1]
  {
    FramedNeighbors(w, h, row, col);
  }
}
