/**
 * The interior grid of a maze: row-major labels, the neighbour lists that
 * buildGraph computes, compass directions, and the direction that
 * buildMazeHelper infers from the difference of two labels.
 */
module Grid {

  /** The four wall directions of a cell. */
  datatype Dir = North | East | South | West

  function Opposite(d: Dir): (r: Dir)
    ensures r != d
  {
    match d
    case North => South
    case South => North
    case East => West
    case West => East
  }

  /** Row and column of label `i` in a grid `w` cells wide. */
  function Row(w: nat, i: nat): nat
    requires w > 0
  {
    i / w
  }

  function Col(w: nat, i: nat): nat
    requires w > 0
  {
    i % w
  }

  /** Multiplication by a positive width preserves strict order. */
  lemma MulLess(a: int, b: int, w: int)
    requires w > 0 && a * w < b * w
    ensures a < b
  {
    assert (b - a) * w == b * w - a * w;
  }

  /** Multiplication by a width is monotone. */
  lemma MulMono(a: int, b: int, w: nat)
    requires a <= b
    ensures a * w <= b * w
  {
    assert b * w - a * w == (b - a) * w;
  }

  /** Division by `w` is unique: `r * w + c` with `c < w` has row `r` and column `c`. */
  lemma RowColOf(w: nat, r: nat, c: nat)
    requires c < w
    ensures (r * w + c) / w == r && (r * w + c) % w == c
  {
    var i := r * w + c;
    var q, m := i / w, i % w;
    assert i == q * w + m;
    MulLess(q, r + 1, w);
    MulLess(r, q + 1, w);
  }

  /** Every label is its row times the width plus its column. */
  lemma LabelOf(w: nat, i: nat)
    requires w > 0
    ensures i == Row(w, i) * w + Col(w, i) && Col(w, i) < w
  {
  }

  /** A label below `w * h` lies in one of the `h` rows. */
  lemma RowBound(w: nat, h: nat, i: nat)
    requires w > 0 && i < w * h
    ensures Row(w, i) < h
  {
    LabelOf(w, i);
    MulLess(Row(w, i), h, w);
  }

  /** A cell in one of the `h` rows has a label below `w * h`. */
  lemma LabelBound(w: nat, h: nat, r: nat, c: nat)
    requires c < w && r < h
    ensures r * w + c < w * h
  {
    MulMono(r + 1, h, w);
    assert r * w + w == (r + 1) * w;
  }

  /** Moving one column west or east keeps the row. */
  lemma StepWest(w: nat, i: nat)
    requires w > 0 && Col(w, i) > 0
    ensures i >= 1 && Row(w, i - 1) == Row(w, i) && Col(w, i - 1) == Col(w, i) - 1
  {
    LabelOf(w, i);
    RowColOf(w, Row(w, i), Col(w, i) - 1);
  }

  lemma StepEast(w: nat, i: nat)
    requires w > 0 && Col(w, i) + 1 < w
    ensures Row(w, i + 1) == Row(w, i) && Col(w, i + 1) == Col(w, i) + 1
  {
    LabelOf(w, i);
    RowColOf(w, Row(w, i), Col(w, i) + 1);
  }

  /** Moving one row north or south keeps the column. */
  lemma StepNorth(w: nat, i: nat)
    requires w > 0 && Row(w, i) > 0
    ensures i >= w && Row(w, i - w) == Row(w, i) - 1 && Col(w, i - w) == Col(w, i)
  {
    LabelOf(w, i);
    assert i == (Row(w, i) - 1) * w + Col(w, i) + w;
    RowColOf(w, Row(w, i) - 1, Col(w, i));
  }

  lemma StepSouth(w: nat, i: nat)
    requires w > 0
    ensures Row(w, i + w) == Row(w, i) + 1 && Col(w, i + w) == Col(w, i)
  {
    LabelOf(w, i);
    assert i + w == (Row(w, i) + 1) * w + Col(w, i);
    RowColOf(w, Row(w, i) + 1, Col(w, i));
  }

  /** Two labels with the same row and column are equal. */
  lemma SameCell(w: nat, i: nat, j: nat)
    requires w > 0 && Row(w, i) == Row(w, j) && Col(w, i) == Col(w, j)
    ensures i == j
  {
    LabelOf(w, i);
    LabelOf(w, j);
  }

  /**
   * The neighbour list buildGraph gives interior cell `i` of a `w` x `h`
   * grid: the west, east, north and south cells, in that order, leaving
   * out the ones that fall on the sentinel border.
   */
  function Neighbors(w: nat, h: nat, i: nat): seq<nat>
    requires w > 0
  {
    LabelOf(w, i);
    (if Col(w, i) > 0 then [i - 1] else []) +
    (if Col(w, i) + 1 < w then [i + 1] else []) +
    (if Row(w, i) > 0 then [i - w] else []) +
    (if Row(w, i) + 1 < h then [i + w] else [])
  }

  /** The neighbour list of every label of a `w` x `h` grid. */
  function Adjacency(w: nat, h: nat): (ns: seq<seq<nat>>)
    requires w > 0
    ensures |ns| == w * h
  {
    seq(w * h, i requires 0 <= i < w * h => Neighbors(w, h, i))
  }

  /** Grid adjacency of two interior cells: one step along a row or a column. */
  ghost predicate Adjacent(w: nat, h: nat, i: nat, j: nat)
    requires w > 0
  {
    i < w * h && j < w * h &&
    ((Row(w, i) == Row(w, j) && (Col(w, i) + 1 == Col(w, j) || Col(w, j) + 1 == Col(w, i))) ||
     (Col(w, i) == Col(w, j) && (Row(w, i) + 1 == Row(w, j) || Row(w, j) + 1 == Row(w, i))))
  }

  /** Every listed neighbour is grid-adjacent: never a sentinel, never a wrap to another row. */
  lemma ListedIsAdjacent(w: nat, h: nat, i: nat, j: nat)
    requires w > 0 && i < w * h && j in Neighbors(w, h, i)
    ensures Adjacent(w, h, i, j)
  {
    RowBound(w, h, i);
    LabelOf(w, i);
    var west, east := (if Col(w, i) > 0 then [i - 1] else []), (if Col(w, i) + 1 < w then [i + 1] else []);
    var north, south := (if Row(w, i) > 0 then [i - w] else []), (if Row(w, i) + 1 < h then [i + w] else []);
    assert j in west + east + north + south;
    if j in west {
      StepWest(w, i);
    } else if j in east {
      StepEast(w, i);
      LabelBound(w, h, Row(w, i), Col(w, i) + 1);
    } else if j in north {
      StepNorth(w, i);
    } else {
      assert j in south;
      StepSouth(w, i);
      LabelBound(w, h, Row(w, i) + 1, Col(w, i));
    }
  }

  /** Every grid-adjacent interior cell is listed. */
  lemma AdjacentIsListed(w: nat, h: nat, i: nat, j: nat)
    requires w > 0 && Adjacent(w, h, i, j)
    ensures j in Neighbors(w, h, i)
  {
    RowBound(w, h, i);
    RowBound(w, h, j);
    if Row(w, i) == Row(w, j) && Col(w, j) + 1 == Col(w, i) {
      StepWest(w, i);
      SameCell(w, j, i - 1);
    } else if Row(w, i) == Row(w, j) && Col(w, i) + 1 == Col(w, j) {
      StepEast(w, i);
      SameCell(w, j, i + 1);
    } else if Col(w, i) == Col(w, j) && Row(w, j) + 1 == Row(w, i) {
      StepNorth(w, i);
      SameCell(w, j, i - w);
    } else {
      StepSouth(w, i);
      SameCell(w, j, i + w);
    }
  }

  /**
   * The neighbour list holds exactly the grid-adjacent interior cells.
   */
  lemma NeighborsAreAdjacent(w: nat, h: nat, i: nat, j: nat)
    requires w > 0 && i < w * h
    ensures j in Neighbors(w, h, i) <==> Adjacent(w, h, i, j)
  {
    if j in Neighbors(w, h, i) {
      ListedIsAdjacent(w, h, i, j);
    }
    if Adjacent(w, h, i, j) {
      AdjacentIsListed(w, h, i, j);
    }
  }

  /** Adjacency, and therefore the neighbour relation, is symmetric. */
  lemma NeighborsSymmetric(w: nat, h: nat, i: nat, j: nat)
    requires w > 0 && i < w * h && j in Neighbors(w, h, i)
    ensures j < w * h && i in Neighbors(w, h, j)
  {
    NeighborsAreAdjacent(w, h, i, j);
    NeighborsAreAdjacent(w, h, j, i);
  }

  /** At most four neighbours, all of them interior labels, none repeated, never the cell itself. */
  lemma NeighborsBounded(w: nat, h: nat, i: nat)
    requires w > 0 && i < w * h
    ensures |Neighbors(w, h, i)| <= 4 && i !in Neighbors(w, h, i)
    ensures forall k :: 0 <= k < |Neighbors(w, h, i)| ==> Neighbors(w, h, i)[k] < w * h
    ensures forall k, m :: 0 <= k < m < |Neighbors(w, h, i)| ==> Neighbors(w, h, i)[k] != Neighbors(w, h, i)[m]
  {
    var ns := Neighbors(w, h, i);
    forall k | 0 <= k < |ns| ensures ns[k] < w * h {
      NeighborsAreAdjacent(w, h, i, ns[k]);
    }
    NeighborsAreAdjacent(w, h, i, i);
    LabelOf(w, i);
  }

  /** The east neighbour and the south neighbour are listed when they exist. */
  lemma EastListed(w: nat, h: nat, i: nat)
    requires w > 0 && i < w * h && Col(w, i) + 1 < w
    ensures i + 1 in Neighbors(w, h, i)
  {
  }

  lemma SouthListed(w: nat, h: nat, i: nat)
    requires w > 0 && i + w < w * h
    ensures i + w in Neighbors(w, h, i)
  {
    StepSouth(w, i);
    RowBound(w, h, i + w);
  }

  /** The geometric direction from cell `i` to a grid-adjacent cell `j`. */
  function Toward(w: nat, i: nat, j: nat): Dir
    requires w > 0
  {
    if Row(w, i) == Row(w, j) && Col(w, j) + 1 == Col(w, i) then West
    else if Row(w, i) == Row(w, j) && Col(w, i) + 1 == Col(w, j) then East
    else if Col(w, i) == Col(w, j) && Row(w, j) + 1 == Row(w, i) then North
    else South
  }

  /**
   * The direction buildMazeHelper infers from `difference = label(current) -
   * label(next)`, testing 1 (west), -1 (east) and `width` (north) in that
   * order and taking south otherwise.
   */
  function Inferred(w: nat, difference: int): Dir
  {
    if difference == 1 then West
    else if difference == -1 then East
    else if difference == w then North
    else South
  }

  /** The label one step from `i` in direction `d`, by label arithmetic. */
  function Across(w: nat, i: nat, d: Dir): int
  {
    match d
    case North => i - w
    case East => i + 1
    case South => i + w
    case West => i - 1
  }

  /**
   * For every width, the inferred direction leads from `i` to the chosen
   * neighbour `j` by label arithmetic, and its opposite leads back.
   */
  lemma AcrossInferred(w: nat, h: nat, i: nat, j: nat)
    requires w > 0 && i < w * h && j in Neighbors(w, h, i)
    ensures Across(w, i, Inferred(w, i - j)) == j
    ensures Across(w, j, Opposite(Inferred(w, i - j))) == i
  {
  }

  /** From width 2 on, the inferred direction is the geometric one. */
  lemma {:induction false} InferredIsToward(w: nat, h: nat, i: nat, j: nat)
    requires w >= 2 && i < w * h && j in Neighbors(w, h, i)
    ensures Inferred(w, i - j) == Toward(w, i, j)
    ensures Toward(w, j, i) == Opposite(Toward(w, i, j))
  {
    NeighborsAreAdjacent(w, h, i, j);
    LabelOf(w, i);
    if Col(w, i) > 0 && j == i - 1 {
      StepWest(w, i);
    } else if Col(w, i) + 1 < w && j == i + 1 {
      StepEast(w, i);
    } else if Row(w, i) > 0 && j == i - w {
      StepNorth(w, i);
    } else {
      StepSouth(w, i);
    }
  }

  /**
   * In a maze one cell wide the inference misreads a north passage: cell 1
   * of a 1 x 2 maze has cell 0 to its north, but the difference 1 is
   * taken for west.
   */
  lemma NarrowMazeMisreadsNorth()
    ensures 0 in Neighbors(1, 2, 1) && Toward(1, 1, 0) == North
    ensures Inferred(1, 1 - 0) == West
  {
  }
}
