/**
 * The text that toString produces: `2h + 1` lines of `2w + 1` two-character
 * pieces, the last piece of each line being "X\n".
 */
module Drawing {
  import opened Grid
  import opened Walls
  import opened Cells

  /** The cell whose flags decide piece `col` of text row `row > 0`. */
  function CellIndex(w: nat, h: nat, row: nat, col: nat): (index: nat)
    requires w > 0 && 0 < row <= 2 * h && col < 2 * w
    ensures index < w * h
  {
    LabelBound(w, h, (row - 1) / 2, col / 2);
    col / 2 + ((row - 1) / 2) * w
  }

  /**
   * The two characters toString appends for column `col` (0 to `2w`) of
   * text row `row` (0 to `2h`).
   */
  function Piece(w: nat, h: nat, cs: seq<Vertex>, row: nat, col: nat): (p: string)
    requires w > 0 && h > 0 && |cs| == w * h && row <= 2 * h && col <= 2 * w
    ensures |p| == 2
  {
    if col == 2 * w then "X\n"
    else if row == 0 then
      LabelBound(w, h, 0, col / 2);
      if col % 2 == 0 || cs[col / 2].walls.north then "X " else "  "
    else
      var index := CellIndex(w, h, row, col);
      if row % 2 == 1 && col % 2 == 0 && cs[index].walls.west then "X "
      else if row % 2 == 1 && col % 2 == 1 && cs[index].visited then [cs[index].content, ' ']
      else if row % 2 == 0 && col % 2 == 0 then "X "
      else if row % 2 == 0 && col % 2 == 1 && cs[index].walls.south then "X "
      else "  "
  }

  /** The first `k` pieces of text row `row`. */
  function Pieces(w: nat, h: nat, cs: seq<Vertex>, row: nat, k: nat): (s: string)
    requires w > 0 && h > 0 && |cs| == w * h && row <= 2 * h && k <= 2 * w + 1
    ensures |s| == 2 * k
  {
    if k == 0 then "" else Pieces(w, h, cs, row, k - 1) + Piece(w, h, cs, row, k - 1)
  }

  /** Text row `row`, its newline included. */
  function Line(w: nat, h: nat, cs: seq<Vertex>, row: nat): (line: string)
    requires w > 0 && h > 0 && |cs| == w * h && row <= 2 * h
    ensures |line| == 4 * w + 2
  {
    Pieces(w, h, cs, row, 2 * w + 1)
  }

  /** The first `k` text rows. */
  function Lines(w: nat, h: nat, cs: seq<Vertex>, k: nat): (s: string)
    requires w > 0 && h > 0 && |cs| == w * h && k <= 2 * h + 1
    ensures |s| == k * (4 * w + 2)
  {
    if k == 0 then ""
    else
      assert k * (4 * w + 2) == (k - 1) * (4 * w + 2) + (4 * w + 2);
      Lines(w, h, cs, k - 1) + Line(w, h, cs, k - 1)
  }

  /** What toString returns for a `w` x `h` maze whose cells are `cs`. */
  function Render(w: nat, h: nat, cs: seq<Vertex>): string
    requires w > 0 && h > 0 && |cs| == w * h
  {
    Lines(w, h, cs, 2 * h + 1)
  }

  /** Piece `col` of a row starts at character `2 * col`. */
  lemma {:induction false} PiecesAt(w: nat, h: nat, cs: seq<Vertex>, row: nat, k: nat, col: nat, t: nat)
    requires w > 0 && h > 0 && |cs| == w * h && row <= 2 * h && k <= 2 * w + 1
    requires col < k && t < 2
    ensures Pieces(w, h, cs, row, k)[2 * col + t] == Piece(w, h, cs, row, col)[t]
  {
    if col < k - 1 {
      PiecesAt(w, h, cs, row, k - 1, col, t);
    }
  }

  /** Character `2 * col + t` of a line is character `t` of piece `col`. */
  lemma LineAt(w: nat, h: nat, cs: seq<Vertex>, row: nat, col: nat, t: nat)
    requires w > 0 && h > 0 && |cs| == w * h && row <= 2 * h && col <= 2 * w && t < 2
    ensures Line(w, h, cs, row)[2 * col + t] == Piece(w, h, cs, row, col)[t]
  {
    PiecesAt(w, h, cs, row, 2 * w + 1, col, t);
  }

  /** Every piece but the last is a non-newline character followed by a blank. */
  lemma PieceShape(w: nat, h: nat, cs: seq<Vertex>, row: nat, col: nat)
    requires w > 0 && h > 0 && |cs| == w * h && row <= 2 * h && col < 2 * w
    requires MarkersOnly(cs)
    ensures Piece(w, h, cs, row, col)[1] == ' '
    ensures Piece(w, h, cs, row, col)[0] in {'X', ' ', 'V', '+'}
  {
    if row > 0 {
      var index := CellIndex(w, h, row, col);
      assert IsMarker(cs[index].content);
    }
  }

  /**
   * Every line is `4w + 1` characters ending in 'X', then a newline, and
   * holds no other newline; every character is one of 'X', ' ', 'V', '+'
   * and the newline.
   */
  lemma LineShape(w: nat, h: nat, cs: seq<Vertex>, row: nat)
    requires w > 0 && h > 0 && |cs| == w * h && row <= 2 * h && MarkersOnly(cs)
    ensures |Line(w, h, cs, row)| == 4 * w + 2
    ensures Line(w, h, cs, row)[4 * w] == 'X' && Line(w, h, cs, row)[4 * w + 1] == '\n'
    ensures forall p :: 0 <= p < 4 * w ==> Line(w, h, cs, row)[p] in {'X', ' ', 'V', '+'}
  {
    var line := Line(w, h, cs, row);
    LineAt(w, h, cs, row, 2 * w, 0);
    LineAt(w, h, cs, row, 2 * w, 1);
    forall p | 0 <= p < 4 * w
      ensures line[p] in {'X', ' ', 'V', '+'}
    {
      LineAt(w, h, cs, row, p / 2, p % 2);
      PieceShape(w, h, cs, row, p / 2);
    }
  }

  /** Appending piece `col` to the first `col` pieces of a row, after any prefix. */
  lemma PieceStep(w: nat, h: nat, cs: seq<Vertex>, row: nat, col: nat, prefix: string)
    requires w > 0 && h > 0 && |cs| == w * h && row <= 2 * h && col <= 2 * w
    ensures prefix + Pieces(w, h, cs, row, col + 1) == prefix + Pieces(w, h, cs, row, col) + Piece(w, h, cs, row, col)
  {
    assert Pieces(w, h, cs, row, col + 1) == Pieces(w, h, cs, row, col) + Piece(w, h, cs, row, col);
  }

  /** The top line is its first `2w` pieces followed by "X\n". */
  lemma TopLineEnds(w: nat, h: nat, cs: seq<Vertex>)
    requires w > 0 && h > 0 && |cs| == w * h
    ensures Lines(w, h, cs, 1) == Pieces(w, h, cs, 0, 2 * w) + "X\n"
  {
    assert Lines(w, h, cs, 1) == Line(w, h, cs, 0);
  }

  /** Starting text row `row` after the first `row` rows. */
  lemma RowStart(w: nat, h: nat, cs: seq<Vertex>, row: nat)
    requires w > 0 && h > 0 && |cs| == w * h && row <= 2 * h
    ensures Lines(w, h, cs, row) + Pieces(w, h, cs, row, 0) == Lines(w, h, cs, row)
    ensures Lines(w, h, cs, row) + Pieces(w, h, cs, row, 2 * w + 1) == Lines(w, h, cs, row + 1)
  {
  }

  /** Line `r` of the text starts at character `r * (4w + 2)`. */
  lemma {:induction false} LinesAt(w: nat, h: nat, cs: seq<Vertex>, k: nat, r: nat, p: nat)
    requires w > 0 && h > 0 && |cs| == w * h && k <= 2 * h + 1
    requires r < k && p < 4 * w + 2
    ensures r * (4 * w + 2) + p < |Lines(w, h, cs, k)|
    ensures Lines(w, h, cs, k)[r * (4 * w + 2) + p] == Line(w, h, cs, r)[p]
  {
    if r < k - 1 {
      LinesAt(w, h, cs, k - 1, r, p);
      MulMono(r + 1, k - 1, 4 * w + 2);
    }
  }

  /**
   * The whole text is `2h + 1` lines of `4w + 2` characters laid end to
   * end: character `p` of line `r` sits at `r * (4w + 2) + p`.
   */
  lemma RenderLines(w: nat, h: nat, cs: seq<Vertex>)
    requires w > 0 && h > 0 && |cs| == w * h
    ensures |Render(w, h, cs)| == (2 * h + 1) * (4 * w + 2)
    ensures forall r, p :: 0 <= r < 2 * h + 1 && 0 <= p < 4 * w + 2 ==>
      r * (4 * w + 2) + p < |Render(w, h, cs)| &&
      Render(w, h, cs)[r * (4 * w + 2) + p] == Line(w, h, cs, r)[p]
  {
    forall r, p | 0 <= r < 2 * h + 1 && 0 <= p < 4 * w + 2
      ensures r * (4 * w + 2) + p < |Render(w, h, cs)|
      ensures Render(w, h, cs)[r * (4 * w + 2) + p] == Line(w, h, cs, r)[p]
    {
      LinesAt(w, h, cs, 2 * h + 1, r, p);
    }
  }

  /** The top line shows 'X' at every corner and a gap exactly above the cells whose north wall is cleared. */
  lemma TopLine(w: nat, h: nat, cs: seq<Vertex>, c: nat)
    requires w > 0 && h > 0 && |cs| == w * h && c < w
    ensures c < |cs|
    ensures Line(w, h, cs, 0)[4 * c] == 'X'
    ensures Line(w, h, cs, 0)[4 * c + 2] == (if cs[c].walls.north then 'X' else ' ')
  {
    LabelBound(w, h, 0, c);
    LineAt(w, h, cs, 0, 2 * c, 0);
    LineAt(w, h, cs, 0, 2 * c + 1, 0);
  }

  /**
   * In the text row of maze row `r`, cell `(r, c)` shows its west wall
   * and then its content, the content only when the cell is visited.
   */
  lemma CellLine(w: nat, h: nat, cs: seq<Vertex>, r: nat, c: nat)
    requires w > 0 && h > 0 && |cs| == w * h && r < h && c < w
    ensures r * w + c < |cs|
    ensures Line(w, h, cs, 2 * r + 1)[4 * c] == (if cs[r * w + c].walls.west then 'X' else ' ')
    ensures Line(w, h, cs, 2 * r + 1)[4 * c + 2] ==
      (if cs[r * w + c].visited then cs[r * w + c].content else ' ')
  {
    LabelBound(w, h, r, c);
    LineAt(w, h, cs, 2 * r + 1, 2 * c, 0);
    LineAt(w, h, cs, 2 * r + 1, 2 * c + 1, 0);
    assert CellIndex(w, h, 2 * r + 1, 2 * c) == r * w + c;
    assert CellIndex(w, h, 2 * r + 1, 2 * c + 1) == r * w + c;
  }

  /**
   * In the text row below maze row `r`, every corner is 'X' and cell
   * `(r, c)` shows its south wall.
   */
  lemma WallLine(w: nat, h: nat, cs: seq<Vertex>, r: nat, c: nat)
    requires w > 0 && h > 0 && |cs| == w * h && r < h && c < w
    ensures r * w + c < |cs|
    ensures Line(w, h, cs, 2 * r + 2)[4 * c] == 'X'
    ensures Line(w, h, cs, 2 * r + 2)[4 * c + 2] == (if cs[r * w + c].walls.south then 'X' else ' ')
  {
    LabelBound(w, h, r, c);
    LineAt(w, h, cs, 2 * r + 2, 2 * c, 0);
    LineAt(w, h, cs, 2 * r + 2, 2 * c + 1, 0);
    assert CellIndex(w, h, 2 * r + 2, 2 * c + 1) == r * w + c;
  }

  /**
   * A one-cell maze once solved: entry and exit open, east and west walls
   * in place, the cell visited and on the path.
   */
  predicate SolvedCell(cs: seq<Vertex>)
  {
    |cs| == 1 && cs[0].walls == Walls(false, true, false, true) && cs[0].visited && cs[0].content == '+'
  }

  lemma SolvedCellTop(cs: seq<Vertex>)
    requires SolvedCell(cs)
    ensures Line(1, 1, cs, 0) == "X   X\n"
  {
    assert Piece(1, 1, cs, 0, 0) == "X ";
    assert Piece(1, 1, cs, 0, 1) == "  ";
    assert Piece(1, 1, cs, 0, 2) == "X\n";
    assert Pieces(1, 1, cs, 0, 1) == "X ";
    assert Pieces(1, 1, cs, 0, 2) == "X   ";
  }

  lemma SolvedCellMarks(cs: seq<Vertex>)
    requires SolvedCell(cs)
    ensures Piece(1, 1, cs, 1, 0) == "X " && Piece(1, 1, cs, 1, 1) == "+ "
  {
    assert CellIndex(1, 1, 1, 0) == 0 && CellIndex(1, 1, 1, 1) == 0;
  }

  lemma SolvedCellMiddle(cs: seq<Vertex>)
    requires SolvedCell(cs)
    ensures Line(1, 1, cs, 1) == "X + X\n"
  {
    SolvedCellMarks(cs);
    assert Pieces(1, 1, cs, 1, 1) == "X ";
    assert Pieces(1, 1, cs, 1, 2) == "X + ";
  }

  lemma SolvedCellBottom(cs: seq<Vertex>)
    requires SolvedCell(cs)
    ensures Line(1, 1, cs, 2) == "X   X\n"
  {
    assert Piece(1, 1, cs, 2, 0) == "X ";
    assert Piece(1, 1, cs, 2, 1) == "  ";
    assert Piece(1, 1, cs, 2, 2) == "X\n";
    assert Pieces(1, 1, cs, 2, 1) == "X ";
    assert Pieces(1, 1, cs, 2, 2) == "X   ";
  }

  /** The one-cell maze once solved: entry and exit gaps and the path marker. */
  lemma SolvedSingleCell(cs: seq<Vertex>)
    requires SolvedCell(cs)
    ensures Render(1, 1, cs) == "X   X\nX + X\nX   X\n"
  {
    SolvedCellTop(cs);
    SolvedCellMiddle(cs);
    SolvedCellBottom(cs);
    assert Lines(1, 1, cs, 1) == Line(1, 1, cs, 0);
    assert Lines(1, 1, cs, 2) == Line(1, 1, cs, 0) + Line(1, 1, cs, 1);
  }
}
