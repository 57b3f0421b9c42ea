/**
 * The cells of a maze grid in the order RandomMazeBuilder creates them (row by row,
 * left to right), and the candidate edges it offers to Kruskal's algorithm: for each cell
 * the one below it and the one to its right, round the edge only in a wrapping maze.
 */
module Candidates {
  import opened Grid

  /** A `Pair<MazeLocation, MazeLocation>` of two cells. */
  datatype Pair = Pair(left: Coord, right: Coord)

  /** The cell lies in a grid of `rows` by `cols`. */
  predicate InGrid(c: Coord, rows: nat, cols: nat)
  {
    c.row < rows && c.col < cols
  }

  /** No cell occurs twice. */
  predicate DistinctCells(s: seq<Coord>)
  {
    forall i, j | 0 <= i < j < |s| :: s[i] != s[j]
  }

  /** The first `col` cells of row `row`, left to right. */
  function RowCells(row: nat, col: nat): (r: seq<Coord>)
    ensures |r| == col
    ensures forall k | 0 <= k < col :: r[k] == Coord(row, k)
  {
    if col == 0 then [] else RowCells(row, col - 1) + [Coord(row, col - 1)]
  }

  /** The cells of the first `rows` rows of a grid `cols` wide, row by row. */
  function Cells(rows: nat, cols: nat): (r: seq<Coord>)
    ensures |r| == rows * cols
  {
    if rows == 0 then []
    else
      assert rows * cols == (rows - 1) * cols + cols;
      Cells(rows - 1, cols) + RowCells(rows - 1, cols)
  }

  /** `Cells` lists every cell of the grid, and only those, each once. */
  lemma {:induction false} CellsExactly(rows: nat, cols: nat)
    ensures forall c :: c in Cells(rows, cols) <==> InGrid(c, rows, cols)
    ensures DistinctCells(Cells(rows, cols))
  {
    if rows > 0 {
      CellsExactly(rows - 1, cols);
      var a, b := Cells(rows - 1, cols), RowCells(rows - 1, cols);
      assert Cells(rows, cols) == a + b;
      forall c
        ensures c in a + b <==> InGrid(c, rows, cols)
      {
        if InGrid(c, rows, cols) && c.row == rows - 1 {
          assert b[c.col] == c;
        }
      }
      forall i, j | 0 <= i < j < |a + b|
        ensures (a + b)[i] != (a + b)[j]
      {
        if j < |a| {
        } else if i >= |a| {
          assert (a + b)[i] == b[i - |a|] && (a + b)[j] == b[j - |a|];
        } else {
          assert (a + b)[i] == a[i] && a[i] in a;
          assert (a + b)[j] == b[j - |a|];
        }
      }
    }
  }

  /** The candidate pairs of cell (r, c): the cell below it, then the cell to its right. */
  function CellCandidates(r: nat, c: nat, rows: nat, cols: nat, wrapped: bool): seq<Pair>
    requires rows > 0 && cols > 0
  {
    DownCandidate(r, c, rows, cols, wrapped) + RightCandidate(r, c, rows, cols, wrapped)
  }

  /** The pair of cell (r, c) with the cell below it, if it has one. */
  function DownCandidate(r: nat, c: nat, rows: nat, cols: nat, wrapped: bool): seq<Pair>
    requires rows > 0
  {
    if r < rows - 1 || wrapped then [Pair(Coord(r, c), Coord((r + 1) % rows, c))] else []
  }

  /** The pair of cell (r, c) with the cell to its right, if it has one. */
  function RightCandidate(r: nat, c: nat, rows: nat, cols: nat, wrapped: bool): seq<Pair>
    requires cols > 0
  {
    if c < cols - 1 || wrapped then [Pair(Coord(r, c), Coord(r, (c + 1) % cols))] else []
  }

  /** The candidates of the first `col` cells of row `r`. */
  function RowCandidates(r: nat, col: nat, rows: nat, cols: nat, wrapped: bool): seq<Pair>
    requires rows > 0 && cols > 0
  {
    if col == 0 then [] else RowCandidates(r, col - 1, rows, cols, wrapped) + CellCandidates(r, col - 1, rows, cols, wrapped)
  }

  /** The candidates of the first `row` rows. */
  function CandidatesUpTo(row: nat, rows: nat, cols: nat, wrapped: bool): seq<Pair>
    requires rows > 0 && cols > 0
  {
    if row == 0 then [] else CandidatesUpTo(row - 1, rows, cols, wrapped) + RowCandidates(row - 1, cols, rows, cols, wrapped)
  }

  /** Listing the candidates of one more cell of row `r` extends the list by that cell's candidates. */
  lemma CandidatesStep(r: nat, col: nat, rows: nat, cols: nat, wrapped: bool)
    requires rows > 0 && cols > 0
    ensures CandidatesUpTo(r, rows, cols, wrapped) + RowCandidates(r, col + 1, rows, cols, wrapped)
      == CandidatesUpTo(r, rows, cols, wrapped) + RowCandidates(r, col, rows, cols, wrapped)
         + DownCandidate(r, col, rows, cols, wrapped) + RightCandidate(r, col, rows, cols, wrapped)
  {
    var a, b := CandidatesUpTo(r, rows, cols, wrapped), RowCandidates(r, col, rows, cols, wrapped);
    var d, e := DownCandidate(r, col, rows, cols, wrapped), RightCandidate(r, col, rows, cols, wrapped);
    assert RowCandidates(r, col + 1, rows, cols, wrapped) == b + (d + e);
    ConcatFour(a, b, d, e);
  }

  lemma ConcatFour<T>(a: seq<T>, b: seq<T>, d: seq<T>, e: seq<T>)
    ensures a + (b + (d + e)) == a + b + d + e
  {
  }

  /** Every candidate pair of the grid, in the order the builder lists them. */
  function AllCandidates(rows: nat, cols: nat, wrapped: bool): seq<Pair>
    requires rows > 0 && cols > 0
  {
    CandidatesUpTo(rows, rows, cols, wrapped)
  }

  /** The pair joins a cell to the cell below it, which exists unless the maze does not wrap. */
  predicate DownPair(p: Pair, rows: nat, cols: nat, wrapped: bool)
    requires rows > 0
  {
    (p.left.row < rows - 1 || wrapped) && p.right == Coord((p.left.row + 1) % rows, p.left.col)
  }

  /** The pair joins a cell to the cell on its right, which exists unless the maze does not wrap. */
  predicate RightPair(p: Pair, rows: nat, cols: nat, wrapped: bool)
    requires cols > 0
  {
    (p.left.col < cols - 1 || wrapped) && p.right == Coord(p.left.row, (p.left.col + 1) % cols)
  }

  /** The pair joins a cell to its lower or its right neighbour. */
  predicate Neighbours(p: Pair, rows: nat, cols: nat, wrapped: bool)
    requires rows > 0 && cols > 0
  {
    DownPair(p, rows, cols, wrapped) || RightPair(p, rows, cols, wrapped)
  }

  /** The shape of a candidate: a grid cell with its lower or its right neighbour. */
  predicate IsCandidate(p: Pair, rows: nat, cols: nat, wrapped: bool)
    requires rows > 0 && cols > 0
  {
    InGrid(p.left, rows, cols) && Neighbours(p, rows, cols, wrapped)
  }

  /** A cell and the cell on its right, inside the grid, form a candidate. */
  lemma RightIsCandidate(y: Coord, rows: nat, cols: nat, wrapped: bool)
    requires rows > 0 && cols > 0 && InGrid(y, rows, cols) && y.col + 1 < cols
    ensures IsCandidate(Pair(y, Coord(y.row, y.col + 1)), rows, cols, wrapped)
  {
    ModSmall(y.col + 1, cols);
    assert RightPair(Pair(y, Coord(y.row, y.col + 1)), rows, cols, wrapped);
  }

  /** A cell and the cell below it, inside the grid, form a candidate. */
  lemma DownIsCandidate(y: Coord, rows: nat, cols: nat, wrapped: bool)
    requires rows > 0 && cols > 0 && InGrid(y, rows, cols) && y.row + 1 < rows
    ensures IsCandidate(Pair(y, Coord(y.row + 1, y.col)), rows, cols, wrapped)
  {
    ModSmall(y.row + 1, rows);
    assert DownPair(Pair(y, Coord(y.row + 1, y.col)), rows, cols, wrapped);
  }

  lemma {:induction false} RowCandidatesExactly(r: nat, col: nat, rows: nat, cols: nat, wrapped: bool)
    requires rows > 0 && cols > 0
    ensures forall p :: p in RowCandidates(r, col, rows, cols, wrapped) <==>
      p.left.row == r && p.left.col < col && Neighbours(p, rows, cols, wrapped)
  {
    if col > 0 {
      var a := RowCandidates(r, col - 1, rows, cols, wrapped);
      var b := CellCandidates(r, col - 1, rows, cols, wrapped);
      RowCandidatesExactly(r, col - 1, rows, cols, wrapped);
      CellCandidatesExactly(r, col - 1, rows, cols, wrapped);
      assert RowCandidates(r, col, rows, cols, wrapped) == a + b;
      forall p: Pair
        ensures p in a + b <==>
          p.left.row == r && p.left.col < col && Neighbours(p, rows, cols, wrapped)
      {
        OneMoreColumn(p in a + b, p in a, p in b, p.left.row == r, p.left.col, col,
                      Neighbours(p, rows, cols, wrapped));
      }
    }
  }

  /** Membership in a row's list of one more column, in terms of the shorter list and the new cell. */
  lemma OneMoreColumn(inBoth: bool, inRow: bool, inCell: bool, sameRow: bool, c: int, col: int, shaped: bool)
    requires inBoth == (inRow || inCell)
    requires inRow == (sameRow && c < col - 1 && shaped)
    requires inCell == (sameRow && c == col - 1 && shaped)
    ensures inBoth == (sameRow && c < col && shaped)
  {
  }

  lemma CellCandidatesExactly(r: nat, c: nat, rows: nat, cols: nat, wrapped: bool)
    requires rows > 0 && cols > 0
    ensures forall p :: p in CellCandidates(r, c, rows, cols, wrapped) <==>
      p.left.row == r && p.left.col == c && Neighbours(p, rows, cols, wrapped)
  {
  }

  lemma {:induction false} CandidatesUpToExactly(row: nat, rows: nat, cols: nat, wrapped: bool)
    requires rows > 0 && cols > 0
    ensures forall p :: p in CandidatesUpTo(row, rows, cols, wrapped) <==>
      p.left.row < row && p.left.col < cols && Neighbours(p, rows, cols, wrapped)
  {
    if row > 0 {
      CandidatesUpToExactly(row - 1, rows, cols, wrapped);
      RowCandidatesExactly(row - 1, cols, rows, cols, wrapped);
    }
  }

  /**
   * The candidate list holds exactly the pairs of a grid cell with the cell below it
   * or to its right, the wrapping ones only in a wrapping maze.
   */
  lemma CandidatesExactly(rows: nat, cols: nat, wrapped: bool)
    requires rows > 0 && cols > 0
    ensures forall p :: p in AllCandidates(rows, cols, wrapped) <==> IsCandidate(p, rows, cols, wrapped)
  {
    CandidatesUpToExactly(rows, rows, cols, wrapped);
  }

  /** How many right-hand neighbours the first `col` cells of a row have. */
  function RightCount(col: nat, cols: nat, wrapped: bool): nat
    requires cols > 0
  {
    if wrapped || col < cols then col else cols - 1
  }

  lemma {:induction false} RowCandidatesCount(r: nat, col: nat, rows: nat, cols: nat, wrapped: bool)
    requires rows > 0 && cols > 0 && col <= cols
    ensures |RowCandidates(r, col, rows, cols, wrapped)| ==
      col * (if r < rows - 1 || wrapped then 1 else 0) + RightCount(col, cols, wrapped)
  {
    if col > 0 {
      RowCandidatesCount(r, col - 1, rows, cols, wrapped);
      var down := if r < rows - 1 || wrapped then 1 else 0;
      assert col * down == (col - 1) * down + down;
    }
  }

  lemma MulSucc(a: nat, b: nat)
    ensures (a + 1) * b == a * b + b
  {
  }

  lemma {:induction false} CandidatesUpToCount(row: nat, rows: nat, cols: nat, wrapped: bool)
    requires rows > 0 && cols > 0 && row <= rows
    ensures |CandidatesUpTo(row, rows, cols, wrapped)| ==
      (if wrapped || row < rows then row else rows - 1) * cols + row * RightCount(cols, cols, wrapped)
  {
    if row > 0 {
      CandidatesUpToCount(row - 1, rows, cols, wrapped);
      RowCandidatesCount(row - 1, cols, rows, cols, wrapped);
      var rc := RightCount(cols, cols, wrapped);
      var before := |CandidatesUpTo(row - 1, rows, cols, wrapped)|;
      var added := |RowCandidates(row - 1, cols, rows, cols, wrapped)|;
      assert before == (row - 1) * cols + (row - 1) * rc;
      MulSucc(row - 1, rc);
      if wrapped || row < rows {
        assert added == cols * 1 + rc;
        MulSucc(row - 1, cols);
      } else {
        assert added == cols * 0 + rc;
      }
    }
  }

  /** There are (R-1)C + R(C-1) candidates in a maze that does not wrap, and 2RC in one that does. */
  lemma CandidatesCount(rows: nat, cols: nat, wrapped: bool)
    requires rows > 0 && cols > 0
    ensures |AllCandidates(rows, cols, wrapped)| ==
      if wrapped then 2 * rows * cols else (rows - 1) * cols + rows * (cols - 1)
  {
    CandidatesUpToCount(rows, rows, cols, wrapped);
  }

  /**
   * `getDirectionsForLocation` of RandomMazeBuilder: a pair whose right cell is in the
   * next row (round the edge) is a south edge from the left cell and a north edge back;
   * every other pair is an east edge and a west edge back.
   */
  function BuilderHeading(p: Pair, rows: nat): (h: Heading)
    requires rows > 0
    ensures h.rightToLeft == Opposite(h.leftToRight)
    ensures h.leftToRight == South <==> p.right.row == (p.left.row + 1) % rows
    ensures h.leftToRight == South || h.leftToRight == East
  {
    if p.right.row == (p.left.row + 1) % rows then Heading(South, North) else Heading(East, West)
  }

  lemma DownHeading(p: Pair, rows: nat, cols: nat, wrapped: bool)
    requires rows >= 2 && cols >= 2 && InGrid(p.left, rows, cols) && DownPair(p, rows, cols, wrapped)
    ensures BuilderHeading(p, rows) == Heading(South, North)
    ensures p.left != p.right && InGrid(p.right, rows, cols)
    ensures Step(p.left, South, rows, cols) == p.right
    ensures Step(p.right, North, rows, cols) == p.left
  {
    var l, r := p.left, p.right;
    var next := if l.row == rows - 1 then 0 else l.row + 1;
    ModSucc(l.row, rows);
    assert r == Coord(next, l.col);
    ModPred(next, rows);
    assert (next + rows - 1) % rows == l.row;
    ModSmall(l.col, cols);
    ModSmall(next, rows);
  }

  lemma RightHeading(p: Pair, rows: nat, cols: nat, wrapped: bool)
    requires rows >= 2 && cols >= 2 && InGrid(p.left, rows, cols) && RightPair(p, rows, cols, wrapped)
    ensures BuilderHeading(p, rows) == Heading(East, West)
    ensures p.left != p.right && InGrid(p.right, rows, cols)
    ensures Step(p.left, East, rows, cols) == p.right
    ensures Step(p.right, West, rows, cols) == p.left
  {
    var l, r := p.left, p.right;
    var next := if l.col == cols - 1 then 0 else l.col + 1;
    ModSucc(l.col, cols);
    assert r == Coord(l.row, next);
    ModSucc(l.row, rows);
    assert r.row != (l.row + 1) % rows;
    ModPred(next, cols);
    assert (next + cols - 1) % cols == l.col;
    ModSmall(l.row, rows);
    ModSmall(next, cols);
  }

  /**
   * For every candidate of a grid with at least two rows and columns, the builder's rule
   * names the move that really leads from each cell to the other, round the edge included.
   */
  lemma CandidateHeading(p: Pair, rows: nat, cols: nat, wrapped: bool)
    requires rows >= 2 && cols >= 2 && IsCandidate(p, rows, cols, wrapped)
    ensures p.left != p.right && InGrid(p.right, rows, cols)
    ensures Step(p.left, BuilderHeading(p, rows).leftToRight, rows, cols) == p.right
    ensures Step(p.right, BuilderHeading(p, rows).rightToLeft, rows, cols) == p.left
  {
    if DownPair(p, rows, cols, wrapped) {
      DownHeading(p, rows, cols, wrapped);
    } else {
      RightHeading(p, rows, cols, wrapped);
    }
  }
}
