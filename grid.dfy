/**
 * Grid coordinates, compass directions and the wrap-aware rule that decides
 * which direction an edge between two cells gets (IMazeLocationBuilder).
 */
module Grid {
  import opened Wrappers

  /** The four compass directions a move edge can have. */
  datatype Direction = North | South | East | West

  /** Every direction once, in a fixed order. */
  const AllDirections: seq<Direction> := [North, South, East, West]

  /** Position of a direction in `AllDirections`. */
  function Rank(d: Direction): (r: nat)
    ensures r < |AllDirections| && AllDirections[r] == d
  {
    match d
    case North => 0
    case South => 1
    case East => 2
    case West => 3
  }

  lemma RankOfIndex(i: nat)
    requires i < |AllDirections|
    ensures Rank(AllDirections[i]) == i
  {
    if i == 0 {
    } else if i == 1 {
    } else if i == 2 {
    } else {
    }
  }

  /** No direction occurs twice. */
  predicate Distinct(order: seq<Direction>)
  {
    forall i, j | 0 <= i < j < |order| :: order[i] != order[j]
  }

  /**
   * An iteration order of a cell's set of move actions: every direction exactly once.
   * Which one a HashSet yields is not fixed by the program, so it is a parameter.
   */
  predicate IsOrder(order: seq<Direction>)
  {
    Distinct(order) && forall d: Direction :: d in order
  }

  function Opposite(d: Direction): (r: Direction)
    ensures r != d
  {
    match d
    case North => South
    case South => North
    case East => West
    case West => East
  }

  /** A cell's immutable (row, column) grid position; cells are equal exactly when these are. */
  datatype Coord = Coord(row: nat, col: nat)

  /** The two directions of a reciprocal pair of edges between a left and a right cell. */
  datatype Heading = Heading(leftToRight: Direction, rightToLeft: Direction)

  /**
   * The neighbour of `c` one step in direction `d` on a `rows` x `cols` grid whose
   * edges wrap around: the independent reference for the direction rules below.
   */
  function Step(c: Coord, d: Direction, rows: nat, cols: nat): (r: Coord)
    requires 0 < rows && 0 < cols
    ensures r.row < rows && r.col < cols
  {
    match d
    case North => Coord((c.row + rows - 1) % rows, c.col % cols)
    case South => Coord((c.row + 1) % rows, c.col % cols)
    case East => Coord(c.row % rows, (c.col + 1) % cols)
    case West => Coord(c.row % rows, (c.col + cols - 1) % cols)
  }

  /**
   * `getDirectionsForLocation` of IMazeLocationBuilder: equal coordinates are refused,
   * then the two row rules (which do not look at the column), then the two column
   * rules; a pair no rule matches is refused. A zero modulus is Java's
   * ArithmeticException. Dividends are never negative, so Java's `%` and Dafny's agree.
   */
  function DirectionsForLocation(left: Coord, right: Coord, maxRow: int, maxCol: int): (r: Result<Heading>)
    ensures left == right ==> r == Failure("Cannot make same locations adjacent")
    ensures r.Success? ==> r.value.rightToLeft == Opposite(r.value.leftToRight)
    ensures r.Success? && r.value.leftToRight == South ==> maxRow != 0 && right.row == (left.row + 1) % maxRow
    ensures r.Success? && r.value.leftToRight == North ==> maxRow != 0 && left.row == (right.row + 1) % maxRow
    ensures r.Success? && r.value.leftToRight == West ==> maxCol != 0 && left.col == (right.col + 1) % maxCol
    ensures r.Success? && r.value.leftToRight == East ==> maxCol != 0 && right.col == (left.col + 1) % maxCol
    ensures r.Success? && r.value.leftToRight in {East, West} ==>
              maxRow != 0 && right.row != (left.row + 1) % maxRow && left.row != (right.row + 1) % maxRow
  {
    if left == right then Failure("Cannot make same locations adjacent")
    else if maxRow == 0 then Failure("/ by zero")
    else if right.row == (left.row + 1) % maxRow then Success(Heading(South, North))
    else if (right.row + 1) % maxRow == left.row then Success(Heading(North, South))
    else if maxCol == 0 then Failure("/ by zero")
    else if (right.col + 1) % maxCol == left.col then Success(Heading(West, East))
    else if (left.col + 1) % maxCol == right.col then Success(Heading(East, West))
    else Failure("Cannot make locations adjacent")
  }

  lemma ModSucc(x: nat, m: nat)
    requires 0 < m && x < m
    ensures (x + 1) % m == if x == m - 1 then 0 else x + 1
  {
  }

  lemma ModSmall(x: nat, m: nat)
    requires 0 < m && x < m
    ensures x % m == x
  {
  }

  lemma ModPred(x: nat, m: nat)
    requires 0 < m && x < m
    ensures (x + m - 1) % m == if x == 0 then m - 1 else x - 1
  {
    if x == 0 {
      assert (m - 1) % m == m - 1;
    } else {
      assert x + m - 1 == (x - 1) + m;
    }
  }

  lemma RowStepRules(left: Coord, right: Coord, rows: nat, cols: nat, d: Direction)
    requires 3 <= rows && 0 < cols && left.row < rows && right.row < rows && left != right
    requires d == South ==> right.row == (if left.row == rows - 1 then 0 else left.row + 1)
    requires d == North ==> left.row == (if right.row == rows - 1 then 0 else right.row + 1)
    requires d in {North, South}
    ensures DirectionsForLocation(left, right, rows, cols) == Success(Heading(d, Opposite(d)))
  {
    ModSucc(left.row, rows);
    ModSucc(right.row, rows);
  }

  lemma ColStepRules(left: Coord, right: Coord, rows: nat, cols: nat, d: Direction)
    requires 2 <= rows && 3 <= cols && left.row < rows && left.col < cols && right.col < cols
    requires left.row == right.row && left != right
    requires d == East ==> right.col == (if left.col == cols - 1 then 0 else left.col + 1)
    requires d == West ==> left.col == (if right.col == cols - 1 then 0 else right.col + 1)
    requires d in {East, West}
    ensures DirectionsForLocation(left, right, rows, cols) == Success(Heading(d, Opposite(d)))
  {
    ModSucc(left.row, rows);
    ModSucc(left.col, cols);
    ModSucc(right.col, cols);
  }

  /**
   * On a grid of at least 3 x 3, the direction rule gives back exactly the direction of
   * a wrap-aware grid step, and its opposite for the return edge.
   */
  lemma {:induction false} DirectionsMatchStep(left: Coord, d: Direction, rows: nat, cols: nat)
    requires 3 <= rows && 3 <= cols && left.row < rows && left.col < cols
    ensures DirectionsForLocation(left, Step(left, d, rows, cols), rows, cols)
              == Success(Heading(d, Opposite(d)))
  {
    match d
    case North => RowStepMatches(left, d, rows, cols);
    case South => RowStepMatches(left, d, rows, cols);
    case East => ColStepMatches(left, d, rows, cols);
    case West => ColStepMatches(left, d, rows, cols);
  }

  lemma RowStepMatches(left: Coord, d: Direction, rows: nat, cols: nat)
    requires 3 <= rows && 3 <= cols && left.row < rows && left.col < cols && d in {North, South}
    ensures DirectionsForLocation(left, Step(left, d, rows, cols), rows, cols) == Success(Heading(d, Opposite(d)))
  {
    var r := left.row;
    var right := Step(left, d, rows, cols);
    assert left.col % cols == left.col;
    if d == North {
      ModPred(r, rows);
      assert right == Coord(if r == 0 then rows - 1 else r - 1, left.col);
    } else {
      ModSucc(r, rows);
      assert right == Coord(if r == rows - 1 then 0 else r + 1, left.col);
    }
    RowStepRules(left, right, rows, cols, d);
  }

  lemma ColStepMatches(left: Coord, d: Direction, rows: nat, cols: nat)
    requires 3 <= rows && 3 <= cols && left.row < rows && left.col < cols && d in {East, West}
    ensures DirectionsForLocation(left, Step(left, d, rows, cols), rows, cols) == Success(Heading(d, Opposite(d)))
  {
    var c := left.col;
    var right := Step(left, d, rows, cols);
    assert left.row % rows == left.row;
    if d == West {
      ModPred(c, cols);
      assert right == Coord(left.row, if c == 0 then cols - 1 else c - 1);
    } else {
      ModSucc(c, cols);
      assert right == Coord(left.row, if c == cols - 1 then 0 else c + 1);
    }
    ColStepRules(left, right, rows, cols, d);
  }
}
