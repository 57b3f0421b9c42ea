/**
 * The click-to-move rule of MazeGridPanel: a click on a cell of the grid becomes a
 * move in the direction of that cell, when it lies straight across or straight up or
 * down from the player's cell, one step round the edge of a wrapping maze counting
 * as adjacent.
 */
module ClickDirection {
  import opened Wrappers
  import opened Grid

  function Sign(x: int): (r: int)
    ensures r == -1 || r == 0 || r == 1
    ensures r == 0 <==> x == 0
    ensures r * x >= 0
  {
    if x < 0 then -1 else if x == 0 then 0 else 1
  }

  function Abs(x: int): (r: nat)
    ensures r == x || r == -x
  {
    if x < 0 then -x else x
  }

  /**
   * `getHeading`: the sign of a difference along one axis, reversed when the difference
   * is one short of the axis length, that is when the target is the neighbour across the
   * wrapping edge.
   */
  function GetHeading(delta: int, maxValue: int): (r: int)
    ensures r == -1 || r == 0 || r == 1
    ensures r == 0 <==> delta == 0
  {
    var sign := Sign(delta);
    if maxValue - Abs(delta) == 1 then sign * -1 else sign
  }

  /**
   * An ordinary neighbour along an axis of at least three cells is headed for directly;
   * the neighbour across the wrapping edge, at distance one less than the axis length,
   * is headed for the short way round, against the sign of the difference.
   */
  lemma HeadingShortWay(delta: int, maxValue: int)
    requires maxValue >= 3
    ensures delta == 1 || delta == -1 ==> GetHeading(delta, maxValue) == delta
    ensures delta == maxValue - 1 ==> GetHeading(delta, maxValue) == -1
    ensures delta == 1 - maxValue ==> GetHeading(delta, maxValue) == 1
  {
  }

  /** The direction that two axis headings name, or None when both or neither are zero. */
  function HeadingDirection(across: int, down: int): (r: Option<Direction>)
    requires across == -1 || across == 0 || across == 1
    requires down == -1 || down == 0 || down == 1
    ensures r.Some? <==> (across == 0) != (down == 0)
    ensures r == Some(West) <==> across < 0 && down == 0
    ensures r == Some(East) <==> across > 0 && down == 0
    ensures r == Some(North) <==> across == 0 && down < 0
    ensures r == Some(South) <==> across == 0 && down > 0
  {
    if across == 0 && down == 0 then None
    else if across != 0 && down != 0 then None
    else if across < 0 then Some(West)
    else if across > 0 then Some(East)
    else if down < 0 then Some(North)
    else Some(South)
  }

  /**
   * `getDirection` as the source has it: the column difference is measured against
   * the number of ROWS and the row difference against the number of COLUMNS.
   */
  function GetDirectionAsWritten(current: Coord, click: Coord, rows: nat, cols: nat): (r: Option<Direction>)
    ensures r.Some? <==> (click.col == current.col) != (click.row == current.row)
    ensures r.Some? ==> (r.value == East || r.value == West <==> click.row == current.row)
  {
    HeadingDirection(GetHeading(click.col - current.col, rows), GetHeading(click.row - current.row, cols))
  }

  /**
   * `getDirection` with each difference measured against its own axis: columns against
   * the number of columns, rows against the number of rows.
   */
  function GetDirection(current: Coord, click: Coord, rows: nat, cols: nat): (r: Option<Direction>)
    ensures r.Some? <==> (click.col == current.col) != (click.row == current.row)
    ensures r.Some? ==> (r.value == East || r.value == West <==> click.row == current.row)
  {
    HeadingDirection(GetHeading(click.col - current.col, cols), GetHeading(click.row - current.row, rows))
  }

  /** The row above or below, the short way round, is a move north or south. */
  lemma ClickUpDown(current: Coord, click: Coord, rows: nat, cols: nat, up: bool)
    requires rows >= 3
    requires click.col == current.col && current.row < rows
    requires up ==> click.row == (if current.row == 0 then rows - 1 else current.row - 1)
    requires !up ==> click.row == (if current.row == rows - 1 then 0 else current.row + 1)
    ensures GetDirection(current, click, rows, cols) == Some(if up then North else South)
  {
    var h := GetHeading(click.row - current.row, rows);
    HeadingShortWay(click.row - current.row, rows);
    assert h == (if up then -1 else 1);
    assert GetHeading(0, cols) == 0;
  }

  /** The column to the left or right, the short way round, is a move west or east. */
  lemma ClickAcross(current: Coord, click: Coord, rows: nat, cols: nat, left: bool)
    requires cols >= 3
    requires click.row == current.row && current.col < cols
    requires left ==> click.col == (if current.col == 0 then cols - 1 else current.col - 1)
    requires !left ==> click.col == (if current.col == cols - 1 then 0 else current.col + 1)
    ensures GetDirection(current, click, rows, cols) == Some(if left then West else East)
  {
    var h := GetHeading(click.col - current.col, cols);
    HeadingShortWay(click.col - current.col, cols);
    assert h == (if left then -1 else 1);
    assert GetHeading(0, rows) == 0;
  }

  /** The neighbours of a cell inside the grid, with the wrap written out. */
  lemma StepInside(c: Coord, d: Direction, rows: nat, cols: nat)
    requires 0 < rows && 0 < cols && c.row < rows && c.col < cols
    ensures d == North ==> Step(c, d, rows, cols) == Coord(if c.row == 0 then rows - 1 else c.row - 1, c.col)
    ensures d == South ==> Step(c, d, rows, cols) == Coord(if c.row == rows - 1 then 0 else c.row + 1, c.col)
    ensures d == West ==> Step(c, d, rows, cols) == Coord(c.row, if c.col == 0 then cols - 1 else c.col - 1)
    ensures d == East ==> Step(c, d, rows, cols) == Coord(c.row, if c.col == cols - 1 then 0 else c.col + 1)
  {
    ModSmall(c.row, rows);
    ModSmall(c.col, cols);
    match d {
      case North => ModPred(c.row, rows);
      case South => ModSucc(c.row, rows);
      case West => ModPred(c.col, cols);
      case East => ModSucc(c.col, cols);
    }
  }

  /**
   * Clicking any of the four neighbours of the player's cell in a maze of at least three
   * rows and columns, wrapping neighbours included, asks for the move to that neighbour.
   */
  lemma ClickNeighbour(current: Coord, d: Direction, rows: nat, cols: nat)
    requires rows >= 3 && cols >= 3
    requires current.row < rows && current.col < cols
    ensures GetDirection(current, Step(current, d, rows, cols), rows, cols) == Some(d)
  {
    var n := Step(current, d, rows, cols);
    StepInside(current, d, rows, cols);
    if d == North {
      ClickUpDown(current, n, rows, cols, true);
    } else if d == South {
      ClickUpDown(current, n, rows, cols, false);
    } else if d == West {
      ClickAcross(current, n, rows, cols, true);
    } else {
      ClickAcross(current, n, rows, cols, false);
    }
  }

  /**
   * In a wrapping maze of 10 rows and 12 columns, the west neighbour of the top-left cell
   * is the last cell of its row; the rule as written sends the player east instead.
   */
  lemma WrongWayRoundAsWritten()
    ensures Step(Coord(0, 0), West, 10, 12) == Coord(0, 11)
    ensures GetDirectionAsWritten(Coord(0, 0), Coord(0, 11), 10, 12) == Some(East)
    ensures GetDirection(Coord(0, 0), Coord(0, 11), 10, 12) == Some(West)
  {
  }
}
