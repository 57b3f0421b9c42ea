/**
 * The move edges of a maze as one value: every cell maps each direction it can be left
 * by to the cell that move reaches. A MazeLocation's set of MoveActions is `Moves(g, c)`;
 * a MoveAction is equal to another exactly when their directions are, so a cell holds at
 * most one edge per direction.
 */
module Graph {
  import opened Wrappers
  import opened Grid

  type Edges = map<Direction, Coord>
  type Graph = map<Coord, Edges>

  /** The move actions of cell `c` (none for a cell the graph does not mention). */
  function Moves(g: Graph, c: Coord): Edges
  {
    if c in g then g[c] else map[]
  }

  /** Number of move actions of a cell. */
  function Degree(g: Graph, c: Coord): nat
  {
    |Moves(g, c)|
  }

  /** A cave is every cell that is not a tunnel; a tunnel has exactly two move actions. */
  predicate IsCave(g: Graph, c: Coord)
  {
    Degree(g, c) != 2
  }

  /** `b` is one move away from `a`. */
  predicate Adjacent(g: Graph, a: Coord, b: Coord)
  {
    b in Moves(g, a).Values
  }

  /** Every cell that has edges or is reached by one. */
  function Nodes(g: Graph): set<Coord>
  {
    g.Keys + set c, d | c in g && d in g[c] :: g[c][d]
  }

  lemma AdjacentInNodes(g: Graph, a: Coord, b: Coord)
    requires Adjacent(g, a, b)
    ensures a in Nodes(g) && b in Nodes(g)
  {
    var d :| d in Moves(g, a) && Moves(g, a)[d] == b;
    assert a in g;
  }

  /**
   * One cell's move set after adding an edge in direction `d`: an edge already there in
   * that direction is kept, and every other edge is kept as it was.
   */
  function AddEdge(e: Edges, d: Direction, dest: Coord): (r: Edges)
    ensures d in r && r[d] == (if d in e then e[d] else dest)
    ensures r.Keys == e.Keys + {d}
    ensures forall x | x in e :: r[x] == e[x]
  {
    if d in e then e else e[d := dest]
  }

  /**
   * `addMoveAction` of MazeLocation: the move set is a HashSet whose elements are equal
   * by direction, so adding a second edge in a direction already used changes nothing.
   */
  function AddMove(g: Graph, c: Coord, d: Direction, dest: Coord): (r: Graph)
    ensures d in Moves(r, c)
    ensures d !in Moves(g, c) ==> Moves(r, c) == Moves(g, c)[d := dest]
    ensures d in Moves(g, c) ==> r == g
    ensures forall x | x != c :: Moves(r, x) == Moves(g, x)
    ensures r.Keys == g.Keys + {c}
  {
    if d in Moves(g, c) then g else g[c := Moves(g, c)[d := dest]]
  }

  /** The pair of reciprocal edges a `makeAdjacent` adds once the directions are known. */
  function Connect(g: Graph, left: Coord, right: Coord, h: Heading): (r: Graph)
    requires left != right
    ensures h.leftToRight in Moves(r, left) && h.rightToLeft in Moves(r, right)
    ensures h.leftToRight !in Moves(g, left) ==> Moves(r, left)[h.leftToRight] == right
    ensures h.rightToLeft !in Moves(g, right) ==> Moves(r, right)[h.rightToLeft] == left
    ensures forall x | x != left && x != right :: Moves(r, x) == Moves(g, x)
  {
    AddMove(AddMove(g, left, h.leftToRight, right), right, h.rightToLeft, left)
  }

  /**
   * What `Connect` does to the two cells it joins: each gains the move towards the other
   * unless it already has a move in that direction, and keeps every other move.
   */
  lemma ConnectEdges(g: Graph, left: Coord, right: Coord, h: Heading)
    requires left != right
    ensures Moves(Connect(g, left, right, h), left) == AddEdge(Moves(g, left), h.leftToRight, right)
    ensures Moves(Connect(g, left, right, h), right) == AddEdge(Moves(g, right), h.rightToLeft, left)
  {
  }

  /**
   * `makeAdjacent` of IMazeLocationBuilder: the left cell gets an edge to the right cell
   * and the right cell one back, in the directions the wrap-aware rule picks; the rule's
   * refusals are passed on.
   */
  function MakeAdjacent(g: Graph, left: Coord, right: Coord, maxRow: int, maxCol: int): (r: Result<Graph>)
    ensures r.Success? <==> DirectionsForLocation(left, right, maxRow, maxCol).Success?
    ensures r.Failure? ==> r.error == DirectionsForLocation(left, right, maxRow, maxCol).error
    ensures r.Success? ==> left != right
    ensures r.Success? ==> forall x | x != left && x != right :: Moves(r.value, x) == Moves(g, x)
    ensures r.Success? ==>
              var h := DirectionsForLocation(left, right, maxRow, maxCol).value;
              && Moves(r.value, left) == AddEdge(Moves(g, left), h.leftToRight, right)
              && Moves(r.value, right) == AddEdge(Moves(g, right), h.rightToLeft, left)
  {
    match DirectionsForLocation(left, right, maxRow, maxCol)
    case Failure(e) => Failure(e)
    case Success(h) =>
      ConnectEdges(g, left, right, h);
      Success(Connect(g, left, right, h))
  }

  /** A walk: consecutive cells are one move apart. */
  ghost predicate IsWalk(g: Graph, w: seq<Coord>)
  {
    forall i | 0 <= i < |w| - 1 :: Adjacent(g, w[i], w[i + 1])
  }

  /** A walk from `x` to `y`; its number of moves is `|w| - 1`. */
  ghost predicate IsPath(g: Graph, x: Coord, y: Coord, w: seq<Coord>)
  {
    |w| >= 1 && w[0] == x && w[|w| - 1] == y && IsWalk(g, w)
  }

  ghost predicate Connected(g: Graph, x: Coord, y: Coord)
  {
    exists w :: IsPath(g, x, y, w)
  }

  lemma WalkSnoc(g: Graph, w: seq<Coord>, y: Coord)
    requires IsWalk(g, w) && |w| >= 1 && Adjacent(g, w[|w| - 1], y)
    ensures IsWalk(g, w + [y])
  {
    var w' := w + [y];
    forall i | 0 <= i < |w'| - 1
      ensures Adjacent(g, w'[i], w'[i + 1])
    {
      if i < |w| - 1 {
        assert w'[i] == w[i] && w'[i + 1] == w[i + 1];
      }
    }
  }

  lemma WalkAppend(g: Graph, v: seq<Coord>, w: seq<Coord>)
    requires IsWalk(g, v) && IsWalk(g, w) && |v| >= 1 && |w| >= 1 && v[|v| - 1] == w[0]
    ensures IsWalk(g, v + w[1..])
  {
    var u := v + w[1..];
    forall i | 0 <= i < |u| - 1
      ensures Adjacent(g, u[i], u[i + 1])
    {
      if i < |v| - 1 {
        assert u[i] == v[i] && u[i + 1] == v[i + 1];
      } else {
        var j := i - |v| + 1;
        assert u[i] == w[j] && u[i + 1] == w[j + 1];
      }
    }
  }

  lemma ConnectedRefl(g: Graph, x: Coord)
    ensures Connected(g, x, x)
  {
    assert IsPath(g, x, x, [x]);
  }

  lemma {:induction false} ConnectedTrans(g: Graph, x: Coord, y: Coord, z: Coord)
    requires Connected(g, x, y) && Connected(g, y, z)
    ensures Connected(g, x, z)
  {
    var v :| IsPath(g, x, y, v);
    var w :| IsPath(g, y, z, w);
    WalkAppend(g, v, w);
    var u := v + w[1..];
    assert u[|u| - 1] == z;
    assert IsPath(g, x, z, u);
  }

  lemma ConnectedEdge(g: Graph, x: Coord, y: Coord)
    requires Adjacent(g, x, y)
    ensures Connected(g, x, y)
  {
    assert IsPath(g, x, y, [x, y]);
  }

  /** A set of cells that holds every neighbour of its members holds the end of every walk starting in it. */
  lemma {:induction false} ClosedHoldsWalk(g: Graph, s: set<Coord>, w: seq<Coord>)
    requires forall v, y | v in s && Adjacent(g, v, y) :: y in s
    requires IsWalk(g, w) && |w| >= 1 && w[0] in s
    ensures w[|w| - 1] in s
    decreases |w|
  {
    if |w| > 1 {
      var v := w[..|w| - 1];
      assert IsWalk(g, v) by {
        forall i | 0 <= i < |v| - 1
          ensures Adjacent(g, v[i], v[i + 1])
        {
          assert v[i] == w[i] && v[i + 1] == w[i + 1];
        }
      }
      ClosedHoldsWalk(g, s, v);
      assert Adjacent(g, w[|w| - 2], w[|w| - 1]);
    }
  }

  /** No walk leaves a set of cells that holds every neighbour of its members. */
  lemma ClosedNotConnected(g: Graph, s: set<Coord>, x: Coord, y: Coord)
    requires forall v, z | v in s && Adjacent(g, v, z) :: z in s
    requires x in s && y !in s
    ensures !Connected(g, x, y)
  {
    if Connected(g, x, y) {
      var w :| IsPath(g, x, y, w);
      ClosedHoldsWalk(g, s, w);
    }
  }

  /** `h` has every edge of `g` (and perhaps more). */
  ghost predicate SubGraph(g: Graph, h: Graph)
  {
    forall c, d | d in Moves(g, c) :: d in Moves(h, c) && Moves(h, c)[d] == Moves(g, c)[d]
  }

  lemma {:induction false} WalkMono(g: Graph, h: Graph, w: seq<Coord>)
    requires SubGraph(g, h) && IsWalk(g, w)
    ensures IsWalk(h, w)
  {
    forall i | 0 <= i < |w| - 1
      ensures Adjacent(h, w[i], w[i + 1])
    {
      assert Adjacent(g, w[i], w[i + 1]);
      var d :| d in Moves(g, w[i]) && Moves(g, w[i])[d] == w[i + 1];
      assert Moves(h, w[i])[d] == w[i + 1];
    }
  }

  lemma ConnectedMono(g: Graph, h: Graph, x: Coord, y: Coord)
    requires SubGraph(g, h) && Connected(g, x, y)
    ensures Connected(h, x, y)
  {
    var w :| IsPath(g, x, y, w);
    WalkMono(g, h, w);
    assert IsPath(h, x, y, w);
  }

  lemma AddMoveSub(g: Graph, c: Coord, d: Direction, dest: Coord)
    ensures SubGraph(g, AddMove(g, c, d, dest))
  {
  }

  lemma ConnectSub(g: Graph, left: Coord, right: Coord, h: Heading)
    requires left != right
    ensures SubGraph(g, Connect(g, left, right, h))
  {
    var g1 := AddMove(g, left, h.leftToRight, right);
    AddMoveSub(g, left, h.leftToRight, right);
    AddMoveSub(g1, right, h.rightToLeft, left);
  }
}
