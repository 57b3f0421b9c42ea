/**
 * RandomMazeBuilder's `interConnectedLocations`: a list of cell sets, one per group of
 * cells already joined by tree edges. Kruskal's algorithm starts from one singleton per
 * cell and folds the smaller of two groups into the larger whenever it adds a tree edge.
 */
module Partitions {
  import opened Grid
  import opened Graph
  import opened Lists
  import opened Candidates

  type Parts = seq<set<Coord>>

  /** Some group holds both cells. */
  ghost predicate SamePart(parts: Parts, a: Coord, b: Coord)
  {
    exists i | 0 <= i < |parts| :: a in parts[i] && b in parts[i]
  }

  /** Some group holds the cell. */
  ghost predicate Covered(parts: Parts, x: Coord)
  {
    exists i | 0 <= i < |parts| :: x in parts[i]
  }

  /** No two groups share a cell. */
  ghost predicate Disjoint(parts: Parts)
  {
    forall i, j | 0 <= i < |parts| && 0 <= j < |parts| && i != j :: parts[i] !! parts[j]
  }

  /** The groups are non-empty, disjoint, and between them hold exactly the cells of the grid. */
  ghost predicate IsPartition(parts: Parts, rows: nat, cols: nat)
  {
    (forall i | 0 <= i < |parts| :: parts[i] != {})
    && Disjoint(parts)
    && (forall i, x | 0 <= i < |parts| && x in parts[i] :: InGrid(x, rows, cols))
    && (forall x | InGrid(x, rows, cols) :: Covered(parts, x))
  }

  /** Every two cells of one group are joined by a walk of the move graph. */
  ghost predicate PartsConnected(g: Graph, parts: Parts)
  {
    forall i, x, y | 0 <= i < |parts| && x in parts[i] && y in parts[i] :: Connected(g, x, y)
  }

  /** One singleton group per cell, in the order of `cells`. */
  function Singletons(cells: seq<Coord>): (r: Parts)
    ensures |r| == |cells|
    ensures forall k | 0 <= k < |r| :: r[k] == {cells[k]}
  {
    seq(|cells|, k requires 0 <= k < |cells| => {cells[k]})
  }

  lemma SingletonsPartition(cells: seq<Coord>, rows: nat, cols: nat, g: Graph)
    requires DistinctCells(cells) && forall c :: c in cells <==> InGrid(c, rows, cols)
    ensures IsPartition(Singletons(cells), rows, cols)
    ensures PartsConnected(g, Singletons(cells))
  {
    var parts := Singletons(cells);
    forall x | InGrid(x, rows, cols)
      ensures Covered(parts, x)
    {
      var k := IndexOf(cells, x);
      assert x in parts[k];
    }
    forall i, x, y | 0 <= i < |parts| && x in parts[i] && y in parts[i]
      ensures Connected(g, x, y)
    {
      ConnectedRefl(g, x);
    }
  }

  /** Two groups that share a cell are the same group. */
  lemma SameTrans(parts: Parts, a: Coord, b: Coord, c: Coord)
    requires Disjoint(parts) && SamePart(parts, a, b) && SamePart(parts, b, c)
    ensures SamePart(parts, a, c)
  {
    var i :| 0 <= i < |parts| && a in parts[i] && b in parts[i];
    var j :| 0 <= j < |parts| && b in parts[j] && c in parts[j];
    assert i == j;
  }

  /** The group that is removed when groups `i` and `j` are merged: the smaller one, `i` on a tie. */
  function Gone(parts: Parts, i: nat, j: nat): nat
    requires i < |parts| && j < |parts|
  {
    if |parts[i]| > |parts[j]| then j else i
  }

  /** The group that receives the other's cells. */
  function Grown(parts: Parts, i: nat, j: nat): nat
    requires i < |parts| && j < |parts|
  {
    if |parts[i]| > |parts[j]| then i else j
  }

  /** Where position `k` of the merged list was before the removal. */
  function Shift(k: nat, gone: nat): nat
  {
    if k < gone then k else k + 1
  }

  /**
   * The non-blind branch of `makeAdjacent`: the smaller of the two groups is removed
   * from the list and its cells are added to the larger one, which keeps its place.
   */
  function Merge(parts: Parts, i: nat, j: nat): (r: Parts)
    requires i < |parts| && j < |parts| && i != j
    ensures |r| == |parts| - 1
    ensures forall k | 0 <= k < |r| ::
      r[k] == if Shift(k, Gone(parts, i, j)) == Grown(parts, i, j) then parts[i] + parts[j]
              else parts[Shift(k, Gone(parts, i, j))]
  {
    if |parts[i]| > |parts[j]| then RemoveAt(parts[i := parts[i] + parts[j]], j)
    else RemoveAt(parts[j := parts[j] + parts[i]], i)
  }

  /** The merged group's new position. */
  function GrownAt(parts: Parts, i: nat, j: nat): (k: nat)
    requires i < |parts| && j < |parts| && i != j
    ensures k < |parts| - 1 && Shift(k, Gone(parts, i, j)) == Grown(parts, i, j)
  {
    if Grown(parts, i, j) < Gone(parts, i, j) then Grown(parts, i, j) else Grown(parts, i, j) - 1
  }

  /** The new position of an untouched group `m`. */
  function KeptAt(parts: Parts, i: nat, j: nat, m: nat): (k: nat)
    requires i < |parts| && j < |parts| && i != j && m < |parts| && m != i && m != j
    ensures k < |parts| - 1 && Shift(k, Gone(parts, i, j)) == m
  {
    if m < Gone(parts, i, j) then m else m - 1
  }

  lemma MergeDisjoint(parts: Parts, i: nat, j: nat)
    requires i < |parts| && j < |parts| && i != j && Disjoint(parts)
    ensures Disjoint(Merge(parts, i, j))
  {
    var r := Merge(parts, i, j);
    var gone, grown := Gone(parts, i, j), Grown(parts, i, j);
    forall a, b | 0 <= a < |r| && 0 <= b < |r| && a != b
      ensures r[a] !! r[b]
    {
      var ma, mb := Shift(a, gone), Shift(b, gone);
      assert ma != mb;
      if ma == grown {
        assert parts[i] !! parts[mb] && parts[j] !! parts[mb];
      } else if mb == grown {
        assert parts[i] !! parts[ma] && parts[j] !! parts[ma];
      } else {
        assert r[a] == parts[ma] && r[b] == parts[mb];
      }
    }
  }

  lemma MergeCovers(parts: Parts, i: nat, j: nat, x: Coord)
    requires i < |parts| && j < |parts| && i != j && Covered(parts, x)
    ensures Covered(Merge(parts, i, j), x)
  {
    var r := Merge(parts, i, j);
    var m :| 0 <= m < |parts| && x in parts[m];
    if m == i || m == j {
      assert x in r[GrownAt(parts, i, j)];
    } else {
      assert x in r[KeptAt(parts, i, j, m)];
    }
  }

  /** Merging two different groups of a partition leaves a partition of the same cells. */
  lemma MergePartition(parts: Parts, i: nat, j: nat, rows: nat, cols: nat)
    requires i < |parts| && j < |parts| && i != j && IsPartition(parts, rows, cols)
    ensures IsPartition(Merge(parts, i, j), rows, cols)
  {
    var r := Merge(parts, i, j);
    MergeDisjoint(parts, i, j);
    forall x | InGrid(x, rows, cols)
      ensures Covered(r, x)
    {
      MergeCovers(parts, i, j, x);
    }
    forall k | 0 <= k < |r|
      ensures r[k] != {} && forall x | x in r[k] :: InGrid(x, rows, cols)
    {
      var m := Shift(k, Gone(parts, i, j));
      if m == Grown(parts, i, j) {
        assert parts[i] <= r[k] && parts[i] != {};
      } else {
        assert r[k] == parts[m];
      }
    }
  }

  /** Cells that shared a group still do after a merge. */
  lemma MergeKeepsSame(parts: Parts, i: nat, j: nat, a: Coord, b: Coord)
    requires i < |parts| && j < |parts| && i != j && SamePart(parts, a, b)
    ensures SamePart(Merge(parts, i, j), a, b)
  {
    var r := Merge(parts, i, j);
    var m :| 0 <= m < |parts| && a in parts[m] && b in parts[m];
    if m == i || m == j {
      assert a in r[GrownAt(parts, i, j)] && b in r[GrownAt(parts, i, j)];
    } else {
      assert a in r[KeptAt(parts, i, j, m)] && b in r[KeptAt(parts, i, j, m)];
    }
  }

  /** A cell of either merged group shares the new group with a cell of the other. */
  lemma MergeJoins(parts: Parts, i: nat, j: nat, a: Coord, b: Coord)
    requires i < |parts| && j < |parts| && i != j && a in parts[i] && b in parts[j]
    ensures SamePart(Merge(parts, i, j), a, b)
  {
    var r := Merge(parts, i, j);
    assert a in r[GrownAt(parts, i, j)] && b in r[GrownAt(parts, i, j)];
  }

  /**
   * After the tree edge `l`–`r` joins group `i` (holding `l`) to group `j` (holding `r`),
   * every two cells of the merged group are joined by a walk: through `l`, the edge, and `r`.
   */
  lemma MergeConnected(g: Graph, g': Graph, parts: Parts, i: nat, j: nat, l: Coord, r: Coord)
    requires i < |parts| && j < |parts| && i != j && l in parts[i] && r in parts[j]
    requires PartsConnected(g, parts) && SubGraph(g, g')
    requires Adjacent(g', l, r) && Adjacent(g', r, l)
    ensures PartsConnected(g', Merge(parts, i, j))
  {
    var m := Merge(parts, i, j);
    forall k, x, y | 0 <= k < |m| && x in m[k] && y in m[k]
      ensures Connected(g', x, y)
    {
      var s := Shift(k, Gone(parts, i, j));
      if s == Grown(parts, i, j) {
        JoinedConnected(g, g', parts, i, j, l, r, x, y);
      } else {
        assert x in parts[s] && y in parts[s];
        ConnectedMono(g, g', x, y);
      }
    }
  }

  lemma JoinedConnected(g: Graph, g': Graph, parts: Parts, i: nat, j: nat, l: Coord, r: Coord, x: Coord, y: Coord)
    requires i < |parts| && j < |parts| && l in parts[i] && r in parts[j]
    requires PartsConnected(g, parts) && SubGraph(g, g')
    requires Adjacent(g', l, r) && Adjacent(g', r, l)
    requires x in parts[i] + parts[j] && y in parts[i] + parts[j]
    ensures Connected(g', x, y)
  {
    // each cell reaches the end of the new edge in its own group
    var ex := if x in parts[i] then l else r;
    var ey := if y in parts[i] then l else r;
    assert Connected(g, x, ex) && Connected(g, ey, y);
    ConnectedMono(g, g', x, ex);
    ConnectedMono(g, g', ey, y);
    if ex == ey {
      ConnectedTrans(g', x, ex, y);
    } else {
      ConnectedEdge(g', ex, ey);
      ConnectedTrans(g', x, ex, ey);
      ConnectedTrans(g', x, ey, y);
    }
  }

  lemma SingleMember(s: set<Coord>, x: Coord)
    requires x in s && |s| < 2
    ensures s == {x}
  {
    assert |s - {x}| == 0;
  }

  /**
   * The cells in groups of two or more are the cells `locationsWithPath` records: merging
   * groups across the edge `l`–`r` and recording both ends keeps it so.
   */
  lemma MergeWithPath(parts: Parts, i: nat, j: nat, l: Coord, r: Coord, w: set<Coord>)
    requires i < |parts| && j < |parts| && i != j && l in parts[i] && r in parts[j]
    requires forall k | 0 <= k < |parts| && |parts[k]| >= 2 :: parts[k] <= w
    ensures forall k | 0 <= k < |parts| - 1 && |Merge(parts, i, j)[k]| >= 2 :: Merge(parts, i, j)[k] <= w + {l, r}
  {
    if |parts[i]| < 2 {
      SingleMember(parts[i], l);
    }
    if |parts[j]| < 2 {
      SingleMember(parts[j], r);
    }
  }

  /**
   * Grid cell (0, 0) shares a group with every cell it is linked to through candidate
   * pairs whose ends share a group: moving right along a row and down the first column
   * reaches every cell without wrapping.
   */
  lemma {:induction false} LinkedToOrigin(parts: Parts, rows: nat, cols: nat, wrapped: bool, x: Coord)
    requires rows > 0 && cols > 0 && IsPartition(parts, rows, cols) && InGrid(x, rows, cols)
    requires forall p | IsCandidate(p, rows, cols, wrapped) :: SamePart(parts, p.left, p.right)
    ensures SamePart(parts, Coord(0, 0), x)
    decreases x.row, x.col
  {
    if x.col > 0 {
      var y := Coord(x.row, x.col - 1);
      LinkedToOrigin(parts, rows, cols, wrapped, y);
      RightIsCandidate(y, rows, cols, wrapped);
      assert SamePart(parts, y, x);
      SameTrans(parts, Coord(0, 0), y, x);
    } else if x.row > 0 {
      var y := Coord(x.row - 1, 0);
      LinkedToOrigin(parts, rows, cols, wrapped, y);
      DownIsCandidate(y, rows, cols, wrapped);
      assert SamePart(parts, y, x);
      SameTrans(parts, Coord(0, 0), y, x);
    } else {
      assert Covered(parts, x);
    }
  }

  /** A group disjoint from one that holds the whole grid, and inside the grid, is empty. */
  lemma OtherPartEmpty(parts: Parts, i: int, k: int, rows: nat, cols: nat)
    requires 0 <= i < |parts| && 0 <= k < |parts| && i != k && Disjoint(parts)
    requires forall x | x in parts[k] :: InGrid(x, rows, cols)
    requires forall x | InGrid(x, rows, cols) :: x in parts[i]
    ensures parts[k] == {}
  {
    assert parts[i] !! parts[k];
  }

  /**
   * Once every candidate pair shares a group, a partition of a non-empty grid is one
   * group holding every cell.
   */
  lemma OnePart(parts: Parts, rows: nat, cols: nat, wrapped: bool)
    requires rows > 0 && cols > 0 && IsPartition(parts, rows, cols)
    requires forall p | IsCandidate(p, rows, cols, wrapped) :: SamePart(parts, p.left, p.right)
    ensures |parts| == 1
    ensures forall x :: x in parts[0] <==> InGrid(x, rows, cols)
  {
    var o := Coord(0, 0);
    LinkedToOrigin(parts, rows, cols, wrapped, o);
    var i :| 0 <= i < |parts| && o in parts[i];
    forall x | InGrid(x, rows, cols)
      ensures x in parts[i]
    {
      LinkedToOrigin(parts, rows, cols, wrapped, x);
      var k :| 0 <= k < |parts| && o in parts[k] && x in parts[k];
      assert k == i;
    }
    if |parts| > 1 {
      OtherPartEmpty(parts, i, if i == 0 then 1 else 0, rows, cols);
      assert false;
    }
  }
}
