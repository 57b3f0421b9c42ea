/**
 * RandomMazeBuilder: lays out a grid of cells, joins them into a spanning tree with
 * Kruskal's algorithm over a shuffled list of candidate edges, adds a number of the
 * discarded edges back, picks a start and an end cave far enough apart and spreads
 * treasure over a share of the caves.
 *
 * The move edges of the cells are kept as one `Graph` value and the cells' treasures as
 * one map, so the builder's own state is a class whose fields its steps update.
 */
module MazeBuilder {
  import opened Wrappers
  import opened Grid
  import opened Graph
  import opened Lists
  import opened Items
  import opened Candidates
  import opened Partitions
  import opened Bfs
  import opened Kruskal

  const MinDistanceBetweenStartEnd: int := 5
  const MinGridSize: int := 10
  const IntMax: int := 0x7fff_ffff
  const IntMin: int := -0x8000_0000

  /** The constructor's checks, in the order it makes them; None when the settings are accepted. */
  function ConstructorError(maxRows: int, maxCols: int, degree: int, percent: int): (r: Option<string>)
    ensures r == None <==> 0 <= percent <= 100 && maxRows >= MinGridSize && maxCols >= MinGridSize && degree >= 0
    ensures (percent > 100 || percent < 0) ==> r == Some("percentTreasure cannot be greater than 100 or less than 0")
    ensures 0 <= percent <= 100 && (maxRows < MinGridSize || maxCols < MinGridSize) ==>
      r == Some("Rows and columns should be at least 10.")
    ensures 0 <= percent <= 100 && maxRows >= MinGridSize && maxCols >= MinGridSize && degree < 0 ==>
      r == Some("Degree of interconnectivity cannot be negative")
  {
    if percent > 100 || percent < 0 then Some("percentTreasure cannot be greater than 100 or less than 0")
    else if maxCols < MinGridSize || maxRows < MinGridSize then Some("Rows and columns should be at least 10.")
    else if degree < 0 then Some("Degree of interconnectivity cannot be negative")
    else None
  }

  /** Each cell with a recorded walk from `start` has that walk's number of moves as its distance. */
  ghost predicate WalkLengths(g: Graph, start: Coord, distanceMap: map<Coord, int>, paths: map<Coord, seq<Coord>>)
  {
    forall x | x in paths :: x in distanceMap && IsPath(g, start, x, paths[x]) && distanceMap[x] == |paths[x]| - 1
  }

  /**
   * The loop over the move actions of `current` in `distanceBetweenNodes`, taken in the
   * iteration order `order`: each destination is recorded one move further than
   * `current`, overwriting any distance recorded for it before, and is queued. Every
   * neighbour of `current` ends up queued, and nothing else is added.
   */
  method RecordNeighbours(g: Graph, current: Coord, order: seq<Direction>, distanceMap0: map<Coord, int>,
                          queue0: seq<Coord>, ghost start: Coord, ghost paths0: map<Coord, seq<Coord>>)
    returns (distanceMap: map<Coord, int>, queue: seq<Coord>, ghost paths: map<Coord, seq<Coord>>)
    requires IsOrder(order) && current in paths0
    requires WalkLengths(g, start, distanceMap0, paths0)
    requires forall x | x in queue0 :: x in paths0
    ensures WalkLengths(g, start, distanceMap, paths) && paths0.Keys <= paths.Keys
    ensures forall x | x in queue :: x in paths
    ensures forall x | x in queue0 :: x in queue
    ensures forall x | x in queue :: x in queue0 || Adjacent(g, current, x)
    ensures forall y | Adjacent(g, current, y) :: y in queue
  {
    distanceMap, queue, paths := distanceMap0, queue0, paths0;
    var moves := Moves(g, current);
    for i := 0 to |order|
      invariant WalkLengths(g, start, distanceMap, paths) && paths0.Keys <= paths.Keys
      invariant forall x | x in queue :: x in paths
      invariant forall x | x in queue0 :: x in queue
      invariant forall x | x in queue :: x in queue0 || Adjacent(g, current, x)
      invariant forall j | 0 <= j < i && order[j] in moves :: moves[order[j]] in queue
    {
      var d := order[i];
      if d in moves {
        var adjLocation := moves[d];
        assert Adjacent(g, current, adjLocation);
        WalkSnoc(g, paths[current], adjLocation);
        distanceMap := distanceMap[adjLocation := distanceMap[current] + 1];
        paths := paths[adjLocation := paths[current] + [adjLocation]];
        queue := queue + [adjLocation];
      }
    }
    forall y | Adjacent(g, current, y)
      ensures y in queue
    {
      var d :| d in moves && moves[d] == y;
      assert d in order;
      var j :| 0 <= j < |order| && order[j] == d;
    }
  }

  /**
   * The state of `distanceBetweenNodes` between two rounds: every queued cell has a walk
   * from `start` and is not visited, `end` is not visited, and every neighbour of a
   * visited cell is visited or queued.
   */
  ghost predicate SearchInvariant(g: Graph, start: Coord, end: Coord, universe: set<Coord>, visited: set<Coord>,
                                  queue: seq<Coord>, distanceMap: map<Coord, int>, paths: map<Coord, seq<Coord>>)
  {
    WalkLengths(g, start, distanceMap, paths)
    && (forall x | x in queue :: x in paths && x in universe && x !in visited)
    && visited <= universe && end !in visited
    && (visited != {} ==> start in visited)
    && (forall v, y | v in visited && Adjacent(g, v, y) :: y in visited || y in queue)
  }

  /**
   * `end` at the head of the queue: its recorded distance is the number of moves of a
   * walk from `start`, hence `end` is reachable, and it is zero when `end` is `start`.
   */
  lemma FoundEnd(g: Graph, start: Coord, end: Coord, universe: set<Coord>, visited: set<Coord>,
                 queue: seq<Coord>, distanceMap: map<Coord, int>, paths: map<Coord, seq<Coord>>)
    requires SearchInvariant(g, start, end, universe, visited, queue, distanceMap, paths)
    requires queue != [] && queue[0] == end
    requires visited == {} ==> queue == [start] && distanceMap[start] == 0
    ensures end in distanceMap && distanceMap[end] >= 0 && Connected(g, start, end)
    ensures exists w :: IsPath(g, start, end, w) && |w| == distanceMap[end] + 1
    ensures start == end ==> distanceMap[end] == 0
  {
    assert end in queue;
    assert IsPath(g, start, end, paths[end]) && distanceMap[end] == |paths[end]| - 1;
  }

  /** One round of the search keeps its invariant and visits one more cell. */
  lemma SearchStep(g: Graph, start: Coord, end: Coord, universe: set<Coord>, visited0: set<Coord>,
                   current: Coord, rest: seq<Coord>, distanceMap0: map<Coord, int>, paths0: map<Coord, seq<Coord>>,
                   distanceMap: map<Coord, int>, queue: seq<Coord>, paths: map<Coord, seq<Coord>>)
    requires SearchInvariant(g, start, end, universe, visited0, [current] + rest, distanceMap0, paths0)
    requires current != end && Nodes(g) <= universe
    requires visited0 == {} ==> current == start
    requires WalkLengths(g, start, distanceMap, paths) && paths0.Keys <= paths.Keys
    requires forall x | x in queue :: x in paths
    requires forall x | x in rest :: x in queue
    requires forall x | x in queue :: x in rest || Adjacent(g, current, x)
    requires forall y | Adjacent(g, current, y) :: y in queue
    ensures SearchInvariant(g, start, end, universe, visited0 + {current},
                            RemoveAll(queue, visited0 + {current}), distanceMap, paths)
    ensures |universe - (visited0 + {current})| < |universe - visited0|
  {
    var visited := visited0 + {current};
    assert current in [current] + rest;
    forall x | x in queue
      ensures x in universe
    {
      if x !in rest {
        AdjacentInNodes(g, current, x);
      } else {
        assert x in [current] + rest;
      }
    }
    forall v, y | v in visited && Adjacent(g, v, y)
      ensures y in visited || y in RemoveAll(queue, visited)
    {
      if v != current && y !in visited {
        assert y in [current] + rest;
      }
    }
    assert universe - visited < universe - visited0;
  }

  /**
   * One round of `distanceBetweenNodes` once `current`, not `end`, came off the queue
   * and was marked visited: its neighbours are recorded and queued. Once the visited
   * cells are dropped from the queue, the search's invariant holds again.
   */
  method VisitRound(g: Graph, current: Coord, order: seq<Direction>, distanceMap0: map<Coord, int>, rest: seq<Coord>,
                    ghost polled: seq<Coord>, ghost visited0: set<Coord>, ghost start: Coord, ghost end: Coord, ghost universe: set<Coord>,
                    ghost paths0: map<Coord, seq<Coord>>)
    returns (distanceMap: map<Coord, int>, queue: seq<Coord>, ghost paths: map<Coord, seq<Coord>>)
    requires IsOrder(order) && current != end && Nodes(g) <= universe
    requires polled != [] && polled[0] == current && rest == polled[1..]
    requires SearchInvariant(g, start, end, universe, visited0, polled, distanceMap0, paths0)
    requires visited0 == {} ==> current == start
    ensures SearchInvariant(g, start, end, universe, visited0 + {current}, RemoveAll(queue, visited0 + {current}),
                            distanceMap, paths)
    ensures |universe - (visited0 + {current})| < |universe - visited0|
  {
    assert polled == [current] + rest;
    assert current in polled;
    assert forall x | x in rest :: x in polled;
    distanceMap, queue, paths := RecordNeighbours(g, current, order, distanceMap0, rest, start, paths0);
    SearchStep(g, start, end, universe, visited0, current, rest, distanceMap0, paths0, distanceMap, queue, paths);
  }

  /** The message of `nextInt` called with a bound of zero. */
  const BoundNotPositive: string := "bound must be positive"
  /** The failure of a resampling loop whose draws have run out; the source would go on drawing. */
  const DrawsExhausted: string := "no draw left"

  /** The caves of `listing`, in its order: the cells whose number of move actions is not two. */
  function CavesAmong(g: Graph, listing: seq<Coord>): (r: seq<Coord>)
    ensures forall x :: x in r <==> x in listing && IsCave(g, x)
    ensures |r| <= |listing|
    ensures DistinctCells(listing) ==> DistinctCells(r)
  {
    if listing == [] then []
    else
      var front := listing[..|listing| - 1];
      var last := listing[|listing| - 1];
      assert listing == front + [last];
      assert DistinctCells(listing) ==> DistinctCells(front) && last !in front;
      CavesAmong(g, front) + (if IsCave(g, last) then [last] else [])
  }

  /**
   * `(int) Math.ceil(numCaves * percentTreasure / 100d)`: the least number of caves that
   * is at least `percent` per cent of `numCaves`.
   */
  function TreasureTarget(numCaves: nat, percent: nat): (r: nat)
    ensures r * 100 >= numCaves * percent
    ensures r == 0 || (r - 1) * 100 < numCaves * percent
  {
    (numCaves * percent + 99) / 100
  }

  /** No more caves than there are get treasure, and none at all when there is no cave. */
  lemma TargetAtMostCaves(numCaves: nat, percent: nat)
    requires percent <= 100
    ensures TreasureTarget(numCaves, percent) <= numCaves
    ensures numCaves == 0 ==> TreasureTarget(numCaves, percent) == 0
  {
    assert numCaves * percent <= numCaves * 100;
  }

  class RandomMazeBuilder {
    const maxRows: nat
    const maxCols: nat
    const isWrapped: bool
    const percentTreasure: nat
    /** `interConnectedLocations`: the groups of cells already joined by tree edges. */
    var interConnected: Parts
    /** `degreeOfInterConnection`: how many discarded edges to add back. */
    var degree: nat
    /** `locationsWithPath`: the cells the tree reaches. */
    var withPath: set<Coord>
    /** The move actions of every cell the builder has created. */
    var graph: Graph
    /** The treasures each cell holds. */
    var treasure: map<Coord, seq<Treasure>>

    /** The settings the constructor accepts. */
    predicate Settings()
    {
      maxRows >= MinGridSize && maxCols >= MinGridSize && percentTreasure <= 100
    }

    /** A builder with accepted settings, no groups and no cells yet. */
    constructor (maxRows: int, maxCols: int, isWrapped: bool, degree: int, percentTreasure: int)
      requires ConstructorError(maxRows, maxCols, degree, percentTreasure) == None
      ensures Settings()
      ensures this.maxRows == maxRows && this.maxCols == maxCols && this.isWrapped == isWrapped
      ensures this.degree == degree && this.percentTreasure == percentTreasure
      ensures interConnected == [] && withPath == {} && graph == map[] && treasure == map[]
    {
      this.percentTreasure := percentTreasure;
      this.maxRows := maxRows;
      this.maxCols := maxCols;
      this.isWrapped := isWrapped;
      this.degree := degree;
      interConnected := [];
      withPath := {};
      graph := map[];
      treasure := map[];
    }

    /**
     * `buildAllNodes`: one new cell per grid position, row by row, each also added as a
     * group of its own. The new cells have no moves and no items yet.
     */
    method BuildAllNodes() returns (allNodes: seq<Coord>)
      modifies this`interConnected, this`graph, this`treasure
      ensures allNodes == Cells(maxRows, maxCols)
      ensures interConnected == old(interConnected) + Singletons(allNodes)
      ensures graph == map[] && treasure == map[]
    {
      allNodes := [];
      graph := map[];
      treasure := map[];
      for row := 0 to maxRows
        invariant allNodes == Cells(row, maxCols)
        invariant interConnected == old(interConnected) + Singletons(allNodes)
        invariant graph == map[] && treasure == map[]
      {
        for col := 0 to maxCols
          invariant allNodes == Cells(row, maxCols) + RowCells(row, col)
          invariant interConnected == old(interConnected) + Singletons(allNodes)
          invariant graph == map[] && treasure == map[]
        {
          var currLoc := Coord(row, col);
          assert Singletons(allNodes + [currLoc]) == Singletons(allNodes) + [{currLoc}];
          allNodes := allNodes + [currLoc];
          interConnected := interConnected + [{currLoc}];
        }
        assert Cells(row + 1, maxCols) == Cells(row, maxCols) + RowCells(row, maxCols);
      }
    }

    /**
     * The pairs of one cell, appended: the pair with the cell below it, then the pair with
     * the cell to its right, those across the edge only in a wrapping maze. Every lookup of
     * a cell by its coordinates finds it.
     */
    method AddCellPairs(adjList: seq<Pair>, allNodes: seq<Coord>, row: nat, col: nat) returns (r: seq<Pair>)
      requires Settings() && row < maxRows && col < maxCols
      requires allNodes == Cells(maxRows, maxCols)
      ensures r == adjList + DownCandidate(row, col, maxRows, maxCols, isWrapped)
                           + RightCandidate(row, col, maxRows, maxCols, isWrapped)
    {
      CellsExactly(maxRows, maxCols);
      r := adjList;
      var currLoc := Coord(row, col);
      assert currLoc in allNodes;
      if row < maxRows - 1 || isWrapped {
        var bottom := Coord((row + 1) % maxRows, col);
        assert bottom in allNodes;
        r := r + [Pair(currLoc, bottom)];
      }
      assert r == adjList + DownCandidate(row, col, maxRows, maxCols, isWrapped);
      ghost var mid := r;
      if col < maxCols - 1 || isWrapped {
        var right := Coord(row, (col + 1) % maxCols);
        assert right in allNodes;
        r := r + [Pair(currLoc, right)];
      }
      assert r == mid + RightCandidate(row, col, maxRows, maxCols, isWrapped);
    }

    /**
     * `buildAllPossibleAdjacentMazeLocations`: creates the cells, then lists for each cell
     * in row order the pair with the cell below it and the pair with the cell to its right,
     * those across the edge only in a wrapping maze. Every lookup of a cell by its
     * coordinates finds it.
     */
    method BuildAllPossibleAdjacent() returns (adjList: seq<Pair>)
      requires Settings()
      modifies this`interConnected, this`graph, this`treasure
      ensures adjList == AllCandidates(maxRows, maxCols, isWrapped)
      ensures interConnected == old(interConnected) + Singletons(Cells(maxRows, maxCols))
      ensures graph == map[] && treasure == map[]
    {
      adjList := [];
      var allNodes := BuildAllNodes();
      label built:
      for row := 0 to maxRows
        invariant adjList == CandidatesUpTo(row, maxRows, maxCols, isWrapped)
        invariant unchanged@built(this)
      {
        for col := 0 to maxCols
          invariant adjList == CandidatesUpTo(row, maxRows, maxCols, isWrapped)
                               + RowCandidates(row, col, maxRows, maxCols, isWrapped)
          invariant unchanged@built(this)
        {
          adjList := AddCellPairs(adjList, allNodes, row, col);
          CandidatesStep(row, col, maxRows, maxCols, isWrapped);
        }
      }
    }

    /** The loop over the groups in `buildMaze`: whether one group holds both cells. */
    method AreConnected(p: Pair) returns (connected: bool)
      ensures connected <==> SamePart(interConnected, p.left, p.right)
    {
      connected := false;
      for k := 0 to |interConnected|
        invariant connected <==> exists i | 0 <= i < k :: p.left in interConnected[i] && p.right in interConnected[i]
      {
        if p.left in interConnected[k] && p.right in interConnected[k] {
          connected := true;
        }
      }
    }

    /**
     * `makeAdjacent`: the left cell gets a move to the right one and the right cell a move
     * back, in the builder's directions; unless blind, the smaller of the two cells' groups
     * is removed from the list and added to the larger one.
     */
    method MakeAdjacent(p: Pair, blind: bool)
      requires maxRows > 0 && p.left != p.right
      requires !blind ==> Covered(interConnected, p.left) && Covered(interConnected, p.right)
      requires !blind ==> !SamePart(interConnected, p.left, p.right)
      modifies this`graph, this`interConnected
      ensures graph == Connect(old(graph), p.left, p.right, BuilderHeading(p, maxRows))
      ensures blind ==> interConnected == old(interConnected)
      ensures !blind ==> (interConnected ==
        Merge(old(interConnected), FirstWith(old(interConnected), p.left), FirstWith(old(interConnected), p.right)))
    {
      var moveDirection := BuilderHeading(p, maxRows);
      ghost var before := graph;
      graph := AddMove(graph, p.left, moveDirection.leftToRight, p.right);
      graph := AddMove(graph, p.right, moveDirection.rightToLeft, p.left);
      assert graph == Connect(before, p.left, p.right, moveDirection);
      if !blind {
        var parts := interConnected;
        var i := FirstWith(parts, p.left);
        var j := FirstWith(parts, p.right);
        var setWithLeft, setWithRight := parts[i], parts[j];
        if |setWithLeft| > |setWithRight| {
          GrowInPlace(parts, i, j, j, i, p.right);
          parts := RemoveFirst(parts, setWithRight);
          parts := parts[(if i < j then i else i - 1) := setWithLeft + setWithRight];
        } else {
          GrowInPlace(parts, i, j, i, j, p.left);
          parts := RemoveFirst(parts, setWithLeft);
          parts := parts[(if j < i then j else j - 1) := setWithRight + setWithLeft];
        }
        interConnected := parts;
      }
    }

    /**
     * `buildMaze`: Kruskal's algorithm over the candidate pairs in the order the shuffle
     * left them (`shuffled`): a pair whose cells are in different groups becomes a tree
     * edge and merges the groups, any other is discarded. Then up to `degree` discarded
     * pairs, chosen by the draws `picks`, become extra edges. The result: the cells with a
     * path are the whole grid, the tree has one edge fewer than there are cells, every two
     * cells are joined by a walk, and each move leads to the neighbour in its direction.
     */
    method BuildMaze(shuffled: seq<Pair>, picks: seq<nat>) returns (ghost tree: seq<Pair>, ghost extras: seq<Pair>)
      requires Settings() && interConnected == []
      requires multiset(shuffled) == multiset(AllCandidates(maxRows, maxCols, isWrapped))
      requires |picks| >= degree
      modifies this`interConnected, this`graph, this`treasure, this`withPath, this`degree
      ensures |interConnected| == 1 && forall x :: x in interConnected[0] <==> InGrid(x, maxRows, maxCols)
      ensures forall x :: x in withPath <==> InGrid(x, maxRows, maxCols)
      ensures graph.Keys == withPath && Geometric(graph, maxRows, maxCols)
      ensures forall x, y | InGrid(x, maxRows, maxCols) && InGrid(y, maxRows, maxCols) :: Connected(graph, x, y)
      ensures |tree| == maxRows * maxCols - 1
      ensures multiset(tree) + multiset(extras) <= multiset(shuffled)
      ensures old(degree) <= |shuffled| - |tree| ==> degree == old(degree)
      ensures old(degree) > |shuffled| - |tree| ==> degree == |shuffled| - |tree|
      ensures |extras| == degree
      ensures NoLoops(tree) && NoLoops(extras)
      ensures JoinedIn(graph, ConnectAll(map[], tree, maxRows), extras, maxRows)
      ensures forall q | q in tree || q in extras :: Adjacent(graph, q.left, q.right) && Adjacent(graph, q.right, q.left)
      ensures treasure == map[]
    {
      var discardPair;
      discardPair, tree := JoinGrid(shuffled);
      ghost var treeGraph := graph;
      assert treeGraph == ConnectAll(map[], tree, maxRows);
      assert |discardPair| == |shuffled| - |tree|;
      extras := AddBackDiscarded(discardPair, picks);
      StaysConnected(treeGraph, graph, maxRows, maxCols);
      PairsAreEdges(tree, extras, treeGraph, graph, shuffled, discardPair, maxRows, maxCols, isWrapped);
    }

    /**
     * The first part of `buildMaze`: every cell becomes a group of its own, and the
     * shuffled pairs are then joined as Kruskal's algorithm does. The result is one group
     * holding the whole grid, a spanning tree of `size - 1` pairs joining every two cells,
     * and the pairs that were discarded.
     */
    method JoinGrid(shuffled: seq<Pair>) returns (discardPair: seq<Pair>, ghost tree: seq<Pair>)
      requires Settings() && interConnected == []
      requires multiset(shuffled) == multiset(AllCandidates(maxRows, maxCols, isWrapped))
      modifies this`interConnected, this`graph, this`treasure, this`withPath
      ensures |interConnected| == 1 && forall x :: x in interConnected[0] <==> InGrid(x, maxRows, maxCols)
      ensures forall x :: x in withPath <==> InGrid(x, maxRows, maxCols)
      ensures graph.Keys == withPath && Geometric(graph, maxRows, maxCols)
      ensures forall x, y | InGrid(x, maxRows, maxCols) && InGrid(y, maxRows, maxCols) :: Connected(graph, x, y)
      ensures |tree| == maxRows * maxCols - 1
      ensures multiset(tree) + multiset(discardPair) == multiset(shuffled)
      ensures |discardPair| == |shuffled| - |tree|
      ensures forall q | q in discardPair :: IsCandidate(q, maxRows, maxCols, isWrapped)
      ensures NoLoops(tree) && graph == ConnectAll(map[], tree, maxRows)
      ensures treasure == map[]
    {
      var possibleAdj := BuildAllPossibleAdjacent();
      possibleAdj := shuffled;
      var locationsWithPath;
      discardPair, locationsWithPath, tree := JoinAll(possibleAdj);
      withPath := locationsWithPath;
    }

    /**
     * The loop of `buildMaze` over the shuffled pairs: a pair whose cells no group holds
     * together is joined (`makeAdjacent`, not blind) and both its cells get a path; any
     * other pair is discarded. Every pair ends up inside one group, and the tree edges and
     * the discarded pairs are the pairs.
     */
    method JoinAll(possibleAdj: seq<Pair>) returns (discardPair: seq<Pair>, locationsWithPath: set<Coord>, ghost tree: seq<Pair>)
      requires Settings()
      requires multiset(possibleAdj) == multiset(AllCandidates(maxRows, maxCols, isWrapped))
      requires interConnected == Singletons(Cells(maxRows, maxCols)) && graph == map[]
      modifies this`interConnected, this`graph
      ensures |interConnected| == 1 && forall x :: x in interConnected[0] <==> InGrid(x, maxRows, maxCols)
      ensures forall x :: x in locationsWithPath <==> InGrid(x, maxRows, maxCols)
      ensures graph.Keys == locationsWithPath && Geometric(graph, maxRows, maxCols)
      ensures forall x, y | InGrid(x, maxRows, maxCols) && InGrid(y, maxRows, maxCols) :: Connected(graph, x, y)
      ensures |tree| == maxRows * maxCols - 1
      ensures multiset(tree) + multiset(discardPair) == multiset(possibleAdj)
      ensures |discardPair| == |possibleAdj| - |tree|
      ensures forall q | q in discardPair :: IsCandidate(q, maxRows, maxCols, isWrapped)
      ensures NoLoops(tree) && graph == ConnectAll(map[], tree, maxRows)
    {
      discardPair := [];
      locationsWithPath := {};
      tree := [];
      KruskalStart(maxRows, maxCols);
      for idx := 0 to |possibleAdj|
        invariant KruskalInv(interConnected, graph, locationsWithPath, tree, discardPair, possibleAdj[..idx], maxRows, maxCols)
        invariant NoLoops(tree) && graph == ConnectAll(map[], tree, maxRows)
      {
        var mazeLocationPair := possibleAdj[idx];
        assert possibleAdj[..idx + 1] == possibleAdj[..idx] + [mazeLocationPair];
        CandidateAt(possibleAdj, idx, maxRows, maxCols, isWrapped);
        CandidateHeading(mazeLocationPair, maxRows, maxCols, isWrapped);
        ConnectAllSnoc(map[], tree, mazeLocationPair, maxRows);
        discardPair, locationsWithPath, tree :=
          JoinOrDiscard(mazeLocationPair, discardPair, locationsWithPath, tree, possibleAdj[..idx]);
      }
      assert possibleAdj[..|possibleAdj|] == possibleAdj;
      KruskalDone(interConnected, graph, locationsWithPath, tree, discardPair, possibleAdj, maxRows, maxCols, isWrapped);
    }

    /**
     * One pass of that loop: a pair whose cells no group holds together is joined
     * (`makeAdjacent`, not blind), becomes a tree edge and both its cells get a path; any
     * other pair is discarded and nothing else changes.
     */
    method JoinOrDiscard(pair: Pair, discardPair: seq<Pair>, locationsWithPath: set<Coord>, ghost tree: seq<Pair>, ghost done: seq<Pair>)
      returns (discardNow: seq<Pair>, pathNow: set<Coord>, ghost treeNow: seq<Pair>)
      requires Settings() && IsCandidate(pair, maxRows, maxCols, isWrapped)
      requires KruskalInv(interConnected, graph, locationsWithPath, tree, discardPair, done, maxRows, maxCols)
      modifies this`interConnected, this`graph
      ensures KruskalInv(interConnected, graph, pathNow, treeNow, discardNow, done + [pair], maxRows, maxCols)
      ensures SamePart(old(interConnected), pair.left, pair.right) ==>
                && discardNow == discardPair + [pair] && pathNow == locationsWithPath && treeNow == tree
                && graph == old(graph) && interConnected == old(interConnected)
      ensures !SamePart(old(interConnected), pair.left, pair.right) ==>
                && discardNow == discardPair && pathNow == locationsWithPath + {pair.left, pair.right}
                && treeNow == tree + [pair]
                && graph == Connect(old(graph), pair.left, pair.right, BuilderHeading(pair, maxRows))
    {
      var areTheyConnected := AreConnected(pair);
      CandidateHeading(pair, maxRows, maxCols, isWrapped);
      if !areTheyConnected {
        ghost var parts, g, w := interConnected, graph, locationsWithPath;
        ghost var i, j := FirstWith(parts, pair.left), FirstWith(parts, pair.right);
        KruskalJoin(parts, g, w, tree, discardPair, done, pair, i, j, maxRows, maxCols, isWrapped);
        MakeAdjacent(pair, false);
        pathNow := locationsWithPath + {pair.left};
        pathNow := pathNow + {pair.right};
        treeNow := tree + [pair];
        discardNow := discardPair;
      } else {
        KruskalSkip(interConnected, graph, locationsWithPath, tree, discardPair, done, pair, maxRows, maxCols);
        discardNow := discardPair + [pair];
        pathNow, treeNow := locationsWithPath, tree;
      }
    }

    /**
     * The end of `buildMaze`: when `degree` is positive it is first capped at the number of
     * discarded pairs; then that many times a discarded pair, at the position the next draw
     * of `picks` names, is joined blindly (no groups change) and removed from the list. The
     * tree's edges stay, so every two cells stay joined.
     */
    method AddBackDiscarded(discardPair: seq<Pair>, picks: seq<nat>) returns (ghost extras: seq<Pair>)
      requires Settings() && |picks| >= degree
      requires forall q | q in discardPair :: IsCandidate(q, maxRows, maxCols, isWrapped)
      requires graph.Keys == withPath && Geometric(graph, maxRows, maxCols)
      requires forall x :: x in withPath <==> InGrid(x, maxRows, maxCols)
      modifies this`graph, this`degree, this`interConnected
      ensures SubGraph(old(graph), graph)
      ensures graph.Keys == withPath && Geometric(graph, maxRows, maxCols)
      ensures old(degree) <= |discardPair| ==> degree == old(degree)
      ensures old(degree) > |discardPair| ==> degree == |discardPair|
      ensures |extras| == degree && multiset(extras) <= multiset(discardPair)
      ensures extras == BlindPicks(discardPair, picks, degree)
      ensures JoinedIn(graph, old(graph), extras, maxRows)
      ensures interConnected == old(interConnected)
    {
      extras := [];
      if degree > 0 {
        if degree > |discardPair| {
          degree := |discardPair|;
        }
        extras := JoinDrawn(discardPair, picks);
      }
    }

    /**
     * The loop of that phase, `degree` times: the next draw names a position in the list
     * of discarded pairs; that pair is joined blindly and removed from the list.
     */
    method JoinDrawn(discardPair: seq<Pair>, picks: seq<nat>) returns (ghost extras: seq<Pair>)
      requires Settings() && degree <= |discardPair| && degree <= |picks|
      requires forall q | q in discardPair :: IsCandidate(q, maxRows, maxCols, isWrapped)
      requires graph.Keys == withPath && Geometric(graph, maxRows, maxCols)
      requires forall x :: x in withPath <==> InGrid(x, maxRows, maxCols)
      modifies this`graph, this`interConnected
      ensures SubGraph(old(graph), graph)
      ensures graph.Keys == withPath && Geometric(graph, maxRows, maxCols)
      ensures extras == BlindPicks(discardPair, picks, degree)
      ensures JoinedIn(graph, old(graph), extras, maxRows)
      ensures interConnected == old(interConnected)
    {
      var discard := discardPair;
      ghost var treeGraph := graph;
      extras := [];
      ghost var count := degree;
      DrawnStart(treeGraph, withPath, maxRows, maxCols, isWrapped, discardPair, picks, count);
      for i := 0 to degree
        invariant Drawn(treeGraph, graph, withPath, maxRows, maxCols, isWrapped, discardPair, picks, count, i, discard, extras)
        invariant interConnected == old(interConnected)
      {
        discard, extras := DrawOne(treeGraph, discardPair, picks, count, i, discard, extras);
      }
      assert count == degree;
      DrawnDone(treeGraph, graph, withPath, maxRows, maxCols, isWrapped, discardPair, picks, count, discard, extras);
    }

    /**
     * One round of that loop: the draw `picks[i]`, reduced modulo the pairs left, names
     * the pair that is joined blindly and removed from the list.
     */
    method DrawOne(ghost treeGraph: Graph, discardPair: seq<Pair>, picks: seq<nat>, ghost count: nat, i: nat,
                   discard: seq<Pair>, ghost extras: seq<Pair>)
      returns (discardNow: seq<Pair>, ghost extrasNow: seq<Pair>)
      requires Settings() && i < count
      requires Drawn(treeGraph, graph, withPath, maxRows, maxCols, isWrapped, discardPair, picks, count, i, discard, extras)
      modifies this`graph, this`interConnected
      ensures Drawn(treeGraph, graph, withPath, maxRows, maxCols, isWrapped, discardPair, picks, count, i + 1, discardNow, extrasNow)
      ensures interConnected == old(interConnected)
    {
      var indexToRemove := picks[i] % |discard|;
      var q := discard[indexToRemove];
      JoinBlindly(q, treeGraph, extras);
      DrawnStep(treeGraph, old(graph), graph, withPath, maxRows, maxCols, isWrapped, discardPair, picks, count, i, discard, extras);
      extrasNow := extras + [q];
      discardNow := RemoveAt(discard, indexToRemove);
    }

    /** One extra edge: a blind `makeAdjacent` of a discarded candidate, which changes no group. */
    method JoinBlindly(q: Pair, ghost treeGraph: Graph, ghost extras: seq<Pair>)
      requires Settings() && IsCandidate(q, maxRows, maxCols, isWrapped)
      requires BlindInv(treeGraph, graph, withPath, maxRows, maxCols)
      requires JoinedIn(graph, treeGraph, extras, maxRows)
      modifies this`graph, this`interConnected
      ensures BlindInv(treeGraph, graph, withPath, maxRows, maxCols)
      ensures JoinedIn(graph, treeGraph, extras + [q], maxRows)
      ensures interConnected == old(interConnected)
    {
      BlindStep(treeGraph, graph, withPath, q, maxRows, maxCols, isWrapped);
      ConnectAllSnoc(treeGraph, extras, q, maxRows);
      MakeAdjacent(q, true);
    }

    /** `populateDistances`: every given cell is recorded as infinitely far away. */
    method PopulateDistances(allLocations: set<Coord>) returns (distanceMap: map<Coord, int>)
      ensures distanceMap.Keys == allLocations
      ensures forall c | c in distanceMap :: distanceMap[c] == IntMax
    {
      distanceMap := map[];
      var rest := allLocations;
      while rest != {}
        invariant distanceMap.Keys == allLocations - rest && rest <= allLocations
        invariant forall c | c in distanceMap :: distanceMap[c] == IntMax
        decreases |rest|
      {
        var location :| location in rest;
        distanceMap := distanceMap[location := IntMax];
        rest := rest - {location};
      }
    }

    /**
     * `distanceBetweenNodes`: a search from `start` over the move actions, taken in the
     * iteration order `order`. Every neighbour of the cell taken off the queue is recorded
     * one further than that cell (overwriting what was recorded before) and queued; then
     * the visited cells are dropped from the queue. The recorded distance of `end` is
     * returned when `end` comes off the queue, and `Integer.MIN_VALUE` when the queue runs
     * dry. A non-negative result is the number of moves of a walk from `start` to `end`,
     * and the minimum value is returned exactly when no walk joins them.
     */
    method DistanceBetweenNodes(start: Coord, end: Coord, order: seq<Direction>) returns (r: int)
      requires IsOrder(order)
      ensures r == IntMin || r >= 0
      ensures start == end ==> r == 0
      ensures r >= 0 ==> exists w :: IsPath(graph, start, end, w) && |w| == r + 1
      ensures r == IntMin <==> !Connected(graph, start, end)
    {
      var distanceMap := PopulateDistances(withPath);
      distanceMap := distanceMap[start := 0];
      var queue := [start];
      var visited: set<Coord> := {};
      ghost var paths: map<Coord, seq<Coord>> := map[start := [start]];
      ghost var universe := Nodes(graph) + {start};
      assert IsPath(graph, start, start, [start]);
      assert SearchInvariant(graph, start, end, universe, visited, queue, distanceMap, paths);
      while queue != []
        invariant SearchInvariant(graph, start, end, universe, visited, queue, distanceMap, paths)
        invariant visited == {} ==> queue == [start] && distanceMap[start] == 0
        decreases |universe - visited|
      {
        ghost var polled := queue;
        var currentLocation := queue[0];
        queue := queue[1..];
        if currentLocation == end {
          FoundEnd(graph, start, end, universe, visited, polled, distanceMap, paths);
          return distanceMap[currentLocation];
        }
        ghost var visited0 := visited;
        visited := visited + {currentLocation};
        distanceMap, queue, paths :=
          VisitRound(graph, currentLocation, order, distanceMap, queue, polled, visited0, start, end, universe, paths);
        queue := RemoveAll(queue, visited);
      }
      ClosedNotConnected(graph, visited, start, end);
      r := IntMin;
    }

    /** Two distinct caves with a path, joined by a walk of at least five moves. */
    ghost predicate FarApartCaves(start: Coord, end: Coord)
      reads this
    {
      start in withPath && end in withPath && IsCave(graph, start) && IsCave(graph, end) && start != end
      && exists w :: IsPath(graph, start, end, w) && |w| >= MinDistanceBetweenStartEnd + 1
    }

    /**
     * `getStartingEndPoint`. `listing` is the iteration order of the cells with a path and
     * `picks` the successive draws of `nextInt` (each taken modulo its bound). The start is
     * the drawn cave; the first candidate end is drawn among the other caves; while the
     * search puts the end fewer than five moves away, a new end is drawn by skipping into
     * the caves of the listing as many cells as a draw modulo the number of cells with a
     * path, which fails when the skip passes the last cave. With no cave, or only one,
     * `nextInt(0)` fails.
     */
    method GetStartingEndPoint(listing: seq<Coord>, picks: seq<nat>, order: seq<Direction>)
      returns (r: Result<(Coord, Coord)>)
      requires IsOrder(order)
      requires DistinctCells(listing) && forall x :: x in listing <==> x in withPath
      ensures |CavesAmong(graph, listing)| == 0 ==> r == Failure(BoundNotPositive)
      ensures |CavesAmong(graph, listing)| == 1 ==> r == Failure(if picks == [] then DrawsExhausted else BoundNotPositive)
      ensures |CavesAmong(graph, listing)| >= 2 && |picks| <= 1 ==> r == Failure(DrawsExhausted)
      ensures r.Failure? ==> r.error in {BoundNotPositive, "No caves found", DrawsExhausted}
      ensures r.Success? ==> r.value.0 == CavesAmong(graph, listing)[picks[0] % |CavesAmong(graph, listing)|]
      ensures r.Success? ==> FarApartCaves(r.value.0, r.value.1)
    {
      var temp := listing;
      var caves := CavesAmong(graph, temp);
      if |caves| == 0 {
        return Failure(BoundNotPositive);
      }
      if |picks| == 0 {
        return Failure(DrawsExhausted);
      }
      var start := caves[picks[0] % |caves|];
      caves := RemoveFirst(caves, start);
      if |caves| == 0 {
        return Failure(BoundNotPositive);
      }
      if |picks| == 1 {
        return Failure(DrawsExhausted);
      }
      var possibleEnd := caves[picks[1] % |caves|];
      assert possibleEnd in multiset(caves);
      r := DrawFarEnd(temp, picks, 2, start, possibleEnd, order);
    }

    /**
     * The loop of `getStartingEndPoint`: while the search puts `possibleEnd` fewer than five
     * moves from `start`, the next draw modulo the number of cells with a path is the number
     * of caves of the listing to skip, and the cave reached is the new candidate end; a
     * skip past the last cave fails. The draws from `picks[n0]` on are used.
     */
    method DrawFarEnd(listing: seq<Coord>, picks: seq<nat>, n0: nat, start: Coord, possibleEnd0: Coord,
                      order: seq<Direction>) returns (r: Result<(Coord, Coord)>)
      requires IsOrder(order) && n0 <= |picks|
      requires forall x :: x in listing <==> x in withPath
      requires start in withPath && IsCave(graph, start)
      requires possibleEnd0 in withPath && IsCave(graph, possibleEnd0)
      ensures r.Failure? ==> r.error in {"No caves found", DrawsExhausted}
      ensures r.Success? ==> r.value.0 == start && FarApartCaves(start, r.value.1)
    {
      var possibleEnd := possibleEnd0;
      var n := n0;
      var distance := DistanceBetweenNodes(start, possibleEnd, order);
      while distance < MinDistanceBetweenStartEnd
        invariant n0 <= n <= |picks|
        invariant possibleEnd in withPath && IsCave(graph, possibleEnd)
        invariant start == possibleEnd ==> distance == 0
        invariant distance >= 0 ==> exists w :: IsPath(graph, start, possibleEnd, w) && |w| == distance + 1
        decreases |picks| - n
      {
        if n == |picks| {
          return Failure(DrawsExhausted);
        }
        var skip := picks[n] % |listing|;
        n := n + 1;
        var allCaves := CavesAmong(graph, listing);
        if skip >= |allCaves| {
          return Failure("No caves found");
        }
        possibleEnd := allCaves[skip];
        distance := DistanceBetweenNodes(start, possibleEnd, order);
      }
      return Success((start, possibleEnd));
    }

    /**
     * `addTreasure`: `TreasureTarget` of the caves are to get treasure; each draw names a
     * cave of the listing (modulo their number) and a treasure type, the treasure is added
     * to that cave, and the count goes down when it was the cave's first item. The result
     * says whether the count reached zero before the draws ran out.
     */
    method AddTreasure(listing: seq<Coord>, draws: seq<(nat, TreasureType)>) returns (placed: bool)
      requires Settings() && treasure == map[]
      requires DistinctCells(listing) && forall x :: x in listing <==> x in withPath
      modifies this`treasure
      ensures forall c | c in treasure :: c in withPath && IsCave(graph, c) && |treasure[c]| >= 1
      ensures placed <==> |treasure.Keys| == TreasureTarget(|CavesAmong(graph, listing)|, percentTreasure)
      ensures |treasure.Keys| <= TreasureTarget(|CavesAmong(graph, listing)|, percentTreasure)
    {
      var caves := CavesAmong(graph, listing);
      var numCaves := |caves|;
      var cavesWithTreasure := TreasureTarget(numCaves, percentTreasure);
      TargetAtMostCaves(numCaves, percentTreasure);
      var n := 0;
      while cavesWithTreasure > 0
        invariant n <= |draws|
        invariant forall c | c in treasure :: c in caves && |treasure[c]| >= 1
        invariant |treasure.Keys| + cavesWithTreasure == TreasureTarget(numCaves, percentTreasure)
        decreases |draws| - n
      {
        if n == |draws| {
          return false;
        }
        var randomCave := caves[draws[n].0 % |caves|];
        var items := if randomCave in treasure then treasure[randomCave] else [];
        treasure := treasure[randomCave := items + [Treasure(draws[n].1)]];
        if |treasure[randomCave]| == 1 {
          cavesWithTreasure := cavesWithTreasure - 1;
        }
        n := n + 1;
      }
      return true;
    }
  }
}
