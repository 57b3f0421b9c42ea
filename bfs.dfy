/**
 * `distanceToAllNodes` of IMazeLocationBuilder: a breadth-first search over the move
 * edges that records, for every cell reachable from the start, its distance in moves.
 */
module Bfs {
  import opened Grid
  import opened Graph

  /**
   * `queue.removeAll(visited)`: drops every queued cell that is in `s` (all copies of
   * it) and keeps the rest in order.
   */
  function RemoveAll(q: seq<Coord>, s: set<Coord>): (r: seq<Coord>)
    ensures forall x :: x in r <==> x in q && x !in s
    ensures |r| <= |q|
  {
    if q == [] then []
    else
      var front := RemoveAll(q[..|q| - 1], s);
      assert q == q[..|q| - 1] + [q[|q| - 1]];
      if q[|q| - 1] in s then front else front + [q[|q| - 1]]
  }

  lemma {:induction false} RemoveAllDropsHead(x: Coord, t: seq<Coord>, s: set<Coord>)
    requires x in s
    ensures RemoveAll([x] + t, s) == RemoveAll(t, s)
    decreases |t|
  {
    if t != [] {
      var t', last := t[..|t| - 1], t[|t| - 1];
      assert [x] + t == ([x] + t') + [last];
      RemoveAllSnoc([x] + t', last, s);
      assert t == t' + [last];
      RemoveAllSnoc(t', last, s);
      RemoveAllDropsHead(x, t', s);
    }
  }

  lemma RemoveAllSnoc(q: seq<Coord>, y: Coord, s: set<Coord>)
    ensures RemoveAll(q + [y], s) == if y in s then RemoveAll(q, s) else RemoveAll(q, s) + [y]
  {
    assert (q + [y])[..|q|] == q;
  }

  /** The cells a queue holds, as a set. */
  ghost function Elems(q: seq<Coord>): set<Coord>
  {
    set x | x in q
  }

  lemma ElemsSnoc(q: seq<Coord>, y: Coord)
    ensures Elems(q + [y]) == Elems(q) + {y}
  {
  }

  ghost predicate InDom(q: seq<Coord>, dist: map<Coord, nat>)
  {
    forall x | x in q :: x in dist
  }

  /**
   * The queue's distances never decrease from front to back, except that a later copy
   * of a cell already queued may appear anywhere: the search queues a cell once per
   * edge leading to it, not only when it first records the cell's distance.
   */
  ghost predicate Ordered(q: seq<Coord>, dist: map<Coord, nat>)
    requires InDom(q, dist)
    decreases |q|
  {
    q == [] ||
    (Ordered(q[..|q| - 1], dist) &&
     (q[|q| - 1] in q[..|q| - 1] || forall x | x in q[..|q| - 1] :: dist[x] <= dist[q[|q| - 1]]))
  }

  lemma OrderedSnoc(q: seq<Coord>, y: Coord, dist: map<Coord, nat>)
    requires InDom(q + [y], dist) && Ordered(q, dist)
    requires y in q || forall x | x in q :: dist[x] <= dist[y]
    ensures Ordered(q + [y], dist)
  {
    assert (q + [y])[..|q|] == q;
  }

  /** The front of an ordered queue holds its least distance. */
  lemma {:induction false} OrderedHeadMin(q: seq<Coord>, dist: map<Coord, nat>)
    requires InDom(q, dist) && Ordered(q, dist) && q != []
    ensures forall x | x in q :: dist[q[0]] <= dist[x]
    decreases |q|
  {
    if |q| > 1 {
      var f := q[..|q| - 1];
      OrderedHeadMin(f, dist);
      assert f[0] == q[0];
      forall x | x in q
        ensures dist[q[0]] <= dist[x]
      {
        if x !in f {
          assert x == q[|q| - 1];
        }
      }
    }
  }

  lemma {:induction false} RemoveAllOrdered(q: seq<Coord>, s: set<Coord>, dist: map<Coord, nat>)
    requires InDom(q, dist) && Ordered(q, dist)
    ensures Ordered(RemoveAll(q, s), dist)
    decreases |q|
  {
    if q != [] {
      var f := q[..|q| - 1];
      assert q == f + [q[|q| - 1]];
      RemoveAllOrdered(f, s, dist);
      RemoveAllSnoc(f, q[|q| - 1], s);
      if q[|q| - 1] !in s {
        OrderedSnoc(RemoveAll(f, s), q[|q| - 1], dist);
      }
    }
  }

  lemma {:induction false} OrderedExtend(q: seq<Coord>, d1: map<Coord, nat>, d2: map<Coord, nat>)
    requires InDom(q, d1) && Ordered(q, d1)
    requires forall x | x in q :: x in d2 && d2[x] == d1[x]
    ensures InDom(q, d2) && Ordered(q, d2)
    decreases |q|
  {
    if q != [] {
      OrderedExtend(q[..|q| - 1], d1, d2);
    }
  }

  /** Every recorded distance is the length of an actual walk from the start. */
  ghost predicate Witnessed(g: Graph, start: Coord, dist: map<Coord, nat>, paths: map<Coord, seq<Coord>>)
  {
    dist.Keys == paths.Keys &&
    forall y | y in dist :: IsPath(g, start, y, paths[y]) && |paths[y]| == dist[y] + 1
  }

  lemma WitnessedAdd(g: Graph, start: Coord, dist: map<Coord, nat>, paths: map<Coord, seq<Coord>>,
                     current: Coord, y: Coord)
    requires Witnessed(g, start, dist, paths) && current in dist && Adjacent(g, current, y)
    ensures Witnessed(g, start, dist[y := dist[current] + 1], paths[y := paths[current] + [y]])
  {
    WalkSnoc(g, paths[current], y);
  }

  /** Every neighbour of a cell of `done` is recorded, at most one move further away. */
  ghost predicate Closed(g: Graph, dist: map<Coord, nat>, done: set<Coord>)
  {
    forall v | v in done :: v in dist && forall y | Adjacent(g, v, y) :: y in dist && dist[y] <= dist[v] + 1
  }

  /** Distances that are closed under the edges bound the length of every walk from the start. */
  lemma {:induction false} WalkLowerBound(g: Graph, start: Coord, dist: map<Coord, nat>, w: seq<Coord>)
    requires start in dist && dist[start] == 0 && Closed(g, dist, dist.Keys)
    requires IsWalk(g, w) && |w| >= 1 && w[0] == start
    ensures w[|w| - 1] in dist && dist[w[|w| - 1]] <= |w| - 1
    decreases |w|
  {
    if |w| > 1 {
      var v := w[..|w| - 1];
      assert IsWalk(g, v) by {
        forall i | 0 <= i < |v| - 1
          ensures Adjacent(g, v[i], v[i + 1])
        {
          assert v[i] == w[i] && v[i + 1] == w[i + 1];
        }
      }
      WalkLowerBound(g, start, dist, v);
      assert Adjacent(g, w[|w| - 2], w[|w| - 1]);
    }
  }

  /** Distances already recorded are never changed. */
  ghost predicate Keeps(dist0: map<Coord, nat>, dist: map<Coord, nat>)
  {
    forall x | x in dist0 :: x in dist && dist[x] == dist0[x]
  }

  /** The recorded cells are the visited and the queued ones, all within `nodes`. */
  ghost predicate Recorded(dist: map<Coord, nat>, visited: set<Coord>, queue: seq<Coord>, nodes: set<Coord>)
  {
    dist.Keys == visited + Elems(queue) && dist.Keys <= nodes
  }

  /** Every unvisited queued cell is at distance `m` or `m + 1`. */
  ghost predicate Band(dist: map<Coord, nat>, visited: set<Coord>, queue: seq<Coord>, m: nat)
  {
    InDom(queue, dist) && forall x | x in queue && x !in visited :: m <= dist[x] <= m + 1
  }

  /** The queue, once the visited cells are dropped from it, is ordered. */
  ghost predicate OrderedRest(dist: map<Coord, nat>, visited: set<Coord>, queue: seq<Coord>)
  {
    InDom(queue, dist) && Ordered(RemoveAll(queue, visited), dist)
  }

  /** Every visited cell is recorded at distance at most `m`. */
  ghost predicate VisitedBelow(dist: map<Coord, nat>, visited: set<Coord>, m: nat)
  {
    forall v | v in visited :: v in dist && dist[v] <= m
  }

  /** The moves of `current` in the first `i` directions lead to recorded cells at most `m + 1` away. */
  ghost predicate DoneUpTo(g: Graph, current: Coord, dist: map<Coord, nat>, m: nat, i: nat)
  {
    forall e | e in Moves(g, current) && Rank(e) < i ::
      Moves(g, current)[e] in dist && dist[Moves(g, current)[e]] <= m + 1
  }

  /**
   * What holds while the move actions of `current` (distance `m`) are being processed,
   * once the first `i` directions are done.
   */
  ghost predicate ExpandInv(g: Graph, current: Coord, m: nat, dist0: map<Coord, nat>, start: Coord,
                            nodes: set<Coord>, visited: set<Coord>, i: nat,
                            dist: map<Coord, nat>, queue: seq<Coord>, paths: map<Coord, seq<Coord>>)
  {
    i <= |AllDirections| && current in visited && current in dist && dist[current] == m &&
    Nodes(g) <= nodes &&
    Keeps(dist0, dist) &&
    Recorded(dist, visited, queue, nodes) &&
    Witnessed(g, start, dist, paths) &&
    Band(dist, visited, queue, m) &&
    VisitedBelow(dist, visited, m) &&
    OrderedRest(dist, visited, queue) &&
    DoneUpTo(g, current, dist, m, i)
  }

  lemma DoneSkip(g: Graph, current: Coord, dist: map<Coord, nat>, m: nat, i: nat)
    requires DoneUpTo(g, current, dist, m, i) && i < |AllDirections| && AllDirections[i] !in Moves(g, current)
    ensures DoneUpTo(g, current, dist, m, i + 1)
  {
    RankOfIndex(i);
  }

  lemma DoneStep(g: Graph, current: Coord, dist: map<Coord, nat>, dist': map<Coord, nat>, m: nat, i: nat)
    requires DoneUpTo(g, current, dist, m, i) && Keeps(dist, dist')
    requires i < |AllDirections| && AllDirections[i] in Moves(g, current)
    requires Moves(g, current)[AllDirections[i]] in dist' && dist'[Moves(g, current)[AllDirections[i]]] <= m + 1
    ensures DoneUpTo(g, current, dist', m, i + 1)
  {
    RankOfIndex(i);
  }

  lemma ExpandSkip(g: Graph, current: Coord, m: nat, dist0: map<Coord, nat>, start: Coord,
                   nodes: set<Coord>, visited: set<Coord>, i: nat,
                   dist: map<Coord, nat>, queue: seq<Coord>, paths: map<Coord, seq<Coord>>)
    requires ExpandInv(g, current, m, dist0, start, nodes, visited, i, dist, queue, paths)
    requires i < |AllDirections| && AllDirections[i] !in Moves(g, current)
    ensures ExpandInv(g, current, m, dist0, start, nodes, visited, i + 1, dist, queue, paths)
  {
    DoneSkip(g, current, dist, m, i);
  }

  /** Processing a move to a cell whose distance is already recorded only queues it. */
  lemma ExpandSeen(g: Graph, current: Coord, m: nat, dist0: map<Coord, nat>, start: Coord,
                   nodes: set<Coord>, visited: set<Coord>, i: nat,
                   dist: map<Coord, nat>, queue: seq<Coord>, paths: map<Coord, seq<Coord>>, y: Coord)
    requires ExpandInv(g, current, m, dist0, start, nodes, visited, i, dist, queue, paths)
    requires i < |AllDirections| && AllDirections[i] in Moves(g, current)
    requires y == Moves(g, current)[AllDirections[i]] && y in dist
    ensures ExpandInv(g, current, m, dist0, start, nodes, visited, i + 1, dist, queue + [y], paths)
  {
    assert Recorded(dist, visited, queue + [y], nodes) by {
      ElemsSnoc(queue, y);
    }
    assert Band(dist, visited, queue + [y], m) && OrderedRest(dist, visited, queue + [y]) by {
      RemoveAllSnoc(queue, y, visited);
      if y !in visited {
        OrderedSnoc(RemoveAll(queue, visited), y, dist);
      }
    }
    assert y in dist && dist[y] <= m + 1 by {
      assert Recorded(dist, visited, queue, nodes) && VisitedBelow(dist, visited, m);
      if y !in visited {
        assert y in Elems(queue);
      }
    }
    DoneStep(g, current, dist, dist, m, i);
  }

  lemma RecordedNew(dist: map<Coord, nat>, visited: set<Coord>, queue: seq<Coord>, nodes: set<Coord>,
                    y: Coord, v: nat)
    requires Recorded(dist, visited, queue, nodes) && y in nodes
    ensures Recorded(dist[y := v], visited, queue + [y], nodes)
  {
    ElemsSnoc(queue, y);
  }

  lemma BandNew(dist: map<Coord, nat>, visited: set<Coord>, queue: seq<Coord>, m: nat, y: Coord)
    requires Band(dist, visited, queue, m) && y !in dist
    ensures Band(dist[y := m + 1], visited, queue + [y], m)
  {
  }

  lemma OrderedRestNew(dist: map<Coord, nat>, visited: set<Coord>, queue: seq<Coord>, m: nat, y: Coord)
    requires OrderedRest(dist, visited, queue) && Band(dist, visited, queue, m) && y !in dist && y !in visited
    ensures OrderedRest(dist[y := m + 1], visited, queue + [y])
  {
    var dist' := dist[y := m + 1];
    RemoveAllSnoc(queue, y, visited);
    OrderedExtend(RemoveAll(queue, visited), dist, dist');
    OrderedSnoc(RemoveAll(queue, visited), y, dist');
  }

  /** Processing a move to a cell reached for the first time records it at distance `m + 1`. */
  lemma ExpandNew(g: Graph, current: Coord, m: nat, dist0: map<Coord, nat>, start: Coord,
                  nodes: set<Coord>, visited: set<Coord>, i: nat,
                  dist: map<Coord, nat>, queue: seq<Coord>, paths: map<Coord, seq<Coord>>, y: Coord)
    requires ExpandInv(g, current, m, dist0, start, nodes, visited, i, dist, queue, paths)
    requires i < |AllDirections| && AllDirections[i] in Moves(g, current)
    requires y == Moves(g, current)[AllDirections[i]] && y !in dist
    ensures ExpandInv(g, current, m, dist0, start, nodes, visited, i + 1, dist[y := m + 1],
                      queue + [y], paths[y := paths[current] + [y]])
  {
    assert Adjacent(g, current, y);
    AdjacentInNodes(g, current, y);
    WitnessedAdd(g, start, dist, paths, current, y);
    RecordedNew(dist, visited, queue, nodes, y, m + 1);
    BandNew(dist, visited, queue, m, y);
    assert VisitedBelow(dist[y := m + 1], visited, m);
    OrderedRestNew(dist, visited, queue, m, y);
    DoneStep(g, current, dist, dist[y := m + 1], m, i);
  }

  /**
   * The inner loop of the search: every move action of `current` records the
   * destination's distance unless one is recorded already (`computeIfAbsent`), and
   * queues the destination. The moves are taken in the fixed order of `AllDirections`,
   * whereas the Java code walks the cell's move actions in `HashSet` iteration order.
   * The distances recorded do not depend on that order; the order of the queue does.
   */
  method EnqueueNeighbours(g: Graph, current: Coord, dist0: map<Coord, nat>, queue0: seq<Coord>,
                           visited: set<Coord>, ghost start: Coord, ghost paths0: map<Coord, seq<Coord>>,
                           ghost nodes: set<Coord>)
    returns (dist: map<Coord, nat>, queue: seq<Coord>, ghost paths: map<Coord, seq<Coord>>)
    requires current in dist0
    requires ExpandInv(g, current, dist0[current], dist0, start, nodes, visited, 0, dist0, queue0, paths0)
    ensures ExpandInv(g, current, dist0[current], dist0, start, nodes, visited, |AllDirections|, dist, queue, paths)
  {
    dist, queue, paths := dist0, queue0, paths0;
    var m := dist0[current];
    var moves := Moves(g, current);
    var i := 0;
    while i < |AllDirections|
      invariant ExpandInv(g, current, m, dist0, start, nodes, visited, i, dist, queue, paths)
    {
      var d := AllDirections[i];
      if d in moves {
        var y := moves[d];
        if y !in dist {
          ExpandNew(g, current, m, dist0, start, nodes, visited, i, dist, queue, paths, y);
          dist := dist[y := m + 1];
          paths := paths[y := paths[current] + [y]];
        } else {
          ExpandSeen(g, current, m, dist0, start, nodes, visited, i, dist, queue, paths, y);
        }
        queue := queue + [y];
      } else {
        ExpandSkip(g, current, m, dist0, start, nodes, visited, i, dist, queue, paths);
      }
      i := i + 1;
    }
  }

  /**
   * The front of the queue bounds the search: every queued cell is at most one move
   * further than the front, and every visited cell is no further than it.
   */
  ghost predicate FrontBounds(dist: map<Coord, nat>, visited: set<Coord>, queue: seq<Coord>)
  {
    InDom(queue, dist) && visited <= dist.Keys &&
    (queue != [] ==>
       (forall x | x in queue :: dist[x] <= dist[queue[0]] + 1) &&
       (forall v | v in visited :: dist[v] <= dist[queue[0]]))
  }

  /** The outer loop's invariant: the state of a breadth-first search between two expansions. */
  ghost predicate SearchInv(g: Graph, start: Coord, nodes: set<Coord>, visited: set<Coord>,
                            dist: map<Coord, nat>, queue: seq<Coord>, paths: map<Coord, seq<Coord>>)
  {
    start in dist && dist[start] == 0 &&
    Nodes(g) <= nodes &&
    Witnessed(g, start, dist, paths) &&
    Recorded(dist, visited, queue, nodes) &&
    Elems(queue) !! visited &&
    Closed(g, dist, visited) &&
    InDom(queue, dist) && Ordered(queue, dist) &&
    FrontBounds(dist, visited, queue)
  }

  lemma SearchStart(g: Graph, start: Coord)
    ensures SearchInv(g, start, Nodes(g) + {start}, {}, map[start := 0], [start], map[start := [start]])
  {
    assert [start][..0] == [];
    assert IsPath(g, start, start, [start]);
    assert Elems([start]) == {start};
  }

  /** Taking the front cell off the queue and marking it visited sets up its expansion. */
  lemma SearchPop(g: Graph, start: Coord, nodes: set<Coord>, visited: set<Coord>,
                  dist: map<Coord, nat>, queue: seq<Coord>, paths: map<Coord, seq<Coord>>)
    requires SearchInv(g, start, nodes, visited, dist, queue, paths) && queue != []
    ensures ExpandInv(g, queue[0], dist[queue[0]], dist, start, nodes, visited + {queue[0]}, 0,
                      dist, queue[1..], paths)
  {
    var current := queue[0];
    var m := dist[current];
    var visited' := visited + {current};
    var rest := queue[1..];
    assert queue == [current] + rest;
    assert Elems(queue) == {current} + Elems(rest);
    assert Recorded(dist, visited', rest, nodes);
    assert Band(dist, visited', rest, m) by {
      OrderedHeadMin(queue, dist);
    }
    assert OrderedRest(dist, visited', rest) by {
      RemoveAllOrdered(queue, visited', dist);
      RemoveAllDropsHead(current, rest, visited');
    }
  }

  lemma ClosedKeeps(g: Graph, dist0: map<Coord, nat>, dist: map<Coord, nat>, done: set<Coord>)
    requires Closed(g, dist0, done) && Keeps(dist0, dist)
    ensures Closed(g, dist, done)
  {
  }

  lemma ClosedAddCurrent(g: Graph, dist: map<Coord, nat>, done: set<Coord>, current: Coord, m: nat)
    requires Closed(g, dist, done) && current in dist && dist[current] == m
    requires DoneUpTo(g, current, dist, m, |AllDirections|)
    ensures Closed(g, dist, done + {current})
  {
    forall y | Adjacent(g, current, y)
      ensures y in dist && dist[y] <= m + 1
    {
      var d :| d in Moves(g, current) && Moves(g, current)[d] == y;
    }
  }

  lemma ElemsRemoveAll(q: seq<Coord>, s: set<Coord>)
    ensures Elems(RemoveAll(q, s)) == Elems(q) - s
  {
  }

  /** After an expansion, dropping the visited cells from the queue restores the invariant. */
  lemma SearchResume(g: Graph, start: Coord, nodes: set<Coord>, visited: set<Coord>, current: Coord,
                     dist0: map<Coord, nat>, dist: map<Coord, nat>, queue: seq<Coord>,
                     paths: map<Coord, seq<Coord>>)
    requires current in dist0 && current !in visited && Closed(g, dist0, visited)
    requires ExpandInv(g, current, dist0[current], dist0, start, nodes, visited + {current},
                       |AllDirections|, dist, queue, paths)
    requires start in dist0 && dist0[start] == 0
    ensures SearchInv(g, start, nodes, visited + {current}, dist, RemoveAll(queue, visited + {current}), paths)
    ensures |nodes - (visited + {current})| < |nodes - visited|
  {
    var m := dist0[current];
    var visited' := visited + {current};
    QueueResume(dist, visited', queue, nodes, m);
    assert Closed(g, dist, visited') by {
      ClosedKeeps(g, dist0, dist, visited);
      ClosedAddCurrent(g, dist, visited, current, m);
    }
    assert current in nodes - visited;
    assert nodes - visited' < nodes - visited;
  }

  /** The queue without its visited cells is recorded, ordered and within one step of its front. */
  lemma QueueResume(dist: map<Coord, nat>, visited: set<Coord>, queue: seq<Coord>, nodes: set<Coord>, m: nat)
    requires Recorded(dist, visited, queue, nodes) && Band(dist, visited, queue, m)
    requires VisitedBelow(dist, visited, m) && OrderedRest(dist, visited, queue)
    ensures var q := RemoveAll(queue, visited);
      Recorded(dist, visited, q, nodes) && Elems(q) !! visited &&
      InDom(q, dist) && Ordered(q, dist) && FrontBounds(dist, visited, q)
  {
    var q := RemoveAll(queue, visited);
    ElemsRemoveAll(queue, visited);
    if q != [] {
      assert q[0] in q;
    }
  }

  /**
   * `dist` holds `start` at distance 0, holds only cells reachable from `start`, each at
   * the length of some walk to it, and holds every reachable cell at no more than the
   * length of any walk to it: the shortest distances from `start`.
   */
  ghost predicate ShortestFrom(g: Graph, start: Coord, dist: map<Coord, nat>)
  {
    && start in dist && dist[start] == 0
    && (forall y | y in dist :: exists w :: IsPath(g, start, y, w) && |w| == dist[y] + 1)
    && (forall y, w | IsPath(g, start, y, w) :: y in dist && dist[y] <= |w| - 1)
  }

  /** Once the queue is empty, the recorded distances are exactly the shortest walk lengths. */
  lemma SearchDone(g: Graph, start: Coord, nodes: set<Coord>, visited: set<Coord>,
                   dist: map<Coord, nat>, paths: map<Coord, seq<Coord>>)
    requires SearchInv(g, start, nodes, visited, dist, [], paths)
    ensures ShortestFrom(g, start, dist)
  {
    assert Elems([]) == {};
    assert Closed(g, dist, dist.Keys);
    forall y | y in dist
      ensures exists w :: IsPath(g, start, y, w) && |w| == dist[y] + 1
    {
      assert IsPath(g, start, y, paths[y]);
    }
    forall y, w | IsPath(g, start, y, w)
      ensures y in dist && dist[y] <= |w| - 1
    {
      WalkLowerBound(g, start, dist, w);
    }
  }

  /**
   * One round of the outer loop: the front cell is taken off the queue and marked
   * visited, its neighbours are recorded and queued, and the visited cells are dropped
   * from the queue.
   */
  method VisitFront(g: Graph, ghost start: Coord, ghost nodes: set<Coord>, visited0: set<Coord>,
                    dist0: map<Coord, nat>, queue0: seq<Coord>, ghost paths0: map<Coord, seq<Coord>>)
    returns (visited: set<Coord>, dist: map<Coord, nat>, queue: seq<Coord>, ghost paths: map<Coord, seq<Coord>>)
    requires SearchInv(g, start, nodes, visited0, dist0, queue0, paths0) && queue0 != []
    ensures SearchInv(g, start, nodes, visited, dist, queue, paths)
    ensures |nodes - visited| < |nodes - visited0|
  {
    var current := queue0[0];
    SearchPop(g, start, nodes, visited0, dist0, queue0, paths0);
    visited := visited0 + {current};
    dist, queue, paths := EnqueueNeighbours(g, current, dist0, queue0[1..], visited, start, paths0, nodes);
    SearchResume(g, start, nodes, visited0, current, dist0, dist, queue, paths);
    queue := RemoveAll(queue, visited);
  }

  /**
   * Breadth-first search from `start`, as the source does it: the queue may hold a cell
   * several times, a newly reached cell keeps the first distance recorded for it, and
   * after each expansion every visited cell is removed from the queue. The result is
   * exactly the set of cells reachable from `start`, each with its shortest distance.
   */
  method DistanceToAllNodes(g: Graph, start: Coord) returns (dist: map<Coord, nat>)
    ensures ShortestFrom(g, start, dist)
  {
    dist := map[start := 0];
    var queue := [start];
    var visited: set<Coord> := {};
    ghost var paths: map<Coord, seq<Coord>> := map[start := [start]];
    ghost var nodes := Nodes(g) + {start};
    SearchStart(g, start);
    while queue != []
      invariant SearchInv(g, start, nodes, visited, dist, queue, paths)
      decreases |nodes - visited|
    {
      visited, dist, queue, paths := VisitFront(g, start, nodes, visited, dist, queue, paths);
    }
    SearchDone(g, start, nodes, visited, dist, paths);
  }
}
