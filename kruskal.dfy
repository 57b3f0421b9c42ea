/**
 * The proof of Kruskal's loop in RandomMazeBuilder's `buildMaze`, on values: the state
 * the loop keeps, and how one pair, joined or discarded, keeps it.
 */
module Kruskal {
  import opened Grid
  import opened Graph
  import opened Lists
  import opened Candidates
  import opened Partitions

  /** Every move of the graph leads to the grid neighbour in its direction. */
  ghost predicate Geometric(g: Graph, rows: nat, cols: nat)
    requires rows > 0 && cols > 0
  {
    forall x, d | d in Moves(g, x) :: Moves(g, x)[d] == Step(x, d, rows, cols)
  }

  lemma AddMoveGeometric(g: Graph, c: Coord, d: Direction, dest: Coord, rows: nat, cols: nat)
    requires rows > 0 && cols > 0 && Geometric(g, rows, cols) && dest == Step(c, d, rows, cols)
    ensures Geometric(AddMove(g, c, d, dest), rows, cols)
  {
  }

  /**
   * Joining two cells that are each other's neighbours in the named directions keeps every
   * move geometric, makes the two cells adjacent both ways and adds both to the graph.
   */
  lemma ConnectGeometric(g: Graph, l: Coord, r: Coord, h: Heading, rows: nat, cols: nat)
    requires rows > 0 && cols > 0 && l != r && Geometric(g, rows, cols)
    requires Step(l, h.leftToRight, rows, cols) == r && Step(r, h.rightToLeft, rows, cols) == l
    ensures Geometric(Connect(g, l, r, h), rows, cols)
    ensures Adjacent(Connect(g, l, r, h), l, r) && Adjacent(Connect(g, l, r, h), r, l)
    ensures Connect(g, l, r, h).Keys == g.Keys + {l, r}
  {
    var g1 := AddMove(g, l, h.leftToRight, r);
    AddMoveGeometric(g, l, h.leftToRight, r, rows, cols);
    AddMoveGeometric(g1, r, h.rightToLeft, l, rows, cols);
    var g2 := Connect(g, l, r, h);
    assert Moves(g2, l)[h.leftToRight] == r;
    assert Moves(g2, r)[h.rightToLeft] == l;
  }

  /** `findFirst` over the groups: the first group holding `x`. */
  function FirstWith(parts: Parts, x: Coord): (i: nat)
    requires Covered(parts, x)
    ensures i < |parts| && x in parts[i]
    ensures forall k | 0 <= k < i :: x !in parts[k]
  {
    if x in parts[0] then 0
    else
      assert Covered(parts[1..], x) by {
        var k :| 0 <= k < |parts| && x in parts[k];
        assert parts[1..][k - 1] == parts[k];
      }
      1 + FirstWith(parts[1..], x)
  }

  /** `remove(setWithRight)` finds the group at the position `findFirst` found it. */
  lemma FirstWithIsIndex(parts: Parts, x: Coord)
    requires Covered(parts, x)
    ensures parts[FirstWith(parts, x)] in parts
    ensures IndexOf(parts, parts[FirstWith(parts, x)]) == FirstWith(parts, x)
  {
    var j := FirstWith(parts, x);
    var r := IndexOf(parts, parts[j]);
    assert r <= j;
  }

  /**
   * The list after `remove` of the smaller group and `addAll` into the larger one, in
   * place, is the merge of the two groups.
   */
  lemma RemoveThenGrow(parts: Parts, i: nat, j: nat, small: nat, big: nat)
    requires i < |parts| && j < |parts| && i != j
    requires small == Gone(parts, i, j) && big == Grown(parts, i, j)
    ensures (if big < small then big else big - 1) < |parts| - 1
    ensures RemoveAt(parts, small)[if big < small then big else big - 1 := parts[big] + parts[small]] == Merge(parts, i, j)
  {
    var at := if big < small then big else big - 1;
    var a := RemoveAt(parts, small)[at := parts[big] + parts[small]];
    var b := Merge(parts, i, j);
    assert |a| == |b|;
    forall k | 0 <= k < |a|
      ensures a[k] == b[k]
    {
      var was := Shift(k, small);
      if k == at {
        assert was == big;
        assert a[k] == parts[big] + parts[small];
      } else {
        assert was != big;
        assert a[k] == RemoveAt(parts, small)[k] == parts[was];
      }
    }
  }

  /**
   * Removing the group that holds `x` first, the smaller of two, and adding its cells in
   * place to the larger one is `Merge` of the two groups.
   */
  lemma GrowInPlace(parts: Parts, i: nat, j: nat, small: nat, big: nat, x: Coord)
    requires i < |parts| && j < |parts| && i != j
    requires small == Gone(parts, i, j) && big == Grown(parts, i, j)
    requires Covered(parts, x) && small == FirstWith(parts, x)
    ensures parts[small] in parts && (if big < small then big else big - 1) < |RemoveFirst(parts, parts[small])|
    ensures RemoveFirst(parts, parts[small])[if big < small then big else big - 1 := parts[big] + parts[small]] == Merge(parts, i, j)
  {
    FirstWithIsIndex(parts, x);
    RemoveThenGrow(parts, i, j, small, big);
  }

  /**
   * The state of Kruskal's loop after the pairs `done`: the shape of the groups and the
   * graph (`Forest`) and the record of the pairs seen (`Ledger`).
   */
  ghost predicate KruskalInv(parts: Parts, g: Graph, w: set<Coord>, tree: seq<Pair>, discard: seq<Pair>,
                             done: seq<Pair>, rows: nat, cols: nat)
    requires rows > 0 && cols > 0
  {
    Forest(parts, g, w, rows, cols) && Ledger(parts, tree, discard, done, rows, cols)
  }

  /**
   * The groups partition the grid and each is connected by the edges added so far, every
   * edge is geometric, and the cells with a path are the graph's cells, holding every
   * group of two or more.
   */
  ghost predicate Forest(parts: Parts, g: Graph, w: set<Coord>, rows: nat, cols: nat)
    requires rows > 0 && cols > 0
  {
    IsPartition(parts, rows, cols) && PartsConnected(g, parts) && Geometric(g, rows, cols)
    && g.Keys == w
    && (forall x | x in w :: InGrid(x, rows, cols))
    && (forall k | 0 <= k < |parts| && |parts[k]| >= 2 :: parts[k] <= w)
  }

  /**
   * Each tree edge has merged two groups, every pair seen so far lies inside one group,
   * and each pair went either to the tree or to the discard list.
   */
  ghost predicate Ledger(parts: Parts, tree: seq<Pair>, discard: seq<Pair>, done: seq<Pair>, rows: nat, cols: nat)
  {
    && |parts| + |tree| == rows * cols
    && (forall k | 0 <= k < |done| :: SamePart(parts, done[k].left, done[k].right))
    && multiset(tree) + multiset(discard) == multiset(done)
  }

  /** Before the first pair: one singleton group per cell and no edges. */
  lemma KruskalStart(rows: nat, cols: nat)
    requires rows > 0 && cols > 0
    ensures KruskalInv(Singletons(Cells(rows, cols)), map[], {}, [], [], [], rows, cols)
  {
    CellsExactly(rows, cols);
    SingletonsPartition(Cells(rows, cols), rows, cols, map[]);
  }

  /** A pair whose cells lie in two groups becomes a tree edge and merges the two groups. */
  lemma KruskalJoin(parts: Parts, g: Graph, w: set<Coord>, tree: seq<Pair>, discard: seq<Pair>,
                    done: seq<Pair>, p: Pair, i: nat, j: nat, rows: nat, cols: nat, wrapped: bool)
    requires rows >= 2 && cols >= 2
    requires KruskalInv(parts, g, w, tree, discard, done, rows, cols)
    requires IsCandidate(p, rows, cols, wrapped) && !SamePart(parts, p.left, p.right)
    requires i < |parts| && p.left in parts[i] && j < |parts| && p.right in parts[j]
    ensures i != j && p.left != p.right
    ensures KruskalInv(Merge(parts, i, j), Connect(g, p.left, p.right, BuilderHeading(p, rows)),
                       w + {p.left, p.right}, tree + [p], discard, done + [p], rows, cols)
  {
    CandidateHeading(p, rows, cols, wrapped);
    JoinForest(parts, g, w, p, i, j, rows, cols, wrapped);
    JoinLedger(parts, tree, discard, done, p, i, j, rows, cols);
  }

  /** Joining keeps the shape of the groups and the graph. */
  lemma JoinForest(parts: Parts, g: Graph, w: set<Coord>, p: Pair, i: nat, j: nat, rows: nat, cols: nat, wrapped: bool)
    requires rows >= 2 && cols >= 2
    requires Forest(parts, g, w, rows, cols)
    requires IsCandidate(p, rows, cols, wrapped) && p.left != p.right && i != j
    requires i < |parts| && p.left in parts[i] && j < |parts| && p.right in parts[j]
    ensures Forest(Merge(parts, i, j), Connect(g, p.left, p.right, BuilderHeading(p, rows)), w + {p.left, p.right}, rows, cols)
  {
    var l, r, h := p.left, p.right, BuilderHeading(p, rows);
    var g', parts' := Connect(g, l, r, h), Merge(parts, i, j);
    CandidateHeading(p, rows, cols, wrapped);
    assert Geometric(g', rows, cols) && Adjacent(g', l, r) && Adjacent(g', r, l) && g'.Keys == w + {l, r} by {
      ConnectGeometric(g, l, r, h, rows, cols);
    }
    assert IsPartition(parts', rows, cols) by {
      MergePartition(parts, i, j, rows, cols);
    }
    assert PartsConnected(g', parts') by {
      ConnectSub(g, l, r, h);
      MergeConnected(g, g', parts, i, j, l, r);
    }
    assert forall k | 0 <= k < |parts'| && |parts'[k]| >= 2 :: parts'[k] <= w + {l, r} by {
      MergeWithPath(parts, i, j, l, r, w);
    }
    InGridGrows(w, l, r, rows, cols);
  }

  lemma InGridGrows(w: set<Coord>, l: Coord, r: Coord, rows: nat, cols: nat)
    requires forall x | x in w :: InGrid(x, rows, cols)
    requires InGrid(l, rows, cols) && InGrid(r, rows, cols)
    ensures forall x | x in w + {l, r} :: InGrid(x, rows, cols)
  {
  }

  /** Joining records the pair as a tree edge, with one group fewer. */
  lemma JoinLedger(parts: Parts, tree: seq<Pair>, discard: seq<Pair>, done: seq<Pair>, p: Pair, i: nat, j: nat,
                   rows: nat, cols: nat)
    requires Ledger(parts, tree, discard, done, rows, cols)
    requires i < |parts| && p.left in parts[i] && j < |parts| && p.right in parts[j] && i != j
    ensures Ledger(Merge(parts, i, j), tree + [p], discard, done + [p], rows, cols)
  {
    MergeKeepsPairs(parts, i, j, done, p);
    assert multiset(tree + [p]) + multiset(discard) == multiset(done + [p]);
  }

  /** Every pair seen so far, and the joined one, lies inside one group of the merge. */
  lemma MergeKeepsPairs(parts: Parts, i: nat, j: nat, done: seq<Pair>, p: Pair)
    requires i < |parts| && j < |parts| && i != j && p.left in parts[i] && p.right in parts[j]
    requires forall k | 0 <= k < |done| :: SamePart(parts, done[k].left, done[k].right)
    ensures forall k | 0 <= k < |done + [p]| :: SamePart(Merge(parts, i, j), (done + [p])[k].left, (done + [p])[k].right)
  {
    var done' := done + [p];
    forall k | 0 <= k < |done'|
      ensures SamePart(Merge(parts, i, j), done'[k].left, done'[k].right)
    {
      if k < |done| {
        MergeKeepsSame(parts, i, j, done[k].left, done[k].right);
      } else {
        MergeJoins(parts, i, j, p.left, p.right);
      }
    }
  }

  /** A pair whose cells already share a group is discarded. */
  lemma KruskalSkip(parts: Parts, g: Graph, w: set<Coord>, tree: seq<Pair>, discard: seq<Pair>,
                    done: seq<Pair>, p: Pair, rows: nat, cols: nat)
    requires rows > 0 && cols > 0
    requires KruskalInv(parts, g, w, tree, discard, done, rows, cols)
    requires SamePart(parts, p.left, p.right)
    ensures KruskalInv(parts, g, w, tree, discard + [p], done + [p], rows, cols)
  {
    var done' := done + [p];
    forall k | 0 <= k < |done'|
      ensures SamePart(parts, done'[k].left, done'[k].right)
    {
      if k < |done| {
        assert done'[k] == done[k];
      }
    }
    assert multiset(tree) + multiset(discard + [p]) == multiset(done');
  }

  /**
   * Once every candidate has been seen there is one group, holding the whole grid: the
   * tree has one edge fewer than there are cells, every cell has a path, and every two
   * cells are joined by a walk.
   */
  lemma KruskalDone(parts: Parts, g: Graph, w: set<Coord>, tree: seq<Pair>, discard: seq<Pair>,
                    done: seq<Pair>, rows: nat, cols: nat, wrapped: bool)
    requires rows >= 2 && cols >= 2
    requires KruskalInv(parts, g, w, tree, discard, done, rows, cols)
    requires multiset(done) == multiset(AllCandidates(rows, cols, wrapped))
    ensures |parts| == 1 && |tree| == rows * cols - 1
    ensures forall x :: x in parts[0] <==> InGrid(x, rows, cols)
    ensures forall x :: x in w <==> InGrid(x, rows, cols)
    ensures g.Keys == w && Geometric(g, rows, cols)
    ensures forall x, y | InGrid(x, rows, cols) && InGrid(y, rows, cols) :: Connected(g, x, y)
    ensures |discard| == |done| - |tree|
    ensures forall q | q in discard :: IsCandidate(q, rows, cols, wrapped)
  {
    DiscardedCandidates(tree, discard, done, rows, cols, wrapped);
    ShuffledCandidates(done, rows, cols, wrapped);
    forall p | IsCandidate(p, rows, cols, wrapped)
      ensures SamePart(parts, p.left, p.right)
    {
      var k :| 0 <= k < |done| && done[k] == p;
    }
    OnePart(parts, rows, cols, wrapped);
    var a, b := Coord(0, 0), Coord(0, 1);
    assert a in parts[0] && b in parts[0];
    if |parts[0]| < 2 {
      SingleMember(parts[0], a);
      assert false;
    }
    forall x, y | InGrid(x, rows, cols) && InGrid(y, rows, cols)
      ensures Connected(g, x, y)
    {
      assert x in parts[0] && y in parts[0];
    }
  }

  /** The shuffled list holds every candidate and nothing else. */
  lemma ShuffledCandidates(shuffled: seq<Pair>, rows: nat, cols: nat, wrapped: bool)
    requires rows > 0 && cols > 0
    requires multiset(shuffled) == multiset(AllCandidates(rows, cols, wrapped))
    ensures forall p :: p in shuffled <==> IsCandidate(p, rows, cols, wrapped)
  {
    CandidatesExactly(rows, cols, wrapped);
    forall p
      ensures p in shuffled <==> p in AllCandidates(rows, cols, wrapped)
    {
      assert p in shuffled <==> p in multiset(shuffled);
    }
  }

  /** Each entry of the shuffled list is a candidate. */
  lemma CandidateAt(shuffled: seq<Pair>, k: nat, rows: nat, cols: nat, wrapped: bool)
    requires rows > 0 && cols > 0 && k < |shuffled|
    requires multiset(shuffled) == multiset(AllCandidates(rows, cols, wrapped))
    ensures IsCandidate(shuffled[k], rows, cols, wrapped)
  {
    ShuffledCandidates(shuffled, rows, cols, wrapped);
    assert shuffled[k] in shuffled;
  }

  /** The pairs Kruskal's loop discarded are candidates, as many as it did not take. */
  lemma DiscardedCandidates(tree: seq<Pair>, discard: seq<Pair>, shuffled: seq<Pair>, rows: nat, cols: nat, wrapped: bool)
    requires rows > 0 && cols > 0
    requires multiset(tree) + multiset(discard) == multiset(shuffled)
    requires multiset(shuffled) == multiset(AllCandidates(rows, cols, wrapped))
    ensures |discard| == |shuffled| - |tree|
    ensures forall q | q in discard :: IsCandidate(q, rows, cols, wrapped)
  {
    ShuffledCandidates(shuffled, rows, cols, wrapped);
    assert |multiset(tree) + multiset(discard)| == |multiset(shuffled)|;
    forall q | q in discard
      ensures IsCandidate(q, rows, cols, wrapped)
    {
      assert q in multiset(discard);
      assert q in multiset(shuffled);
    }
  }

  /** The state of the extra-edge phase: the tree's edges are kept, every edge is geometric. */
  ghost predicate BlindInv(tree: Graph, g: Graph, w: set<Coord>, rows: nat, cols: nat)
    requires rows > 0 && cols > 0
  {
    SubGraph(tree, g) && Geometric(g, rows, cols) && g.Keys == w
    && forall x :: x in w <==> InGrid(x, rows, cols)
  }

  /** A blind `makeAdjacent` of a candidate keeps the extra-edge phase's invariant. */
  lemma BlindStep(tree: Graph, g: Graph, w: set<Coord>, q: Pair, rows: nat, cols: nat, wrapped: bool)
    requires rows >= 2 && cols >= 2 && BlindInv(tree, g, w, rows, cols)
    requires IsCandidate(q, rows, cols, wrapped)
    ensures q.left != q.right
    ensures BlindInv(tree, Connect(g, q.left, q.right, BuilderHeading(q, rows)), w, rows, cols)
  {
    var h := BuilderHeading(q, rows);
    CandidateHeading(q, rows, cols, wrapped);
    ConnectGeometric(g, q.left, q.right, h, rows, cols);
    ConnectSub(g, q.left, q.right, h);
  }

  /** Adding edges to a graph that joins every two cells of the grid keeps them joined. */
  lemma StaysConnected(tree: Graph, g: Graph, rows: nat, cols: nat)
    requires SubGraph(tree, g)
    requires forall x, y | InGrid(x, rows, cols) && InGrid(y, rows, cols) :: Connected(tree, x, y)
    ensures forall x, y | InGrid(x, rows, cols) && InGrid(y, rows, cols) :: Connected(g, x, y)
  {
    forall x, y | InGrid(x, rows, cols) && InGrid(y, rows, cols)
      ensures Connected(g, x, y)
    {
      ConnectedMono(tree, g, x, y);
    }
  }

  /** No pair joins a cell to itself. */
  predicate NoLoops(ps: seq<Pair>)
  {
    forall k | 0 <= k < |ps| :: ps[k].left != ps[k].right
  }

  /** The graph `g` after `makeAdjacent` of each pair of `ps` in turn, in the builder's directions. */
  function ConnectAll(g: Graph, ps: seq<Pair>, rows: nat): Graph
    requires rows > 0 && NoLoops(ps)
    decreases |ps|
  {
    if ps == [] then g
    else
      var p := ps[|ps| - 1];
      Connect(ConnectAll(g, ps[..|ps| - 1], rows), p.left, p.right, BuilderHeading(p, rows))
  }

  /** `g` is `from` with each pair of `ps` joined in turn. */
  ghost predicate JoinedIn(g: Graph, from: Graph, ps: seq<Pair>, rows: nat)
  {
    rows > 0 && NoLoops(ps) && g == ConnectAll(from, ps, rows)
  }

  /** One more pair is one more `makeAdjacent`. */
  lemma ConnectAllSnoc(g: Graph, ps: seq<Pair>, p: Pair, rows: nat)
    requires rows > 0 && NoLoops(ps) && p.left != p.right
    ensures NoLoops(ps + [p])
    ensures ConnectAll(g, ps + [p], rows) == Connect(ConnectAll(g, ps, rows), p.left, p.right, BuilderHeading(p, rows))
  {
    assert (ps + [p])[..|ps|] == ps;
  }

  /** A move of a graph is still there in any graph that contains it. */
  lemma AdjacentMono(g: Graph, h: Graph, a: Coord, b: Coord)
    requires SubGraph(g, h) && Adjacent(g, a, b)
    ensures Adjacent(h, a, b)
  {
    var d :| d in Moves(g, a) && Moves(g, a)[d] == b;
    assert Moves(h, a)[d] == b;
  }

  /**
   * Joining candidate pairs one after another, starting from a geometric graph, keeps
   * every move geometric and every existing move, and leaves each of the pairs adjacent
   * both ways: every pair joined becomes an edge of the maze.
   */
  lemma {:induction false} ConnectAllJoins(g: Graph, ps: seq<Pair>, rows: nat, cols: nat, wrapped: bool)
    requires rows >= 2 && cols >= 2 && Geometric(g, rows, cols)
    requires forall q | q in ps :: IsCandidate(q, rows, cols, wrapped)
    ensures NoLoops(ps)
    ensures Geometric(ConnectAll(g, ps, rows), rows, cols) && SubGraph(g, ConnectAll(g, ps, rows))
    ensures forall q | q in ps :: Adjacent(ConnectAll(g, ps, rows), q.left, q.right)
    ensures forall q | q in ps :: Adjacent(ConnectAll(g, ps, rows), q.right, q.left)
    decreases |ps|
  {
    forall k | 0 <= k < |ps|
      ensures ps[k].left != ps[k].right
    {
      assert ps[k] in ps;
      CandidateHeading(ps[k], rows, cols, wrapped);
    }
    if ps != [] {
      var init, p := ps[..|ps| - 1], ps[|ps| - 1];
      assert ps == init + [p];
      assert forall q | q in init :: q in ps;
      ConnectAllJoins(g, init, rows, cols, wrapped);
      var before := ConnectAll(g, init, rows);
      var h := BuilderHeading(p, rows);
      ConnectAllSnoc(g, init, p, rows);
      var after := Connect(before, p.left, p.right, h);
      assert p in ps;
      CandidateHeading(p, rows, cols, wrapped);
      ConnectGeometric(before, p.left, p.right, h, rows, cols);
      ConnectSub(before, p.left, p.right, h);
      forall q | q in ps
        ensures Adjacent(after, q.left, q.right) && Adjacent(after, q.right, q.left)
      {
        if q != p {
          assert q in init;
          AdjacentMono(before, after, q.left, q.right);
          AdjacentMono(before, after, q.right, q.left);
        }
      }
    }
  }

  /**
   * The discarded pairs the draws pick for the extra edges: each draw, reduced modulo the
   * pairs left, names one, which then leaves the list (`discardPair.remove(index)`).
   */
  function BlindPicks(discard: seq<Pair>, picks: seq<nat>, n: nat): (r: seq<Pair>)
    requires n <= |discard| && n <= |picks|
    ensures |r| == n && multiset(r) <= multiset(discard)
    decreases n
  {
    if n == 0 then []
    else
      var i := picks[0] % |discard|;
      [discard[i]] + BlindPicks(RemoveAt(discard, i), picks[1..], n - 1)
  }

  /** The next draw picks the pair it names and leaves the rest to the later draws. */
  lemma BlindPicksStep(done: seq<Pair>, discard: seq<Pair>, picks: seq<nat>, i: nat, count: nat)
    requires i < count && count - i <= |discard| && count <= |picks|
    ensures done + BlindPicks(discard, picks[i..], count - i)
            == (done + [discard[picks[i] % |discard|]])
               + BlindPicks(RemoveAt(discard, picks[i] % |discard|), picks[i + 1..], count - (i + 1))
  {
    assert picks[i..][1..] == picks[i + 1..];
  }

  /**
   * The state of the extra-edge loop after `i` of its `count` rounds: the invariant of the
   * phase, the pairs drawn so far are the first `i` that the draws pick, the rest of the
   * list is still candidates, and the graph is the tree's graph with the drawn pairs joined.
   */
  ghost predicate Drawn(tree: Graph, g: Graph, w: set<Coord>, rows: nat, cols: nat, wrapped: bool,
                        discardPair: seq<Pair>, picks: seq<nat>, count: nat, i: nat,
                        discard: seq<Pair>, extras: seq<Pair>)
  {
    && rows > 0 && cols > 0 && BlindInv(tree, g, w, rows, cols)
    && i <= count <= |discardPair| && count <= |picks|
    && |extras| == i && |discard| == |discardPair| - i
    && (forall q | q in discard :: IsCandidate(q, rows, cols, wrapped))
    && extras + BlindPicks(discard, picks[i..], count - i) == BlindPicks(discardPair, picks, count)
    && JoinedIn(g, tree, extras, rows)
  }

  /** Before the first round: nothing drawn, the whole list left, the graph the tree's. */
  lemma DrawnStart(tree: Graph, w: set<Coord>, rows: nat, cols: nat, wrapped: bool,
                   discardPair: seq<Pair>, picks: seq<nat>, count: nat)
    requires rows > 0 && cols > 0 && Geometric(tree, rows, cols) && tree.Keys == w
    requires forall x :: x in w <==> InGrid(x, rows, cols)
    requires count <= |discardPair| && count <= |picks|
    requires forall q | q in discardPair :: IsCandidate(q, rows, cols, wrapped)
    ensures Drawn(tree, tree, w, rows, cols, wrapped, discardPair, picks, count, 0, discardPair, [])
  {
    assert picks[0..] == picks;
  }

  /**
   * One round: the draw `picks[i]`, taken modulo the pairs left, names the pair joined
   * next; it leaves the list and joins the ones drawn.
   */
  lemma DrawnStep(tree: Graph, g: Graph, g': Graph, w: set<Coord>, rows: nat, cols: nat, wrapped: bool,
                  discardPair: seq<Pair>, picks: seq<nat>, count: nat, i: nat, discard: seq<Pair>, extras: seq<Pair>)
    requires i < count && Drawn(tree, g, w, rows, cols, wrapped, discardPair, picks, count, i, discard, extras)
    requires BlindInv(tree, g', w, rows, cols)
    requires JoinedIn(g', tree, extras + [discard[picks[i] % |discard|]], rows)
    ensures Drawn(tree, g', w, rows, cols, wrapped, discardPair, picks, count, i + 1,
                  RemoveAt(discard, picks[i] % |discard|), extras + [discard[picks[i] % |discard|]])
  {
    BlindPicksStep(extras, discard, picks, i, count);
    var rest := RemoveAt(discard, picks[i] % |discard|);
    forall q | q in rest
      ensures IsCandidate(q, rows, cols, wrapped)
    {
      assert q in multiset(rest);
    }
  }

  /** After the last round: the pairs drawn are the ones the draws pick, and they are joined. */
  lemma DrawnDone(tree: Graph, g: Graph, w: set<Coord>, rows: nat, cols: nat, wrapped: bool,
                  discardPair: seq<Pair>, picks: seq<nat>, count: nat, discard: seq<Pair>, extras: seq<Pair>)
    requires Drawn(tree, g, w, rows, cols, wrapped, discardPair, picks, count, count, discard, extras)
    ensures rows > 0 && cols > 0 && BlindInv(tree, g, w, rows, cols)
    ensures extras == BlindPicks(discardPair, picks, count)
    ensures JoinedIn(g, tree, extras, rows)
  {
    assert extras + [] == extras;
  }

  /**
   * The maze's edges: every tree pair and every extra pair of `buildMaze` joins its two
   * cells both ways in the final graph.
   */
  lemma PairsAreEdges(tree: seq<Pair>, extras: seq<Pair>, treeGraph: Graph, g: Graph, shuffled: seq<Pair>,
                      discardPair: seq<Pair>, rows: nat, cols: nat, wrapped: bool)
    requires rows >= 2 && cols >= 2
    requires multiset(shuffled) == multiset(AllCandidates(rows, cols, wrapped))
    requires multiset(tree) + multiset(discardPair) == multiset(shuffled)
    requires forall q | q in discardPair :: IsCandidate(q, rows, cols, wrapped)
    requires multiset(extras) <= multiset(discardPair)
    requires JoinedIn(treeGraph, map[], tree, rows)
    requires JoinedIn(g, treeGraph, extras, rows)
    ensures forall q | q in tree || q in extras :: Adjacent(g, q.left, q.right) && Adjacent(g, q.right, q.left)
  {
    forall q | q in tree
      ensures IsCandidate(q, rows, cols, wrapped)
    {
      assert q in multiset(shuffled);
      var k :| 0 <= k < |shuffled| && shuffled[k] == q;
      CandidateAt(shuffled, k, rows, cols, wrapped);
    }
    ConnectAllJoins(map[], tree, rows, cols, wrapped);
    forall q | q in extras
      ensures IsCandidate(q, rows, cols, wrapped)
    {
      assert q in multiset(discardPair);
    }
    ConnectAllJoins(treeGraph, extras, rows, cols, wrapped);
    forall q | q in tree
      ensures Adjacent(g, q.left, q.right) && Adjacent(g, q.right, q.left)
    {
      AdjacentMono(treeGraph, g, q.left, q.right);
      AdjacentMono(treeGraph, g, q.right, q.left);
    }
  }
}
