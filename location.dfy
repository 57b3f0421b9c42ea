/**
 * A cell of the maze (MazeLocation): its grid position, the items lying in it with one
 * pick action per item, its move actions keyed by direction, and the smell counter that
 * nearby monsters raise and lower. Two cells are equal exactly when their positions are,
 * so the model names cells by `loc` wherever the source compares them.
 */
module Location {
  import opened Wrappers
  import opened Grid
  import opened Graph
  import opened Items
  import opened Lists

  /** How strongly a cell smells of monsters. */
  datatype SmellStrength = Strong | Weak | NoSmell

  /** `getSmellStrength`: a counter of 2 or more is strong, exactly 1 is weak, anything else none. */
  function StrengthOf(smell: int): (r: SmellStrength)
    ensures r == Strong <==> 2 <= smell
    ensures r == Weak <==> smell == 1
  {
    if smell >= 2 then Strong else if smell == 1 then Weak else NoSmell
  }

  /** What `addSmell` adds to the counter and `removeSmell` takes away. */
  function Weight(s: SmellStrength): (r: nat)
    ensures r <= 2
    ensures StrengthOf(r) == s
  {
    match s
    case Strong => 2
    case Weak => 1
    case NoSmell => 0
  }

  /**
   * A move action: going `direction` leads to the cell at `whereTo`. Its `equals` compares
   * the direction only, so a cell's set of them is a map from direction to destination.
   */
  datatype MoveAction = MoveAction(whereTo: Coord, direction: Direction)

  /** Something a player can do at a cell: move on, or pick an item up. */
  datatype LocationAction = Move(move: MoveAction) | Pick(pick: PickItemAction)

  /** `getMoveAction`: the move actions of a move set, in the set's iteration order. */
  function MovesInOrder(moves: Edges, order: seq<Direction>): (r: seq<MoveAction>)
    ensures forall m | m in r :: m.direction in moves && m.direction in order && m.whereTo == moves[m.direction]
    ensures forall d | d in moves && d in order :: MoveAction(moves[d], d) in r
  {
    if order == [] then []
    else
      (if order[0] in moves then [MoveAction(moves[order[0]], order[0])] else [])
      + MovesInOrder(moves, order[1..])
  }

  /** The directions an order lists. */
  function DirSet(order: seq<Direction>): (r: set<Direction>)
    ensures forall d :: d in r <==> d in order
  {
    if order == [] then {} else {order[0]} + DirSet(order[1..])
  }

  lemma DistinctTail(order: seq<Direction>)
    requires Distinct(order) && order != []
    ensures Distinct(order[1..]) && order[0] !in order[1..]
  {
    var rest := order[1..];
    forall i, j | 0 <= i < j < |rest| ensures rest[i] != rest[j] {
      assert rest[i] == order[i + 1] && rest[j] == order[j + 1];
    }
    forall j | 0 <= j < |rest| ensures rest[j] != order[0] {
      assert rest[j] == order[j + 1];
    }
  }

  lemma CardStep(keys: set<Direction>, d: Direction, tail: set<Direction>)
    requires d !in tail
    ensures |keys * ({d} + tail)| == |keys * tail| + (if d in keys then 1 else 0)
  {
    if d in keys {
      assert keys * ({d} + tail) == keys * tail + {d};
    } else {
      assert keys * ({d} + tail) == keys * tail;
    }
  }

  /** Listing the moves in an order without repeats gives one action per direction listed. */
  lemma {:induction false} MovesInOrderCount(moves: Edges, order: seq<Direction>)
    requires Distinct(order)
    ensures |MovesInOrder(moves, order)| == |moves.Keys * DirSet(order)|
  {
    if order != [] {
      var rest := order[1..];
      DistinctTail(order);
      MovesInOrderCount(moves, rest);
      CardStep(moves.Keys, order[0], DirSet(rest));
    }
  }

  /** The pick map after registering each of `acts` in turn under its item, later ones winning. */
  function Register(m: map<Item, PickItemAction>, acts: seq<PickItemAction>): (r: map<Item, PickItemAction>)
    ensures r.Keys == m.Keys + set a | a in acts :: a.item
  {
    if acts == [] then m
    else
      var last := acts[|acts| - 1];
      var front := acts[..|acts| - 1];
      assert acts == front + [last];
      Register(m, front)[last.item := last]
  }

  /**
   * Each entry of a pick map is a pick action for that very item, is still among the
   * cell's pick actions, and its item still lies in the cell.
   */
  ghost predicate Consistent(m: map<Item, PickItemAction>, pickups: seq<PickItemAction>, items: seq<Item>)
  {
    forall it | it in m :: m[it].item == it && m[it] in pickups && it in items
  }

  /** `removeItem` keeps a consistent pick map consistent. */
  lemma RemoveKeepsConsistent(m: map<Item, PickItemAction>, pickups: seq<PickItemAction>, items: seq<Item>, item: Item)
    requires Consistent(m, pickups, items)
    ensures Consistent(m - {item}, if item in m then RemoveFirst(pickups, m[item]) else pickups, RemoveFirst(items, item))
  {
    var ps := if item in m then RemoveFirst(pickups, m[item]) else pickups;
    forall it | it in m - {item}
      ensures m[it] in ps && it in RemoveFirst(items, item)
    {
      RemoveFirstKeeps(items, item, it);
      if item in m {
        RemoveFirstKeeps(pickups, m[item], m[it]);
      }
    }
  }

  /** The items of a sequence of pick actions, in order. */
  function ItemsOf(acts: seq<PickItemAction>): (r: seq<Item>)
    ensures |r| == |acts|
    ensures forall k | 0 <= k < |acts| :: r[k] == acts[k].item
  {
    if acts == [] then [] else ItemsOf(acts[..|acts| - 1]) + [acts[|acts| - 1].item]
  }

  lemma ItemsOfSnoc(acts: seq<PickItemAction>, a: PickItemAction)
    ensures ItemsOf(acts + [a]) == ItemsOf(acts) + [a.item]
  {
    assert (acts + [a])[..|acts|] == acts;
  }

  lemma RegisterSnoc(m: map<Item, PickItemAction>, acts: seq<PickItemAction>, a: PickItemAction)
    ensures Register(m, acts + [a]) == Register(m, acts)[a.item := a]
  {
    assert (acts + [a])[..|acts|] == acts;
  }

  /** A pick action: picking `item` up from `location`. Its equality is identity. */
  class PickItemAction {
    const location: MazeLocation
    const item: Item

    constructor(location: MazeLocation, item: Item)
      ensures this.location == location && this.item == item
    {
      this.location := location;
      this.item := item;
    }

    /**
     * `act`: takes the item out of its cell and returns it when the cell still held it;
     * otherwise returns nothing and leaves the items as they were.
     */
    method Act() returns (r: Option<Item>)
      requires location.Valid()
      modifies location
      ensures location.Valid()
      ensures r == if item in old(location.items) then Some(item) else None
      ensures r.Some? ==> |location.items| == |old(location.items)| - 1
      ensures r.None? ==> location.items == old(location.items)
      ensures location.items == RemoveFirst(old(location.items), item)
      ensures location.pickMap == old(location.pickMap) - {item}
      ensures location.pickups == if item in old(location.pickMap)
                                  then RemoveFirst(old(location.pickups), old(location.pickMap)[item])
                                  else old(location.pickups)
      ensures location.moves == old(location.moves) && location.smell == old(location.smell)
      ensures location.resetCopy == old(location.resetCopy)
    {
      var removed := location.RemoveItem(item);
      r := if removed then Some(item) else None;
    }
  }

  class MazeLocation {
    const loc: Coord
    var items: seq<Item>
    var pickups: seq<PickItemAction>
    var moves: Edges
    var pickMap: map<Item, PickItemAction>
    var smell: int
    /** Every item ever added through `addItem`, for `restart`. */
    var resetCopy: seq<Item>

    /**
     * Each entry of the pick map is a pick action for that very item, is still among the
     * cell's pick actions, and its item still lies in the cell.
     */
    ghost predicate Valid()
      reads this
    {
      Consistent(pickMap, pickups, items)
    }

    constructor(loc: Coord)
      ensures this.loc == loc && items == [] && pickups == [] && moves == map[]
      ensures pickMap == map[] && smell == 0 && resetCopy == []
      ensures Valid()
    {
      this.loc := loc;
      items := [];
      pickups := [];
      moves := map[];
      pickMap := map[];
      smell := 0;
      resetCopy := [];
    }

    /** Puts an item in the cell with a fresh pick action for it, which the pick map now names. */
    method BuildLocationWithItem(item: Item)
      requires Valid()
      modifies this
      ensures Valid()
      ensures items == old(items) + [item]
      ensures |pickups| == |old(pickups)| + 1 && pickups[..|old(pickups)|] == old(pickups)
      ensures fresh(pickups[|old(pickups)|])
      ensures pickups[|old(pickups)|].location == this && pickups[|old(pickups)|].item == item
      ensures pickMap == old(pickMap)[item := pickups[|old(pickups)|]]
      ensures moves == old(moves) && smell == old(smell) && resetCopy == old(resetCopy)
    {
      items := items + [item];
      var a := new PickItemAction(this, item);
      pickups := pickups + [a];
      pickMap := pickMap[item := a];
    }

    /** `addItem`: the item lies in the cell with its own pick action and is kept for `restart`. */
    method AddItem(item: Item)
      requires Valid()
      modifies this
      ensures Valid()
      ensures resetCopy == old(resetCopy) + [item]
      ensures items == old(items) + [item]
      ensures |pickups| == |old(pickups)| + 1 && pickups[..|old(pickups)|] == old(pickups)
      ensures fresh(pickups[|old(pickups)|])
      ensures pickups[|old(pickups)|].location == this && pickups[|old(pickups)|].item == item
      ensures pickMap == old(pickMap)[item := pickups[|old(pickups)|]]
      ensures moves == old(moves) && smell == old(smell)
    {
      resetCopy := resetCopy + [item];
      BuildLocationWithItem(item);
    }

    /** `addMoveAction`: a second move action in a direction already used changes nothing. */
    method AddMoveAction(action: MoveAction)
      modifies this
      ensures moves == AddEdge(old(moves), action.direction, action.whereTo)
      ensures action.direction in old(moves) ==> moves == old(moves)
      ensures items == old(items) && pickups == old(pickups) && pickMap == old(pickMap)
      ensures smell == old(smell) && resetCopy == old(resetCopy)
    {
      moves := AddEdge(moves, action.direction, action.whereTo);
    }

    /** `getMoveAction`: this cell's move actions in the move set's iteration order. */
    function MoveActions(order: seq<Direction>): (r: seq<MoveAction>)
      requires IsOrder(order)
      reads this
      ensures |r| == |moves|
      ensures forall m | m in r :: m.direction in moves && m.whereTo == moves[m.direction]
      ensures forall d | d in moves :: MoveAction(moves[d], d) in r
    {
      assert moves.Keys * DirSet(order) == moves.Keys;
      MovesInOrderCount(moves, order);
      MovesInOrder(moves, order)
    }

    /** `possibleActions`: the move actions, then the pick actions. */
    function PossibleActions(order: seq<Direction>): (r: seq<LocationAction>)
      requires IsOrder(order)
      reads this
      ensures |r| == |moves| + |pickups|
      ensures forall k | 0 <= k < |moves| :: r[k] == Move(MoveActions(order)[k])
      ensures forall k | |moves| <= k < |r| :: r[k] == Pick(pickups[k - |moves|])
    {
      var ms := MoveActions(order);
      var a := seq(|ms|, k requires 0 <= k < |ms| => Move(ms[k]));
      var ps := pickups;
      var b := seq(|ps|, k requires 0 <= k < |ps| => Pick(ps[k]));
      assert forall k | |a| <= k < |a| + |b| :: (a + b)[k] == b[k - |a|];
      a + b
    }

    /**
     * `removeItem`: drops the pick action the pick map names for the item (if any) and the
     * map entry, then the first equal item; reports whether the cell held one.
     */
    method RemoveItem(item: Item) returns (removed: bool)
      requires Valid()
      modifies this
      ensures Valid()
      ensures removed == (item in old(items))
      ensures items == RemoveFirst(old(items), item)
      ensures pickMap == old(pickMap) - {item}
      ensures pickups == if item in old(pickMap) then RemoveFirst(old(pickups), old(pickMap)[item]) else old(pickups)
      ensures moves == old(moves) && smell == old(smell) && resetCopy == old(resetCopy)
    {
      RemoveKeepsConsistent(pickMap, pickups, items, item);
      if item in pickMap {
        pickups := RemoveFirst(pickups, pickMap[item]);
      }
      pickMap := pickMap - {item};
      removed := item in items;
      items := RemoveFirst(items, item);
    }

    /** `restart`: puts back every item ever added, without clearing what the cell holds now. */
    method Restart()
      requires Valid()
      modifies this
      ensures Valid()
      ensures items == old(items) + resetCopy
      ensures |pickups| >= |old(pickups)| && pickups[..|old(pickups)|] == old(pickups)
      ensures ItemsOf(pickups[|old(pickups)|..]) == resetCopy
      ensures forall a | a in pickups[|old(pickups)|..] :: fresh(a) && a.location == this
      ensures pickMap == Register(old(pickMap), pickups[|old(pickups)|..])
      ensures moves == old(moves) && smell == old(smell) && resetCopy == old(resetCopy)
    {
      var copy := resetCopy;
      ghost var added: seq<PickItemAction> := [];
      for i := 0 to |copy|
        invariant resetCopy == copy && moves == old(moves) && smell == old(smell)
        invariant Valid()
        invariant items == old(items) + copy[..i]
        invariant pickups == old(pickups) + added
        invariant ItemsOf(added) == copy[..i]
        invariant forall a | a in added :: fresh(a) && a.location == this
        invariant pickMap == Register(old(pickMap), added)
      {
        ghost var before := pickups;
        BuildLocationWithItem(copy[i]);
        var a := pickups[|pickups| - 1];
        assert pickups == before + [a];
        ItemsOfSnoc(added, a);
        RegisterSnoc(old(pickMap), added, a);
        assert old(pickups) + (added + [a]) == (old(pickups) + added) + [a];
        added := added + [a];
        assert copy[..i + 1] == copy[..i] + [copy[i]];
      }
      assert copy[..|copy|] == copy;
      assert pickups[|old(pickups)|..] == added;
    }

    /**
     * `copy`: a new cell at the same position with copies of this one's item list, pick
     * action list, move set and pick map, holding the same pick actions (which still belong
     * to this cell), with no smell.
     */
    method Copy() returns (c: MazeLocation)
      ensures fresh(c)
      ensures c.loc == loc && c.items == items && c.pickups == pickups && c.moves == moves
      ensures c.pickMap == pickMap && c.smell == 0 && c.resetCopy == []
      ensures Valid() ==> c.Valid()
    {
      c := new MazeLocation(loc);
      c.pickMap := pickMap;
      c.moves := moves;
      c.pickups := pickups;
      c.items := items;
    }

    /** `addSmell`: strong adds 2, weak adds 1, none adds nothing. */
    method AddSmell(s: SmellStrength)
      modifies this
      ensures smell == old(smell) + Weight(s)
      ensures items == old(items) && pickups == old(pickups) && pickMap == old(pickMap)
      ensures moves == old(moves) && resetCopy == old(resetCopy)
    {
      smell := smell + Weight(s);
    }

    /** `removeSmell`: takes away what `addSmell` of the same strength adds. */
    method RemoveSmell(s: SmellStrength)
      modifies this
      ensures smell == old(smell) - Weight(s)
      ensures items == old(items) && pickups == old(pickups) && pickMap == old(pickMap)
      ensures moves == old(moves) && resetCopy == old(resetCopy)
    {
      smell := smell - Weight(s);
    }

    /** `getSmellStrength`. */
    function SmellHere(): SmellStrength
      reads this
    {
      StrengthOf(smell)
    }

    /**
     * `getPickItemActions`: one pick action per item type present in the pick map; when
     * several items share a type, which of their actions is kept depends on the map's
     * iteration order, so any of them may be.
     */
    method PickActionsByType() returns (r: map<ItemType, PickItemAction>)
      ensures r.Keys == set it | it in pickMap :: TypeOf(it)
      ensures forall t | t in r :: exists it | it in pickMap :: TypeOf(it) == t && r[t] == pickMap[it]
    {
      var rest := pickMap.Keys;
      r := map[];
      ghost var source: map<ItemType, Item> := map[];
      while rest != {}
        invariant rest <= pickMap.Keys
        invariant r.Keys == source.Keys == set it | it in pickMap.Keys - rest :: TypeOf(it)
        invariant forall t | t in r :: source[t] in pickMap && TypeOf(source[t]) == t && r[t] == pickMap[source[t]]
        decreases |rest|
      {
        var it :| it in rest;
        r := r[TypeOf(it) := pickMap[it]];
        source := source[TypeOf(it) := it];
        rest := rest - {it};
      }
      forall t | t in r
        ensures exists it | it in pickMap :: TypeOf(it) == t && r[t] == pickMap[it]
      {
        assert source[t] in pickMap;
      }
    }
  }

  /**
   * IMazeLocationBuilder's own state: a cell under construction. `addTreasure` and
   * `addArrow` put an item in it and hand back the same builder.
   */
  class LocationBuilder {
    const location: MazeLocation

    constructor(c: Coord)
      ensures fresh(location) && location.loc == c && location.items == [] && location.moves == map[]
      ensures location.pickups == [] && location.pickMap == map[] && location.smell == 0 && location.resetCopy == []
      ensures location.Valid()
    {
      location := new MazeLocation(c);
    }

    method AddTreasure(t: Treasure) returns (b: LocationBuilder)
      requires location.Valid()
      modifies location
      ensures b == this && location.Valid()
      ensures location.items == old(location.items) + [TreasureItem(t)]
      ensures location.resetCopy == old(location.resetCopy) + [TreasureItem(t)]
      ensures |location.pickups| == |old(location.pickups)| + 1
      ensures location.pickups[..|old(location.pickups)|] == old(location.pickups)
      ensures fresh(location.pickups[|old(location.pickups)|])
      ensures location.pickups[|old(location.pickups)|].location == location
      ensures location.pickups[|old(location.pickups)|].item == TreasureItem(t)
      ensures location.pickMap == old(location.pickMap)[TreasureItem(t) := location.pickups[|old(location.pickups)|]]
      ensures location.moves == old(location.moves) && location.smell == old(location.smell)
    {
      location.AddItem(TreasureItem(t));
      b := this;
    }

    method AddArrow(a: Arrow) returns (b: LocationBuilder)
      requires location.Valid()
      modifies location
      ensures b == this && location.Valid()
      ensures location.items == old(location.items) + [ArrowItem(a)]
      ensures location.resetCopy == old(location.resetCopy) + [ArrowItem(a)]
      ensures |location.pickups| == |old(location.pickups)| + 1
      ensures location.pickups[..|old(location.pickups)|] == old(location.pickups)
      ensures fresh(location.pickups[|old(location.pickups)|])
      ensures location.pickups[|old(location.pickups)|].location == location
      ensures location.pickups[|old(location.pickups)|].item == ArrowItem(a)
      ensures location.pickMap == old(location.pickMap)[ArrowItem(a) := location.pickups[|old(location.pickups)|]]
      ensures location.moves == old(location.moves) && location.smell == old(location.smell)
    {
      location.AddItem(ArrowItem(a));
      b := this;
    }

    method Build() returns (l: MazeLocation)
      ensures l == location
    {
      l := location;
    }
  }

  /**
   * `makeAdjacent` of IMazeLocationBuilder on two cells: each gets a move action towards the
   * other, in the directions the wrap-aware rule picks; a pair the rule refuses is left alone.
   */
  method MakeAdjacentCells(left: MazeLocation, right: MazeLocation, maxRow: int, maxCol: int)
    returns (r: Result<Heading>)
    modifies left, right
    ensures r == DirectionsForLocation(left.loc, right.loc, maxRow, maxCol)
    ensures r.Failure? ==> unchanged(left, right)
    ensures r.Success? ==> left != right
    ensures r.Success? ==> left.moves == AddEdge(old(left.moves), r.value.leftToRight, right.loc)
    ensures r.Success? ==> right.moves == AddEdge(old(right.moves), r.value.rightToLeft, left.loc)
    ensures left.items == old(left.items) && right.items == old(right.items)
    ensures left.pickMap == old(left.pickMap) && right.pickMap == old(right.pickMap)
    ensures left.pickups == old(left.pickups) && right.pickups == old(right.pickups)
    ensures left.smell == old(left.smell) && right.smell == old(right.smell)
    ensures left.resetCopy == old(left.resetCopy) && right.resetCopy == old(right.resetCopy)
  {
    r := DirectionsForLocation(left.loc, right.loc, maxRow, maxCol);
    if r.Success? {
      left.AddMoveAction(MoveAction(right.loc, r.value.leftToRight));
      right.AddMoveAction(MoveAction(left.loc, r.value.rightToLeft));
    }
  }

  /** The cell objects of a world. */
  function Cells(world: map<Coord, MazeLocation>): set<MazeLocation>
  {
    set c | c in world :: world[c]
  }

  /**
   * A world of cells: each cell sits at its own position (so different positions are
   * different objects) and every move action leads to a cell of the world.
   */
  ghost predicate WorldOk(world: map<Coord, MazeLocation>)
    reads Cells(world)
  {
    forall c | c in world :: world[c].loc == c && forall d | d in world[c].moves :: world[c].moves[d] in world
  }

  /** The move graph a world of cells describes. */
  function GraphOf(world: map<Coord, MazeLocation>): (g: Graph)
    reads Cells(world)
    ensures g.Keys == world.Keys
    ensures forall c | c in world :: Moves(g, c) == world[c].moves
  {
    map c | c in world :: world[c].moves
  }

  /** A walk in a world's graph that starts inside the world stays inside it. */
  lemma PathStaysInWorld(world: map<Coord, MazeLocation>, start: Coord, y: Coord, w: seq<Coord>)
    requires WorldOk(world) && start in world && IsPath(GraphOf(world), start, y, w)
    ensures y in world
  {
    if |w| > 1 {
      var g := GraphOf(world);
      var x := w[|w| - 2];
      assert Adjacent(g, x, y);
      var d :| d in Moves(g, x) && Moves(g, x)[d] == y;
    }
  }
}
