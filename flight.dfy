/**
 * Shooting an arrow (ShootArrowAction): the arrow goes straight through caves, follows
 * the bends of tunnels, never enters a cell twice, and stops after entering the given
 * number of caves or when it cannot go on.
 */
module Flight {
  import opened Wrappers
  import opened Grid
  import opened Graph
  import opened Items
  import opened Lists
  import opened Characters
  import opened Actions

  /** Where the arrow is, where it is heading, how many caves it has entered and where it has been. */
  datatype Flight = Flight(at: Coord, heading: Option<Direction>, travelled: int, visited: set<Coord>)

  /** A tunnel move the arrow may take: not its straight direction, to a cell it has not been to. */
  predicate IsTurn(moves: Edges, heading: Option<Direction>, visited: set<Coord>, d: Direction)
  {
    d in moves && heading != Some(d) && moves[d] !in visited
  }

  /**
   * The first move of a tunnel, in the cell's iteration `order`, that the arrow may turn
   * into, if there is one.
   */
  function FirstTurn(moves: Edges, order: seq<Direction>, heading: Option<Direction>, visited: set<Coord>): (r: Option<Direction>)
    ensures r.Some? ==> r.value in order && IsTurn(moves, heading, visited, r.value)
    ensures r.Some? ==> forall j | 0 <= j < IndexOf(order, r.value) :: !IsTurn(moves, heading, visited, order[j])
    ensures r.None? ==> forall d | d in order :: !IsTurn(moves, heading, visited, d)
  {
    if order == [] then None
    else if IsTurn(moves, heading, visited, order[0]) then Some(order[0])
    else
      var r := FirstTurn(moves, order[1..], heading, visited);
      if r.Some? then
        assert IndexOf(order, r.value) == IndexOf(order[1..], r.value) + 1;
        r
      else r
  }

  /**
   * `nextPossibleMove`: a cave entered after the first step counts one more; reaching the
   * distance at a cave stops the arrow. Otherwise it goes straight to an unvisited cell
   * if it can; a cave offers nothing else, and a tunnel offers its first possible turn,
   * which becomes the new heading. Whether the arrow moved comes first in the result.
   */
  function NextMove(g: Graph, order: seq<Direction>, distance: int, f: Flight, first: bool): (r: (bool, Flight))
    ensures r.1.travelled == f.travelled + (if IsCave(g, f.at) && !first then 1 else 0)
    ensures r.0 ==> Adjacent(g, f.at, r.1.at) && r.1.at !in f.visited && r.1.visited == f.visited + {r.1.at}
    ensures !r.0 ==> r.1.at == f.at && r.1.heading == f.heading && r.1.visited == f.visited
    ensures IsCave(g, f.at) && r.1.travelled == distance ==> !r.0
    ensures IsCave(g, f.at) && r.0 ==> r.1.heading == f.heading
    ensures (&& !(IsCave(g, f.at) && r.1.travelled == distance)
             && f.heading.Some? && f.heading.value in Moves(g, f.at)
             && Moves(g, f.at)[f.heading.value] !in f.visited) ==> r.0 && r.1.heading == f.heading
    ensures !IsCave(g, f.at) && r.0 && r.1.heading != f.heading ==>
              r.1.heading == FirstTurn(Moves(g, f.at), order, f.heading, f.visited)
  {
    var moves := Moves(g, f.at);
    var isCave := |moves| != 2;
    var t := if isCave && !first then f.travelled + 1 else f.travelled;
    var stay := Flight(f.at, f.heading, t, f.visited);
    if isCave && t == distance then (false, stay)
    else if f.heading.Some? && f.heading.value in moves && moves[f.heading.value] !in f.visited then
      var next := moves[f.heading.value];
      (true, Flight(next, f.heading, t, f.visited + {next}))
    else if isCave then (false, stay)
    else
      match FirstTurn(moves, order, f.heading, f.visited)
      case Some(d) => (true, Flight(moves[d], Some(d), t, f.visited + {moves[d]}))
      case None => (false, stay)
  }

  /** Cells a flight can still enter. */
  function Unvisited(g: Graph, f: Flight): set<Coord>
  {
    Nodes(g) - f.visited
  }

  /** A move enters a cell of the graph that was not visited, so fewer cells remain. */
  lemma MoveShrinks(g: Graph, order: seq<Direction>, distance: int, f: Flight, first: bool)
    requires NextMove(g, order, distance, f, first).0
    ensures |Unvisited(g, NextMove(g, order, distance, f, first).1)| < |Unvisited(g, f)|
  {
    var n := NextMove(g, order, distance, f, first).1;
    AdjacentInNodes(g, f.at, n.at);
    assert Unvisited(g, n) == Unvisited(g, f) - {n.at};
  }

  /** `act`'s loop: moves until a move fails; the flight's final state. */
  function Fly(g: Graph, order: seq<Direction>, distance: int, f: Flight, first: bool): (r: Flight)
    ensures f.visited <= r.visited
    decreases |Unvisited(g, f)|
  {
    var n := NextMove(g, order, distance, f, first);
    if n.0 then
      MoveShrinks(g, order, distance, f, first);
      Fly(g, order, distance, n.1, false)
    else n.1
  }

  /** The arrow lands on a cell reachable by a walk from where it was shot. */
  lemma {:induction false} FlyReaches(g: Graph, order: seq<Direction>, distance: int, f: Flight, first: bool,
                                      start: Coord, w: seq<Coord>)
    requires IsPath(g, start, f.at, w)
    ensures exists v :: IsPath(g, start, Fly(g, order, distance, f, first).at, v)
    decreases |Unvisited(g, f)|
  {
    var n := NextMove(g, order, distance, f, first);
    if n.0 {
      MoveShrinks(g, order, distance, f, first);
      WalkSnoc(g, w, n.1.at);
      FlyReaches(g, order, distance, n.1, false, start, w + [n.1.at]);
      assert Fly(g, order, distance, f, first) == Fly(g, order, distance, n.1, false);
    } else {
      assert IsPath(g, start, Fly(g, order, distance, f, first).at, w);
    }
  }

  /**
   * Starting below the distance, the arrow never counts more caves than the distance:
   * it stops at the cave that makes the count equal to it.
   */
  lemma {:induction false} FlyWithinDistance(g: Graph, order: seq<Direction>, distance: int, f: Flight, first: bool)
    requires 0 <= f.travelled < distance
    ensures f.travelled <= Fly(g, order, distance, f, first).travelled <= distance
    decreases |Unvisited(g, f)|
  {
    var n := NextMove(g, order, distance, f, first);
    if n.0 {
      MoveShrinks(g, order, distance, f, first);
      FlyWithinDistance(g, order, distance, n.1, false);
    }
  }

  /** The landing cell has been visited, and a visited cell stays visited. */
  lemma {:induction false} FlyLandsVisited(g: Graph, order: seq<Direction>, distance: int, f: Flight, first: bool)
    requires f.at in f.visited
    ensures Fly(g, order, distance, f, first).at in Fly(g, order, distance, f, first).visited
    decreases |Unvisited(g, f)|
  {
    var n := NextMove(g, order, distance, f, first);
    if n.0 {
      MoveShrinks(g, order, distance, f, first);
      FlyLandsVisited(g, order, distance, n.1, false);
    }
  }

  /** A shot: an arrow (possibly not chosen yet), a heading, a distance in caves and its progress. */
  class ShootArrowAction {
    const distance: int
    var visited: set<Coord>
    var arrow: Arrow?
    var direction: Option<Direction>
    var distanceTravelled: int

    /** The action's state as a flight; defined once the arrow is placed. */
    function State(): (f: Flight)
      requires arrow != null && arrow.location.Some?
      reads this, arrow
      ensures f.at == arrow.location.value && f.heading == direction
      ensures f.travelled == distanceTravelled && f.visited == visited
    {
      Flight(arrow.location.value, direction, distanceTravelled, visited)
    }

    constructor WithArrow(arrow: Arrow, direction: Option<Direction>, distance: int)
      ensures this.arrow == arrow && this.direction == direction && this.distance == distance
      ensures distanceTravelled == 0 && visited == {}
    {
      this.arrow := arrow;
      this.direction := direction;
      this.distance := distance;
      distanceTravelled := 0;
      visited := {};
    }

    constructor (direction: Option<Direction>, distance: int)
      ensures arrow == null && this.direction == direction && this.distance == distance
      ensures distanceTravelled == 0 && visited == {}
    {
      arrow := null;
      this.direction := direction;
      this.distance := distance;
      distanceTravelled := 0;
      visited := {};
    }

    /** `nextPossibleMove` on the action's own fields and arrow. */
    method NextPossibleMove(g: Graph, order: seq<Direction>, first: bool) returns (moved: bool)
      requires arrow != null && arrow.location.Some?
      modifies this, arrow
      ensures arrow == old(arrow) && arrow.location.Some?
      ensures (moved, State()) == NextMove(g, order, distance, old(State()), first)
    {
      var moves := Moves(g, arrow.location.value);
      var isCave := |moves| != 2;
      if isCave && !first {
        distanceTravelled := distanceTravelled + 1;
      }
      if isCave && distanceTravelled == distance {
        return false;
      }
      var at := arrow.location.value;
      if direction.Some? && direction.value in moves && moves[direction.value] !in visited {
        visited := visited + {moves[direction.value]};
        arrow.SetCurrentLocation(moves[direction.value]);
        return true;
      }
      if isCave {
        return false;
      }
      var turn := FirstTurn(moves, order, direction, visited);
      if turn.Some? {
        visited := visited + {moves[turn.value]};
        arrow.SetCurrentLocation(moves[turn.value]);
        direction := turn;
        return true;
      }
      return false;
    }

    /**
     * `act`: the arrow's cell is marked visited and the arrow flies as far as it can; it
     * hits the cell it lands on, and the answer is whether it entered exactly the
     * distance in caves.
     */
    method Act(g: Graph, order: seq<Direction>) returns (r: Option<bool>, hitAt: Coord)
      requires arrow != null && arrow.location.Some?
      modifies this, arrow
      ensures arrow == old(arrow) && arrow.location.Some?
      ensures State() == Fly(g, order, distance, old(State()).(visited := old(visited) + {old(arrow.location.value)}), true)
      ensures r == Some(distanceTravelled == distance) && hitAt == arrow.location.value
    {
      visited := visited + {arrow.location.value};
      ghost var f0 := State();
      var moved := NextPossibleMove(g, order, true);
      while moved
        invariant arrow == old(arrow) && arrow.location.Some?
        invariant Fly(g, order, distance, f0, true) == if moved then Fly(g, order, distance, State(), false) else State()
        decreases |Unvisited(g, State())| + (if moved then 1 else 0)
      {
        ghost var before := State();
        moved := NextPossibleMove(g, order, false);
        if moved {
          MoveShrinks(g, order, distance, before, false);
        }
      }
      r := Some(distanceTravelled == distance);
      hitAt := arrow.location.value;
    }

    /**
     * `actOn`: only a player can shoot, and only with an arrow in the quiver; the first
     * arrow of the quiver is placed at the player's cell and shot. The answer is empty.
     */
    method ActOn(ch: Character, g: Graph, order: seq<Direction>) returns (r: Result<Option<bool>>, hitAt: Option<Coord>)
      modifies this, if ch.PlayerCharacter? then {ch.player} else {}
      modifies if ch.PlayerCharacter? && ch.player.quiver != [] then {ch.player.quiver[0]} else {}
      ensures ch.MonsterCharacter? ==> r == Failure("Arrow can only be used by a IPlayer") && hitAt == None
      ensures ch.PlayerCharacter? && old(ch.player.quiver) == [] ==>
                r == Failure("Player has no more arrows.") && hitAt == None && ch.player.quiver == []
      ensures ch.PlayerCharacter? && old(ch.player.quiver) != [] ==>
                && r == Success(None)
                && arrow == old(ch.player.quiver[0]) && ch.player.quiver == old(ch.player.quiver)[1..]
                && arrow.location.Some? && hitAt == Some(arrow.location.value)
                && State() == Fly(g, order, distance,
                                  Flight(ch.player.location.loc, old(direction), old(distanceTravelled),
                                         old(visited) + {ch.player.location.loc}), true)
      ensures ch.PlayerCharacter? ==> ch.player.location == old(ch.player.location)
      ensures ch.PlayerCharacter? ==> ch.player.possessed == old(ch.player.possessed)
      ensures ch.PlayerCharacter? ==> ch.player.health == old(ch.player.health)
    {
      if ch.MonsterCharacter? {
        r, hitAt := Failure("Arrow can only be used by a IPlayer"), None;
        return;
      }
      var p := ch.player;
      if p.quiver == [] {
        r, hitAt := Failure("Player has no more arrows."), None;
        return;
      }
      var taken := p.RemoveArrow();
      arrow := taken.value;
      var _, at := Act(g, order);
      r, hitAt := Success(None), Some(at);
    }
  }

  /** ShootArrowActionBuilder: an optional arrow, a heading and a distance of one to five caves. */
  class ShootArrowActionBuilder {
    var arrow: Arrow?
    var direction: Option<Direction>
    var distance: int

    constructor ()
      ensures arrow == null && direction == None && distance == 0
    {
      arrow := null;
      direction := None;
      distance := 0;
    }

    method WithArrow(a: Arrow) returns (b: ShootArrowActionBuilder)
      modifies this
      ensures b == this && arrow == a && direction == old(direction) && distance == old(distance)
    {
      arrow := a;
      b := this;
    }

    method WithDirection(d: Direction) returns (b: ShootArrowActionBuilder)
      modifies this
      ensures b == this && direction == Some(d) && arrow == old(arrow) && distance == old(distance)
    {
      direction := Some(d);
      b := this;
    }

    /** `withDistance`: only one to five caves are accepted; a refused value changes nothing. */
    method WithDistance(d: int) returns (r: Result<ShootArrowActionBuilder>)
      modifies this
      ensures arrow == old(arrow) && direction == old(direction)
      ensures (d <= 0 || d > 5) ==> r == Failure("Distance cannot be zero or negative or greater than 5") && distance == old(distance)
      ensures 0 < d <= 5 ==> r == Success(this) && distance == d
    {
      if d <= 0 || d > 5 {
        r := Failure("Distance cannot be zero or negative or greater than 5");
      } else {
        distance := d;
        r := Success(this);
      }
    }

    /** `build`: an action with or without its arrow, starting with nothing travelled. */
    method Build() returns (a: ShootArrowAction)
      ensures fresh(a) && a.arrow == arrow && a.direction == direction && a.distance == distance
      ensures a.distanceTravelled == 0 && a.visited == {}
    {
      if arrow == null {
        a := new ShootArrowAction(direction, distance);
      } else {
        a := new ShootArrowAction.WithArrow(arrow, direction, distance);
      }
    }
  }
}
