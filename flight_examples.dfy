/**
 * Two arrow shots on the 6 x 6 mazes that ShootArrowActionTest builds, cell `i` being
 * row `i / 6` and column `i % 6`, with edges added by `makeAdjacent`.
 */
module FlightExamples {
  import opened Wrappers
  import opened Grid
  import opened Graph
  import opened Flight
  import opened Lists

  /** The move sets of the first four cells of the `moveEast` maze. */
  predicate MoveEastCorridor(g: Graph)
  {
    && Moves(g, Coord(0, 0)) == map[East := Coord(0, 1), South := Coord(1, 0)]
    && Moves(g, Coord(0, 1)) == map[West := Coord(0, 0), East := Coord(0, 2)]
    && Moves(g, Coord(0, 2)) == map[West := Coord(0, 1), East := Coord(0, 3), South := Coord(1, 2)]
    && Moves(g, Coord(0, 3)) == map[West := Coord(0, 2), East := Coord(0, 4), South := Coord(1, 3)]
  }

  /** A step where the arrow can go straight on. */
  lemma Straight(g: Graph, order: seq<Direction>, distance: int, f: Flight, first: bool, next: Coord, t: int)
    requires f.heading.Some? && f.heading.value in Moves(g, f.at) && Moves(g, f.at)[f.heading.value] == next
    requires next !in f.visited
    requires t == f.travelled + (if IsCave(g, f.at) && !first then 1 else 0)
    requires !(IsCave(g, f.at) && t == distance)
    ensures NextMove(g, order, distance, f, first) == (true, Flight(next, f.heading, t, f.visited + {next}))
  {
    var n := NextMove(g, order, distance, f, first);
    assert n.1.at == next && n.1.heading == f.heading && n.1.travelled == t && n.1.visited == f.visited + {next};
  }

  /**
   * `moveEast`: shot east from cell 0 over two caves, the arrow passes the tunnel cells
   * 0 and 1, counts cave 2, and stops in cave 3 having entered exactly two caves.
   */
  lemma MoveEastLandsInCellThree(g: Graph, order: seq<Direction>)
    requires MoveEastCorridor(g)
    ensures Fly(g, order, 2, Flight(Coord(0, 0), Some(East), 0, {Coord(0, 0)}), true)
              == Flight(Coord(0, 3), Some(East), 2, {Coord(0, 0), Coord(0, 1), Coord(0, 2), Coord(0, 3)})
  {
    var f0 := Flight(Coord(0, 0), Some(East), 0, {Coord(0, 0)});
    var f1 := Flight(Coord(0, 1), Some(East), 0, {Coord(0, 0), Coord(0, 1)});
    var f2 := Flight(Coord(0, 2), Some(East), 0, {Coord(0, 0), Coord(0, 1), Coord(0, 2)});
    var f3 := Flight(Coord(0, 3), Some(East), 1, {Coord(0, 0), Coord(0, 1), Coord(0, 2), Coord(0, 3)});
    assert |Moves(g, Coord(0, 0))| == 2 && |Moves(g, Coord(0, 1))| == 2;
    assert |Moves(g, Coord(0, 2))| == 3 && |Moves(g, Coord(0, 3))| == 3;
    Straight(g, order, 2, f0, true, Coord(0, 1), 0);
    assert f0.visited + {Coord(0, 1)} == f1.visited;
    Straight(g, order, 2, f1, false, Coord(0, 2), 0);
    assert f1.visited + {Coord(0, 2)} == f2.visited;
    Straight(g, order, 2, f2, false, Coord(0, 3), 1);
    assert f2.visited + {Coord(0, 3)} == f3.visited;
    assert NextMove(g, order, 2, f3, false) == (false, f3.(travelled := 2));
    assert Fly(g, order, 2, f3, false) == f3.(travelled := 2);
    assert Fly(g, order, 2, f2, false) == Fly(g, order, 2, f3, false);
    assert Fly(g, order, 2, f1, false) == Fly(g, order, 2, f2, false);
    assert Fly(g, order, 2, f0, true) == Fly(g, order, 2, f1, false);
  }


  /** A step where a tunnel turns the arrow into direction `d`. */
  lemma Turn(g: Graph, order: seq<Direction>, distance: int, f: Flight, first: bool, d: Direction)
    requires !IsCave(g, f.at)
    requires !(f.heading.Some? && f.heading.value in Moves(g, f.at) && Moves(g, f.at)[f.heading.value] !in f.visited)
    requires FirstTurn(Moves(g, f.at), order, f.heading, f.visited) == Some(d)
    ensures NextMove(g, order, distance, f, first)
              == (true, Flight(Moves(g, f.at)[d], Some(d), f.travelled, f.visited + {Moves(g, f.at)[d]}))
  {
    var n := NextMove(g, order, distance, f, first);
    assert n.1.heading == Some(d);
  }

  /** A step where a tunnel offers the arrow no cell it has not been to. */
  lemma Stuck(g: Graph, order: seq<Direction>, distance: int, f: Flight, first: bool)
    requires !IsCave(g, f.at)
    requires forall d | d in Moves(g, f.at) :: Moves(g, f.at)[d] in f.visited
    ensures NextMove(g, order, distance, f, first) == (false, f)
  {
    var n := NextMove(g, order, distance, f, first);
    assert n.1.at == f.at && n.1.heading == f.heading && n.1.visited == f.visited;
  }

  /** Cell `c` is a tunnel with exits `d1` to `c1` and `d2` to `c2`. */
  predicate TunnelAt(g: Graph, c: Coord, d1: Direction, c1: Coord, d2: Direction, c2: Coord)
  {
    Moves(g, c) == map[d1 := c1, d2 := c2]
  }

  /** The four cells of the `testLoopedTunnel` maze: a square of tunnels in the corner. */
  predicate LoopedSquare(g: Graph)
  {
    && TunnelAt(g, Coord(0, 0), East, Coord(0, 1), South, Coord(1, 0))
    && TunnelAt(g, Coord(0, 1), West, Coord(0, 0), South, Coord(1, 1))
    && TunnelAt(g, Coord(1, 1), North, Coord(0, 1), West, Coord(1, 0))
    && TunnelAt(g, Coord(1, 0), North, Coord(0, 0), East, Coord(1, 1))
  }

  /** At the corner cell, shot west, the arrow turns to whichever of East and South comes first. */
  lemma CornerTurn(g: Graph, order: seq<Direction>)
    requires LoopedSquare(g) && IsOrder(order)
    ensures FirstTurn(Moves(g, Coord(0, 0)), order, Some(West), {Coord(0, 0)})
              == if IndexOf(order, East) < IndexOf(order, South) then Some(East) else Some(South)
  {
    var a := Coord(0, 0);
    var t0 := FirstTurn(Moves(g, a), order, Some(West), {a});
    assert IsTurn(Moves(g, a), Some(West), {a}, East) && IsTurn(Moves(g, a), Some(West), {a}, South);
    assert t0 == Some(East) || t0 == Some(South);
  }

  /** A step that moves the arrow on: the rest of the flight starts from the new cell. */
  lemma Flies(g: Graph, order: seq<Direction>, distance: int, f: Flight, first: bool, next: Flight)
    requires NextMove(g, order, distance, f, first) == (true, next)
    ensures Fly(g, order, distance, f, first) == Fly(g, order, distance, next, false)
  {
  }

  /** A step that leaves the arrow where it is ends the flight. */
  lemma Stops(g: Graph, order: seq<Direction>, distance: int, f: Flight, first: bool)
    requires NextMove(g, order, distance, f, first) == (false, f)
    ensures Fly(g, order, distance, f, first) == f
  {
  }

  /** Three moves and then a stop: the flight ends where the third move left the arrow. */
  lemma ThreeMovesThenStop(g: Graph, order: seq<Direction>, distance: int, f0: Flight, f1: Flight, f2: Flight, f3: Flight)
    requires NextMove(g, order, distance, f0, true) == (true, f1)
    requires NextMove(g, order, distance, f1, false) == (true, f2)
    requires NextMove(g, order, distance, f2, false) == (true, f3)
    requires NextMove(g, order, distance, f3, false) == (false, f3)
    ensures Fly(g, order, distance, f0, true) == f3
  {
    Flies(g, order, distance, f0, true, f1);
    Flies(g, order, distance, f1, false, f2);
    Flies(g, order, distance, f2, false, f3);
    Stops(g, order, distance, f3, false);
  }

  /** Shot west from the corner cell, the arrow takes the corner's first turn. */
  lemma CornerStep(g: Graph, order: seq<Direction>, d: Direction, next: Coord)
    requires LoopedSquare(g) && IsOrder(order)
    requires FirstTurn(Moves(g, Coord(0, 0)), order, Some(West), {Coord(0, 0)}) == Some(d)
    requires Moves(g, Coord(0, 0))[d] == next
    ensures NextMove(g, order, 1, Flight(Coord(0, 0), Some(West), 0, {Coord(0, 0)}), true)
              == (true, Flight(next, Some(d), 0, {Coord(0, 0), next}))
  {
    var a := Coord(0, 0);
    assert |Moves(g, a)| == 2;
    Turn(g, order, 1, Flight(a, Some(West), 0, {a}), true, d);
    assert {a} + {next} == {a, next};
  }

  /**
   * A tunnel the arrow came into by one exit, `back`, leading where it has been: it
   * leaves by the other exit, `out`, whatever the iteration order.
   */
  lemma TunnelOnward(g: Graph, order: seq<Direction>, f: Flight, back: Direction, from: Coord, out: Direction, to: Coord,
                     outFirst: bool)
    requires IsOrder(order) && back != out
    requires if outFirst then TunnelAt(g, f.at, out, to, back, from) else TunnelAt(g, f.at, back, from, out, to)
    requires from in f.visited && to !in f.visited && f.heading != Some(out)
    ensures NextMove(g, order, 1, f, false) == (true, Flight(to, Some(out), f.travelled, f.visited + {to}))
  {
    var moves := Moves(g, f.at);
    assert |moves| == 2;
    assert IsTurn(moves, f.heading, f.visited, out);
    var t := FirstTurn(moves, order, f.heading, f.visited);
    assert t == Some(out);
    Turn(g, order, 1, f, false, out);
  }

  /** A tunnel both of whose exits lead where the arrow has been: the flight ends there. */
  lemma TunnelEnd(g: Graph, order: seq<Direction>, f: Flight, back: Direction, from: Coord, other: Direction, to: Coord)
    requires back != other
    requires TunnelAt(g, f.at, back, from, other, to)
    requires from in f.visited && to in f.visited
    ensures NextMove(g, order, 1, f, false) == (false, f)
  {
    assert |Moves(g, f.at)| == 2;
    Stuck(g, order, 1, f, false);
  }

  /** Turning east first, the arrow goes round clockwise and stops in cell 6. */
  lemma LoopEastFirst(g: Graph, order: seq<Direction>)
    requires LoopedSquare(g) && IsOrder(order)
    requires FirstTurn(Moves(g, Coord(0, 0)), order, Some(West), {Coord(0, 0)}) == Some(East)
    ensures Fly(g, order, 1, Flight(Coord(0, 0), Some(West), 0, {Coord(0, 0)}), true)
              == Flight(Coord(1, 0), Some(West), 0, {Coord(0, 0), Coord(0, 1), Coord(1, 1), Coord(1, 0)})
  {
    var a, b, c, d := Coord(0, 0), Coord(0, 1), Coord(1, 1), Coord(1, 0);
    var f0 := Flight(a, Some(West), 0, {a});
    var f1 := Flight(b, Some(East), 0, {a, b});
    var f2 := Flight(c, Some(South), 0, {a, b, c});
    var f3 := Flight(d, Some(West), 0, {a, b, c, d});
    CornerStep(g, order, East, b);
    TunnelOnward(g, order, f1, West, a, South, c, false);
    assert f1.visited + {c} == f2.visited;
    TunnelOnward(g, order, f2, North, b, West, d, false);
    assert f2.visited + {d} == f3.visited;
    TunnelEnd(g, order, f3, North, a, East, c);
    ThreeMovesThenStop(g, order, 1, f0, f1, f2, f3);
  }

  /** Turning south first, the arrow goes round anticlockwise and stops in cell 1. */
  lemma LoopSouthFirst(g: Graph, order: seq<Direction>)
    requires LoopedSquare(g) && IsOrder(order)
    requires FirstTurn(Moves(g, Coord(0, 0)), order, Some(West), {Coord(0, 0)}) == Some(South)
    ensures Fly(g, order, 1, Flight(Coord(0, 0), Some(West), 0, {Coord(0, 0)}), true)
              == Flight(Coord(0, 1), Some(North), 0, {Coord(0, 0), Coord(1, 0), Coord(1, 1), Coord(0, 1)})
  {
    var a, b, c, d := Coord(0, 0), Coord(0, 1), Coord(1, 1), Coord(1, 0);
    var f0 := Flight(a, Some(West), 0, {a});
    var f1 := Flight(d, Some(South), 0, {a, d});
    var f2 := Flight(c, Some(East), 0, {a, d, c});
    var f3 := Flight(b, Some(North), 0, {a, d, c, b});
    CornerStep(g, order, South, d);
    TunnelOnward(g, order, f1, North, a, East, c, false);
    assert f1.visited + {c} == f2.visited;
    TunnelOnward(g, order, f2, West, d, North, b, true);
    assert f2.visited + {b} == f3.visited;
    TunnelEnd(g, order, f3, West, a, South, c);
    ThreeMovesThenStop(g, order, 1, f0, f1, f2, f3);
  }

  /**
   * `testLoopedTunnel`: shot west from cell 0 into a square of tunnels, the arrow goes
   * once round the square and enters no cave, so the shot is not a hit. Where it stops
   * depends on the cell's iteration order: cell 6 (row 1, column 0), which the test
   * expects, only when East comes before South in that order; cell 1 otherwise.
   */
  lemma LoopedTunnelDependsOnOrder(g: Graph, order: seq<Direction>)
    requires LoopedSquare(g) && IsOrder(order)
    ensures Fly(g, order, 1, Flight(Coord(0, 0), Some(West), 0, {Coord(0, 0)}), true).travelled == 0
    ensures Fly(g, order, 1, Flight(Coord(0, 0), Some(West), 0, {Coord(0, 0)}), true).at
              == if IndexOf(order, East) < IndexOf(order, South) then Coord(1, 0) else Coord(0, 1)
  {
    CornerTurn(g, order);
    if IndexOf(order, East) < IndexOf(order, South) {
      LoopEastFirst(g, order);
    } else {
      LoopSouthFirst(g, order);
    }
  }
}
