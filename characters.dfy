/**
 * The characters of the dungeon: the health rule they share, the player, the builder
 * that names and arms a player, and the Otyughs monster whose smell spreads to the
 * cells at most two moves away.
 */
module Characters {
  import opened Wrappers
  import opened Grid
  import opened Graph
  import opened Items
  import opened Location
  import opened Text
  import opened Bfs
  import opened Lists

  /**
   * `changeHealth` of AbstractCharacter: a zero change is refused; otherwise the change
   * is applied and a result below zero is raised to zero. There is no upper bound.
   */
  function ChangeHealth(health: int, change: int): (r: Result<int>)
    ensures r.Failure? <==> change == 0
    ensures r.Failure? ==> r.error == "Change by cannot be zero"
    ensures r.Success? ==> r.value >= 0
    ensures r.Success? ==> (r.value == 0 <==> health + change <= 0)
    ensures r.Success? && health + change > 0 ==> r.value == health + change
  {
    if change == 0 then Failure("Change by cannot be zero")
    else if health + change < 0 then Success(0)
    else Success(health + change)
  }

  /** Two blows in a row do what one blow of their sum does, once the health is not negative. */
  lemma DamageComposes(health: int, a: int, b: int)
    requires health >= 0 && a < 0 && b < 0
    ensures ChangeHealth(health, a).Success?
    ensures ChangeHealth(ChangeHealth(health, a).value, b) == ChangeHealth(health, a + b)
  {
    if health + a < 0 {
      assert ChangeHealth(health, a).value == 0;
    }
  }

  /** The damage an arrow hit deals. */
  const ArrowDamage := 50

  /** The health an Otyughs starts with. */
  const MonsterHealth := 100

  /** A healthy monster dies from exactly two arrow hits, never from one. */
  lemma {:induction false} TwoHitsKill(health: int)
    requires health == MonsterHealth
    ensures ChangeHealth(health, -ArrowDamage) == Success(50)
    ensures ChangeHealth(ChangeHealth(health, -ArrowDamage).value, -ArrowDamage) == Success(0)
  {
    DamageComposes(health, -ArrowDamage, -ArrowDamage);
  }

  /** A player: a name, the treasures taken, a quiver of arrows, a cell and a health. */
  class Player {
    const name: string
    var possessed: seq<Item>
    var quiver: seq<Arrow>
    var location: MazeLocation
    var health: int
    /** Whether the player listens for its own death (registered on the event bus). */
    const registered: bool

    /**
     * The package-private constructor: the player starts on a copy of the starting cell,
     * with health 1, no treasure and its own copy of the quiver list.
     */
    constructor (start: MazeLocation, name: string, quiver: seq<Arrow>, register: bool)
      requires !IsBlank(name)
      ensures fresh(location)
      ensures location.loc == start.loc && location.items == start.items && location.moves == start.moves
      ensures location.pickups == start.pickups && location.pickMap == start.pickMap
      ensures location.smell == 0 && location.resetCopy == []
      ensures start.Valid() ==> location.Valid()
      ensures this.name == name && this.quiver == quiver && possessed == []
      ensures health == 1 && registered == register
    {
      var c := start.Copy();
      location := c;
      this.name := name;
      possessed := [];
      this.quiver := quiver;
      health := 1;
      registered := register;
    }

    /** `makeMove`: the player moves wherever it is told; the rules are the game's business. */
    method MakeMove(whereTo: MazeLocation) returns (r: bool)
      modifies this
      ensures r && location == whereTo
      ensures possessed == old(possessed) && quiver == old(quiver) && health == old(health)
    {
      location := whereTo;
      r := true;
    }

    /** `getAllItems`: the treasures taken, then the arrows in the quiver. */
    function AllItems(): (r: seq<Item>)
      reads this
      ensures |r| == |possessed| + |quiver|
      ensures r[..|possessed|] == possessed
      ensures forall k | 0 <= k < |quiver| :: r[|possessed| + k] == ArrowItem(quiver[k])
    {
      var q := quiver;
      possessed + seq(|q|, k requires 0 <= k < |q| => ArrowItem(q[k]))
    }

    /** `assignTreasure`: a treasure of the same kind joins the possessions; always accepted. */
    method AssignTreasure(t: Treasure) returns (r: bool)
      modifies this
      ensures r
      ensures possessed == old(possessed) + [TreasureItem(Treasure(t.kind))]
      ensures quiver == old(quiver) && location == old(location) && health == old(health)
    {
      possessed := possessed + [TreasureItem(Treasure(t.kind))];
      r := true;
    }

    /** `assignArrow`: the arrow is placed at the player's cell and joins the end of the quiver. */
    method AssignArrow(a: Arrow) returns (r: bool)
      modifies this, a
      ensures r
      ensures quiver == old(quiver) + [a] && a.location == Some(location.loc)
      ensures possessed == old(possessed) && location == old(location) && health == old(health)
    {
      a.SetCurrentLocation(location.loc);
      quiver := quiver + [a];
      r := true;
    }

    /**
     * `removeArrow`: an empty quiver is an error; otherwise the first arrow leaves the
     * quiver and is placed at the player's cell.
     */
    method RemoveArrow() returns (r: Result<Arrow>)
      modifies this, if quiver != [] then {quiver[0]} else {}
      ensures old(quiver) == [] ==> r == Failure("No arrows to shoot") && quiver == []
      ensures old(quiver) != [] ==> r == Success(old(quiver)[0]) && old(quiver) == [r.value] + quiver
      ensures r.Success? ==> r.value.location == Some(location.loc)
      ensures possessed == old(possessed) && location == old(location) && health == old(health)
    {
      if quiver == [] {
        r := Failure("No arrows to shoot");
      } else {
        var a := quiver[0];
        quiver := RemoveAt(quiver, 0);
        a.SetCurrentLocation(location.loc);
        r := Success(a);
      }
    }

    /** `playerDeathListener`: a death notice drops the health to zero. */
    method PlayerDeathListener()
      modifies this
      ensures health == 0
      ensures possessed == old(possessed) && quiver == old(quiver) && location == old(location)
    {
      health := 0;
    }
  }

  /** `Player(...)` with its argument check: a blank name is refused. */
  method NewPlayer(start: MazeLocation, name: string, quiver: seq<Arrow>, register: bool) returns (r: Result<Player>)
    ensures r.Failure? <==> IsBlank(name)
    ensures r.Failure? ==> r.error == "Player cannot be blank"
    ensures r.Success? ==> fresh(r.value) && fresh(r.value.location) && r.value.name == name
    ensures r.Success? ==> r.value.quiver == quiver && r.value.possessed == [] && r.value.health == 1
    ensures r.Success? ==> r.value.location.loc == start.loc && r.value.location.moves == start.moves
    ensures r.Success? ==> r.value.location.items == start.items && r.value.registered == register
    ensures r.Success? ==> r.value.location.pickups == start.pickups && r.value.location.pickMap == start.pickMap
    ensures r.Success? ==> r.value.location.smell == 0 && r.value.location.resetCopy == []
    ensures r.Success? && start.Valid() ==> r.value.location.Valid()
  {
    if IsBlank(name) {
      r := Failure("Player cannot be blank");
    } else {
      var p := new Player(start, name, quiver, register);
      r := Success(p);
    }
  }

  /** The number of arrows a new player carries. */
  const DefaultNumberOfArrows := 3

  /** The name a player gets when none was given: "Player " and a number. */
  function DefaultName(n: nat): (r: string)
    ensures |r| > 7 && r[..7] == "Player " && r[7..] == NatToString(n)
    ensures !IsBlank(r)
  {
    var r := "Player " + NatToString(n);
    assert r[0] == 'P' && !IsWhitespace(r[0]);
    r
  }

  /** PlayerBuilder: an optional name, whether to listen for events, and a starting cell. */
  class PlayerBuilder {
    const start: MazeLocation
    var name: Option<string>
    var register: bool

    predicate Valid()
      reads this
    {
      name.Some? ==> !IsBlank(name.value)
    }

    constructor (start: MazeLocation)
      ensures this.start == start && name == None && !register && Valid()
    {
      this.start := start;
      name := None;
      register := false;
    }

    /** `setName`: a blank name is refused and leaves the builder as it was. */
    method SetName(n: string) returns (r: Result<PlayerBuilder>)
      requires Valid()
      modifies this
      ensures Valid() && register == old(register)
      ensures IsBlank(n) ==> r == Failure("Name cannot be blank") && name == old(name)
      ensures !IsBlank(n) ==> r == Success(this) && name == Some(n)
    {
      if IsBlank(n) {
        r := Failure("Name cannot be blank");
      } else {
        name := Some(n);
        r := Success(this);
      }
    }

    method SetRegister(b: bool) returns (r: PlayerBuilder)
      modifies this
      ensures r == this && register == b && name == old(name)
    {
      register := b;
      r := this;
    }

    /**
     * `createPlayer`: a builder without a name takes "Player n" for a number `n` drawn
     * from [1000, 5000) and keeps it; the player gets three new arrows.
     */
    method CreatePlayer(draw: int) returns (p: Player)
      requires Valid() && 1000 <= draw < 5000
      modifies this
      ensures Valid() && register == old(register)
      ensures name == if old(name).Some? then old(name) else Some(DefaultName(draw))
      ensures fresh(p) && fresh(p.location) && p.name == name.value
      ensures p.possessed == [] && p.health == 1 && p.registered == register
      ensures p.location.loc == start.loc && p.location.moves == start.moves && p.location.items == start.items
      ensures p.location.pickups == start.pickups && p.location.pickMap == start.pickMap
      ensures p.location.smell == 0 && p.location.resetCopy == []
      ensures start.Valid() ==> p.location.Valid()
      ensures |p.quiver| == DefaultNumberOfArrows
      ensures forall i | 0 <= i < |p.quiver| :: fresh(p.quiver[i]) && p.quiver[i].location == None
      ensures forall i, j | 0 <= i < j < |p.quiver| :: p.quiver[i] != p.quiver[j]
    {
      var quiver: seq<Arrow> := [];
      for i := 0 to DefaultNumberOfArrows
        invariant |quiver| == i && name == old(name) && register == old(register)
        invariant forall k | 0 <= k < i :: fresh(quiver[k]) && quiver[k].location == None
        invariant forall k, l | 0 <= k < l < i :: quiver[k] != quiver[l]
      {
        var a := new Arrow();
        quiver := quiver + [a];
      }
      if name.None? {
        name := Some(DefaultName(draw));
      }
      p := new Player(start, name.value, quiver, register);
    }
  }

  /** The smell a cell `d` moves from a monster gets: strong next door, weak two moves away. */
  function StrengthAt(d: nat): (r: SmellStrength)
    ensures r != NoSmell
    ensures r == Strong <==> d < 2
  {
    if d < 2 then Strong else Weak
  }

  /** What one monster's smell field adds to the counter of cell `c`. */
  function SmellDelta(field: map<Coord, nat>, c: Coord): (r: nat)
    ensures c !in field ==> r == 0
    ensures c in field ==> StrengthOf(r) == StrengthAt(field[c])
  {
    if c in field then Weight(StrengthAt(field[c])) else 0
  }

  /**
   * The cells a monster at `at` smells up, each with its distance in moves: exactly the
   * cells other than `at` whose shortest walk from `at` takes one or two moves.
   */
  ghost predicate IsSmellField(g: Graph, at: Coord, field: map<Coord, nat>)
  {
    && at !in field
    && (forall c | c in field :: 1 <= field[c] <= 2 && exists w :: IsPath(g, at, c, w) && |w| == field[c] + 1)
    && (forall c, w | IsPath(g, at, c, w) && c != at && |w| <= 3 :: c in field && field[c] <= |w| - 1)
  }

  /** `setSmellPermeatedLocations`: the distances from `at`, kept where they are 1 or 2. */
  method SmellFieldOf(g: Graph, at: Coord) returns (field: map<Coord, nat>)
    ensures IsSmellField(g, at, field)
  {
    var dist := DistanceToAllNodes(g, at);
    field := map c | c in dist && 0 < dist[c] <= 2 :: dist[c];
    forall c, w | IsPath(g, at, c, w) && c != at && |w| <= 3
      ensures c in field && field[c] <= |w| - 1
    {
      assert c in dist && dist[c] <= |w| - 1;
    }
    assert IsSmellField(g, at, field);
  }

  /** Between two states, the cells of a world changed at most their smell counters. */
  twostate predicate OnlySmellChanged(world: map<Coord, MazeLocation>)
    reads Cells(world)
  {
    forall c {:trigger world[c].moves} {:trigger world[c].items} {:trigger world[c].pickups}
             {:trigger world[c].pickMap} {:trigger world[c].resetCopy} | c in world ::
      && world[c].moves == old(world[c].moves) && world[c].items == old(world[c].items)
      && world[c].pickups == old(world[c].pickups) && world[c].pickMap == old(world[c].pickMap)
      && world[c].resetCopy == old(world[c].resetCopy)
  }

  /** The smell counters of a world's cells. */
  ghost function SmellMap(world: map<Coord, MazeLocation>): (r: map<Coord, int>)
    reads Cells(world)
    ensures r.Keys == world.Keys
  {
    map c | c in world :: world[c].smell
  }

  /** Smell counters once a monster with smell field `field` has taken its smell back. */
  function WithoutSmell(smell: map<Coord, int>, field: map<Coord, nat>): (r: map<Coord, int>)
    ensures r.Keys == smell.Keys
  {
    map c | c in smell :: smell[c] - SmellDelta(field, c)
  }

  /** Smell counters once a monster with smell field `field` has published its smell. */
  function WithSmell(smell: map<Coord, int>, field: map<Coord, nat>): (r: map<Coord, int>)
    ensures r.Keys == smell.Keys
  {
    map c | c in smell :: smell[c] + SmellDelta(field, c)
  }

  /**
   * Taking a smell back undoes publishing it, and the other way round; cells outside the
   * field keep their counters.
   */
  lemma SmellRoundTrip(smell: map<Coord, int>, field: map<Coord, nat>)
    ensures WithoutSmell(WithSmell(smell, field), field) == smell
    ensures WithSmell(WithoutSmell(smell, field), field) == smell
    ensures forall c | c in smell && c !in field :: WithSmell(smell, field)[c] == smell[c]
  {
    assert WithoutSmell(WithSmell(smell, field), field).Keys == smell.Keys;
    assert WithSmell(WithoutSmell(smell, field), field).Keys == smell.Keys;
  }

  /** Each cell of a world sits at its own position; this holds in every state, positions being fixed. */
  predicate Placed(world: map<Coord, MazeLocation>)
  {
    forall c | c in world :: world[c].loc == c
  }

  /** What the cells of a world hold besides their smell counters. */
  ghost function Shape(world: map<Coord, MazeLocation>):
    (r: map<Coord, (seq<Item>, seq<PickItemAction>, Edges, map<Item, PickItemAction>, seq<Item>)>)
    reads Cells(world)
    ensures r.Keys == world.Keys
  {
    map c | c in world :: (world[c].items, world[c].pickups, world[c].moves, world[c].pickMap, world[c].resetCopy)
  }

  /** Keeping the shape of a world is the same as changing at most its smell counters. */
  twostate lemma ShapeKept(world: map<Coord, MazeLocation>)
    ensures Shape(world) == old(Shape(world)) <==> OnlySmellChanged(world)
  {
    if Shape(world) == old(Shape(world)) {
      forall c | c in world
        ensures world[c].moves == old(world[c].moves) && world[c].items == old(world[c].items)
        ensures world[c].pickups == old(world[c].pickups) && world[c].pickMap == old(world[c].pickMap)
        ensures world[c].resetCopy == old(world[c].resetCopy)
      {
        assert Shape(world)[c] == old(Shape(world))[c];
      }
    }
  }

  /** The counters once every cell outside `pending` gained (or lost) what `field` gives it. */
  function Published(smell: map<Coord, int>, field: map<Coord, nat>, pending: set<Coord>, add: bool): (r: map<Coord, int>)
    ensures r.Keys == smell.Keys
  {
    map c | c in smell :: smell[c] + (if c !in pending then (if add then 1 else -1) * SmellDelta(field, c) else 0)
  }

  lemma PublishedStart(smell: map<Coord, int>, field: map<Coord, nat>, add: bool)
    ensures Published(smell, field, field.Keys, add) == smell
  {
  }

  lemma PublishedEnd(smell: map<Coord, int>, field: map<Coord, nat>, add: bool)
    ensures Published(smell, field, {}, add) == if add then WithSmell(smell, field) else WithoutSmell(smell, field)
  {
  }

  lemma PublishedStep(smell: map<Coord, int>, field: map<Coord, nat>, pending: set<Coord>, add: bool, c: Coord)
    requires c in smell && c in field && c in pending
    ensures Published(smell, field, pending - {c}, add)
            == Published(smell, field, pending, add)[c := Published(smell, field, pending, add)[c]
                                                         + (if add then 1 else -1) * Weight(StrengthAt(field[c]))]
  {
  }

  /** One cell's counter goes up (or down) by the weight of a smell; nothing else in the world changes. */
  method ShiftSmell(world: map<Coord, MazeLocation>, c: Coord, s: SmellStrength, add: bool)
    requires Placed(world) && c in world
    modifies world[c]
    ensures Shape(world) == old(Shape(world))
    ensures SmellMap(world) == old(SmellMap(world))[c := old(SmellMap(world))[c] + (if add then 1 else -1) * Weight(s)]
  {
    if add {
      world[c].AddSmell(s);
    } else {
      world[c].RemoveSmell(s);
    }
  }

  /** One turn of publishing a field: cell `c`'s counter takes its share, and `c` is done. */
  method PublishAt(world: map<Coord, MazeLocation>, field: map<Coord, nat>, ghost smell: map<Coord, int>,
                   rest: set<Coord>, add: bool, c: Coord)
    requires Placed(world) && c in rest && rest <= field.Keys && field.Keys <= world.Keys && smell.Keys == world.Keys
    requires SmellMap(world) == Published(smell, field, rest, add)
    modifies world[c]
    ensures Shape(world) == old(Shape(world))
    ensures SmellMap(world) == Published(smell, field, rest - {c}, add)
  {
    PublishedStep(smell, field, rest, add, c);
    ShiftSmell(world, c, StrengthAt(field[c]), add);
  }

  /** An Otyughs monster: fixed at one cell of a world, with its health and smell field. */
  class Otyughs {
    const location: Coord
    const name: string
    const world: map<Coord, MazeLocation>
    var health: int
    const smellField: map<Coord, nat>
    /** Whether the monster still listens to events: false once it is dead. */
    var registered: bool

    /** The monster stands in its world, whose cells sit at their own positions, and smells up only cells of it. */
    ghost predicate Valid()
    {
      && Placed(world) && location in world && smellField.Keys <= world.Keys
      && (forall c | c in world :: world[c] as object != this)
    }

    /**
     * The two-argument constructor: health 100, listening to events, and its smell
     * published to every cell of its field.
     */
    constructor (world: map<Coord, MazeLocation>, at: Coord, name: string)
      requires !IsBlank(name) && WorldOk(world) && at in world
      modifies Cells(world)
      ensures Valid() && this.world == world && location == at && this.name == name
      ensures IsSmellField(GraphOf(world), at, smellField)
      ensures health == MonsterHealth && registered
      ensures OnlySmellChanged(world)
      ensures SmellMap(world) == WithSmell(old(SmellMap(world)), smellField)
    {
      ghost var smell := SmellMap(world);
      this.world := world;
      location := at;
      this.name := name;
      var g := GraphOf(world);
      var field := SmellFieldOf(g, at);
      SmellFieldInWorld(world, at, field);
      smellField := field;
      health := MonsterHealth;
      registered := true;
      new;
      assert SmellMap(world) == smell;
      PublishSmellChanges(true);
      GraphKept(world);
      assert GraphOf(world) == g;
    }

    /**
     * The copying constructor: like the other one, but it listens to events only when
     * asked and publishes no smell.
     */
    constructor Quiet(world: map<Coord, MazeLocation>, at: Coord, name: string, subEvents: bool)
      requires !IsBlank(name) && WorldOk(world) && at in world
      ensures Valid() && this.world == world && location == at && this.name == name
      ensures IsSmellField(GraphOf(world), at, smellField)
      ensures health == MonsterHealth && registered == subEvents
    {
      this.world := world;
      location := at;
      this.name := name;
      health := MonsterHealth;
      registered := subEvents;
      var g := GraphOf(world);
      var field := SmellFieldOf(g, at);
      SmellFieldInWorld(world, at, field);
      smellField := field;
      new;
      assert GraphOf(world) == g;
    }

    /**
     * `publishSmellChanges`: every cell of the field gains (or loses) a strong smell when
     * it is next door and a weak one when it is two moves away; nothing else changes.
     */
    method PublishSmellChanges(add: bool)
      requires Valid()
      modifies Cells(world)
      ensures Valid()
      ensures OnlySmellChanged(world)
      ensures SmellMap(world) ==
                if add then WithSmell(old(SmellMap(world)), smellField) else WithoutSmell(old(SmellMap(world)), smellField)
    {
      ghost var smell := SmellMap(world);
      var rest := smellField.Keys;
      PublishedStart(smell, smellField, add);
      while rest != {}
        invariant rest <= smellField.Keys
        invariant Shape(world) == old(Shape(world))
        invariant SmellMap(world) == Published(smell, smellField, rest, add)
        decreases rest
      {
        var c :| c in rest;
        PublishAt(world, smellField, smell, rest, add, c);
        rest := rest - {c};
      }
      ShapeKept(world);
      PublishedEnd(smell, smellField, add);
    }

    /** `makeMove`: a monster never moves. */
    method MakeMove(whereTo: MazeLocation) returns (r: bool)
      ensures !r
    {
      r := false;
    }

    /**
     * `takeHit`: a hit elsewhere is ignored; a hit here costs 50 health, and a monster
     * left with none dies: it stops listening and takes its smell back.
     */
    method TakeHit(hitAt: Coord) returns (died: bool)
      requires Valid()
      modifies this, Cells(world)
      ensures Valid() && OnlySmellChanged(world)
      ensures hitAt != location ==> health == old(health) && registered == old(registered)
      ensures hitAt == location ==> health == ChangeHealth(old(health), -ArrowDamage).value
      ensures died <==> hitAt == location && health <= 0
      ensures died ==> !registered
      ensures !died ==> registered == old(registered)
      ensures SmellMap(world) == if died then WithoutSmell(old(SmellMap(world)), smellField) else old(SmellMap(world))
    {
      died := false;
      if hitAt == location {
        var left := ChangeHealth(health, -ArrowDamage).value;
        if left <= 0 {
          died := true;
          PublishSmellChanges(false);
          registered := false;
        }
        health := left;
      }
    }

    /**
     * `battlePlayer`: a monster above half health kills the player; otherwise the draw
     * decides: 0 kills the player, 1 kills the monster, which then takes its smell back.
     */
    method BattlePlayer(draw: nat) returns (playerDies: bool)
      requires Valid() && draw < 2
      modifies this, Cells(world)
      ensures Valid() && OnlySmellChanged(world) && health == old(health)
      ensures playerDies <==> health > 50 || draw == 0
      ensures playerDies ==> registered == old(registered)
      ensures !playerDies ==> !registered
      ensures SmellMap(world) == if playerDies then old(SmellMap(world)) else WithoutSmell(old(SmellMap(world)), smellField)
    {
      if health > 50 || draw == 0 {
        playerDies := true;
      } else {
        playerDies := false;
        PublishSmellChanges(false);
        registered := false;
      }
    }

    /** `playerEntered`: a battle happens only when the player stepped into the monster's cell. */
    method PlayerEntered(playerAt: Coord, draw: nat) returns (playerDies: Option<bool>)
      requires Valid() && draw < 2
      modifies this, Cells(world)
      ensures Valid() && OnlySmellChanged(world) && health == old(health)
      ensures playerDies.Some? <==> playerAt == location
      ensures playerDies.Some? ==> (playerDies.value <==> health > 50 || draw == 0)
      ensures playerDies == Some(false) ==> !registered
      ensures playerDies != Some(false) ==> registered == old(registered)
      ensures SmellMap(world) == if playerDies == Some(false) then WithoutSmell(old(SmellMap(world)), smellField) else old(SmellMap(world))
    {
      if playerAt == location {
        var dies := BattlePlayer(draw);
        playerDies := Some(dies);
      } else {
        playerDies := None;
      }
    }

    /** `bringBackToLifeHelper`: listening again, and the smell taken back and published anew. */
    method BringBackToLife()
      requires Valid()
      modifies this, Cells(world)
      ensures Valid() && OnlySmellChanged(world) && registered
      ensures health == old(health)
      ensures SmellMap(world) == old(SmellMap(world))
    {
      PublishSmellChanges(false);
      PublishSmellChanges(true);
      registered := true;
      SmellRoundTrip(old(SmellMap(world)), smellField);
    }
  }

  /** The two-argument `Otyughs(...)` with its argument check: a blank name is refused before any smell is published. */
  method NewOtyughs(world: map<Coord, MazeLocation>, at: Coord, name: string) returns (r: Result<Otyughs>)
    requires WorldOk(world) && at in world
    modifies Cells(world)
    ensures r.Failure? <==> IsBlank(name)
    ensures r.Failure? ==> r.error == "Name cannot be blank" && SmellMap(world) == old(SmellMap(world))
    ensures r.Success? ==> fresh(r.value) && r.value.Valid() && r.value.location == at && r.value.name == name
    ensures r.Success? ==> r.value.health == MonsterHealth && r.value.registered
    ensures r.Success? ==> SmellMap(world) == WithSmell(old(SmellMap(world)), r.value.smellField)
    ensures OnlySmellChanged(world)
  {
    if IsBlank(name) {
      r := Failure("Name cannot be blank");
    } else {
      var m := new Otyughs(world, at, name);
      r := Success(m);
    }
  }

  /** The three-argument `Otyughs(...)` with its argument check: a blank name is refused. */
  method NewQuietOtyughs(world: map<Coord, MazeLocation>, at: Coord, name: string, subEvents: bool) returns (r: Result<Otyughs>)
    requires WorldOk(world) && at in world
    ensures r.Failure? <==> IsBlank(name)
    ensures r.Failure? ==> r.error == "Name cannot be blank"
    ensures r.Success? ==> fresh(r.value) && r.value.Valid() && r.value.location == at && r.value.name == name
    ensures r.Success? ==> IsSmellField(GraphOf(world), at, r.value.smellField)
    ensures r.Success? ==> r.value.health == MonsterHealth && r.value.registered == subEvents
  {
    if IsBlank(name) {
      r := Failure("Name cannot be blank");
    } else {
      var m := new Otyughs.Quiet(world, at, name, subEvents);
      r := Success(m);
    }
  }

  /** The smell field of a cell of a world lies inside that world. */
  lemma SmellFieldInWorld(world: map<Coord, MazeLocation>, at: Coord, field: map<Coord, nat>)
    requires WorldOk(world) && at in world
    requires IsSmellField(GraphOf(world), at, field)
    ensures field.Keys <= world.Keys
  {
    forall c | c in field
      ensures c in world
    {
      var w :| IsPath(GraphOf(world), at, c, w) && |w| == field[c] + 1;
      PathStaysInWorld(world, at, c, w);
    }
  }

  /** Changing nothing but smell keeps the world's graph and its well-formedness. */
  twostate lemma GraphKept(world: map<Coord, MazeLocation>)
    requires old(WorldOk(world)) && OnlySmellChanged(world)
    ensures WorldOk(world) && GraphOf(world) == old(GraphOf(world))
  {
  }
}
