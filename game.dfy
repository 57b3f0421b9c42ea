/**
 * DungeonGame: one player in a world of cells with its monsters. `interact` carries out
 * a move, a pick or a shot for the player and ends the game when the player reaches the
 * end cell; a player's death ends it too. The events the source passes over its event bus
 * are direct calls here: an arrow's hit reaches every monster still listening, a player's
 * entering a cell reaches every monster still listening, and a monster that kills the
 * player tells the game.
 */
module Game {
  import opened Wrappers
  import opened Grid
  import opened Graph
  import opened Items
  import opened Location
  import opened Characters
  import opened Actions
  import opened Flight
  import opened Text

  /** What `interact` is given: a move action, a pick action or a shot. */
  datatype GameAction = MoveAct(move: MoveAction) | PickAct(pick: PickItemAction) | ShootAct(shot: ShootArrowAction)

  /** The one kind of player action the game offers besides moving and picking. */
  datatype PlayerActionType = ShootArrow

  /** The health left after `k` deaths, each lowering it by one and never below zero. */
  function AfterDeaths(health: int, k: nat): (r: int)
    ensures k > 0 ==> r >= 0
    ensures k == 0 ==> r == health
    ensures k > 0 && health - k >= 0 ==> r == health - k
    ensures k > 0 && health - k < 0 ==> r == 0
  {
    if k == 0 then health else if health - k < 0 then 0 else health - k
  }

  /** One more death is one more `changeHealth(-1)`. */
  lemma AfterOneMoreDeath(health: int, k: nat)
    ensures ChangeHealth(AfterDeaths(health, k), -1) == Success(AfterDeaths(health, k + 1))
  {
  }

  /** How many of the battles killed the player. */
  function Kills(outcome: seq<Option<bool>>): (r: nat)
    ensures r <= |outcome|
  {
    if outcome == [] then 0
    else Kills(outcome[..|outcome| - 1]) + (if outcome[|outcome| - 1] == Some(true) then 1 else 0)
  }

  /** Some battle killed the player exactly when the count of kills is positive. */
  lemma {:induction false} KillsPositive(outcome: seq<Option<bool>>)
    ensures Kills(outcome) > 0 <==> exists i | 0 <= i < |outcome| :: outcome[i] == Some(true)
  {
    if outcome != [] {
      var front := outcome[..|outcome| - 1];
      KillsPositive(front);
      if exists i | 0 <= i < |front| :: front[i] == Some(true) {
        var i :| 0 <= i < |front| && front[i] == Some(true);
        assert outcome[i] == Some(true);
      }
      if exists i | 0 <= i < |outcome| :: outcome[i] == Some(true) {
        var i :| 0 <= i < |outcome| && outcome[i] == Some(true);
        if i < |front| {
          assert front[i] == Some(true);
        }
      }
    }
  }

  /** What the first `n` monsters, those of them that died, give back to the smell counter of cell `c`. */
  function Released(ms: seq<Otyughs>, died: seq<bool>, n: nat, c: Coord): (r: nat)
    requires n <= |ms| && n <= |died|
  {
    if n == 0 then 0
    else Released(ms, died, n - 1, c) + (if died[n - 1] then SmellDelta(ms[n - 1].smellField, c) else 0)
  }

  /** The smell counters once the first `n` monsters, those of them that died, took their smell back, in turn. */
  function WithoutDead(smell: map<Coord, int>, ms: seq<Otyughs>, died: seq<bool>, n: nat): (r: map<Coord, int>)
    requires n <= |ms| && n <= |died|
    ensures r.Keys == smell.Keys
  {
    if n == 0 then smell
    else if died[n - 1] then WithoutSmell(WithoutDead(smell, ms, died, n - 1), ms[n - 1].smellField)
    else WithoutDead(smell, ms, died, n - 1)
  }

  /** Cell by cell, the dead monsters' smell is taken off each counter: the sum of what each of them gave it. */
  lemma {:induction false} WithoutDeadCells(smell: map<Coord, int>, ms: seq<Otyughs>, died: seq<bool>, n: nat, c: Coord)
    requires n <= |ms| && n <= |died| && c in smell
    ensures WithoutDead(smell, ms, died, n)[c] == smell[c] - Released(ms, died, n, c)
  {
    if n > 0 {
      WithoutDeadCells(smell, ms, died, n - 1, c);
    }
  }

  /** No monster died: no counter changed. */
  lemma {:induction false} NoneDead(smell: map<Coord, int>, ms: seq<Otyughs>, died: seq<bool>, n: nat)
    requires n <= |ms| && n <= |died|
    requires forall i | 0 <= i < n :: !died[i]
    ensures WithoutDead(smell, ms, died, n) == smell
  {
    if n > 0 {
      NoneDead(smell, ms, died, n - 1);
    }
  }

  /**
   * The loop of `getAllMoveActions`: each move action put into a map under its own
   * direction, a later one replacing an earlier one of the same direction.
   */
  method KeyByDirection(actions: seq<MoveAction>) returns (r: map<Direction, MoveAction>)
    ensures forall k | 0 <= k < |actions| :: actions[k].direction in r
    ensures forall d | d in r :: r[d] in actions && r[d].direction == d
  {
    r := map[];
    for i := 0 to |actions|
      invariant forall k | 0 <= k < i :: actions[k].direction in r
      invariant forall d | d in r :: r[d] in actions[..i] && r[d].direction == d
    {
      r := r[actions[i].direction := actions[i]];
    }
    assert actions[..|actions|] == actions;
  }

  /** What the game needs to know of a monster between events: its health and whether it still listens. */
  datatype MonsterState = MonsterState(health: int, listening: bool)

  /**
   * An arrow's hit at `hitAt` as the monster standing at `at` takes it: only a listening
   * monster hears it, and only one standing there is hurt; with no health left it stops listening.
   */
  function Hit(s: MonsterState, at: Coord, hitAt: Coord): MonsterState
  {
    if s.listening && at == hitAt then
      var h := ChangeHealth(s.health, -ArrowDamage).value;
      MonsterState(h, h > 0)
    else s
  }

  /** Whether that hit kills the monster. */
  predicate HitKills(s: MonsterState, at: Coord, hitAt: Coord)
  {
    s.listening && !Hit(s, at, hitAt).listening
  }

  /** A monster at full health dies of the second arrow that hits it, not of the first. */
  lemma SecondArrowKills(at: Coord)
    ensures Hit(MonsterState(MonsterHealth, true), at, at) == MonsterState(MonsterHealth - ArrowDamage, true)
    ensures HitKills(Hit(MonsterState(MonsterHealth, true), at, at), at, at)
    ensures Hit(Hit(MonsterState(MonsterHealth, true), at, at), at, at) == MonsterState(0, false)
  {
    TwoHitsKill(MonsterHealth);
  }

  /** A hit hurts the monster standing where the arrow stops, and no other; it never heals. */
  lemma HitOnlyThere(s: MonsterState, at: Coord, hitAt: Coord)
    ensures at != hitAt ==> Hit(s, at, hitAt) == s
    ensures Hit(s, at, hitAt).health <= s.health || s.health < 0
    ensures HitKills(s, at, hitAt) <==> s.listening && at == hitAt && s.health <= ArrowDamage
  {
  }

  /** The hit as every monster takes it, the first `n` of them so far. */
  function HitAll(states: seq<MonsterState>, ms: seq<Otyughs>, hitAt: Coord, n: nat): (r: seq<MonsterState>)
    requires |states| == |ms| && n <= |ms|
    ensures |r| == |states|
  {
    seq(|states|, k requires 0 <= k < |states| => if k < n then Hit(states[k], ms[k].location, hitAt) else states[k])
  }

  lemma HitAllNone(states: seq<MonsterState>, ms: seq<Otyughs>, hitAt: Coord)
    requires |states| == |ms|
    ensures HitAll(states, ms, hitAt, 0) == states
  {
  }

  lemma HitAllStep(states: seq<MonsterState>, ms: seq<Otyughs>, hitAt: Coord, n: nat)
    requires |states| == |ms| && n < |ms|
    ensures HitAll(states, ms, hitAt, n)[n] == states[n]
    ensures HitDeaths(states, ms, hitAt)[n] == HitKills(states[n], ms[n].location, hitAt)
    ensures HitAll(states, ms, hitAt, n + 1) == HitAll(states, ms, hitAt, n)[n := Hit(states[n], ms[n].location, hitAt)]
  {
  }

  /** Which monsters that hit kills. */
  function HitDeaths(states: seq<MonsterState>, ms: seq<Otyughs>, hitAt: Coord): (r: seq<bool>)
    requires |states| == |ms|
    ensures |r| == |ms|
  {
    seq(|ms|, k requires 0 <= k < |ms| => HitKills(states[k], ms[k].location, hitAt))
  }

  /**
   * A player's entering `playerAt` as the monster standing at `at` takes it: a listening
   * monster there battles; the player dies (Some(true)) when the monster is above half
   * health or the draw is even, and otherwise the monster dies (Some(false)).
   */
  function Enter(s: MonsterState, at: Coord, playerAt: Coord, draw: nat): (MonsterState, Option<bool>)
  {
    if s.listening && at == playerAt then
      if s.health > 50 || draw % 2 == 0 then (s, Some(true)) else (MonsterState(s.health, false), Some(false))
    else (s, None)
  }

  /** The entering as every monster takes it, the first `n` of them so far. */
  function EnterAll(states: seq<MonsterState>, ms: seq<Otyughs>, playerAt: Coord, draws: seq<nat>, n: nat): (r: seq<MonsterState>)
    requires |states| == |ms| && n <= |ms| && |draws| >= |ms|
    ensures |r| == |states|
  {
    seq(|states|, k requires 0 <= k < |states| => if k < n then Enter(states[k], ms[k].location, playerAt, draws[k]).0 else states[k])
  }

  /** The battles' results, the first `n` of them. */
  function Battles(states: seq<MonsterState>, ms: seq<Otyughs>, playerAt: Coord, draws: seq<nat>, n: nat): (r: seq<Option<bool>>)
    requires |states| == |ms| && n <= |ms| && |draws| >= |ms|
    ensures |r| == n
  {
    seq(n, k requires 0 <= k < n => Enter(states[k], ms[k].location, playerAt, draws[k]).1)
  }

  lemma EnterAllStep(states: seq<MonsterState>, ms: seq<Otyughs>, playerAt: Coord, draws: seq<nat>, n: nat)
    requires |states| == |ms| && n < |ms| && |draws| >= |ms|
    ensures EnterAll(states, ms, playerAt, draws, n + 1)
            == EnterAll(states, ms, playerAt, draws, n)[n := Enter(states[n], ms[n].location, playerAt, draws[n]).0]
    ensures Battles(states, ms, playerAt, draws, n + 1)
            == Battles(states, ms, playerAt, draws, n) + [Enter(states[n], ms[n].location, playerAt, draws[n]).1]
  {
  }

  /** Which monsters died in those battles. */
  function BattleDeaths(outcome: seq<Option<bool>>): (r: seq<bool>)
    ensures |r| == |outcome|
  {
    seq(|outcome|, k requires 0 <= k < |outcome| => outcome[k] == Some(false))
  }

  /**
   * The player dies on entering a cell exactly when some listening monster stands there
   * and either is above half health or draws even.
   */
  lemma PlayerDiesOnEntering(states: seq<MonsterState>, ms: seq<Otyughs>, playerAt: Coord, draws: seq<nat>)
    requires |states| == |ms| && |draws| >= |ms|
    ensures Kills(Battles(states, ms, playerAt, draws, |ms|)) > 0 <==>
              exists k | 0 <= k < |ms| ::
                states[k].listening && ms[k].location == playerAt && (states[k].health > 50 || draws[k] % 2 == 0)
  {
    var outcome := Battles(states, ms, playerAt, draws, |ms|);
    KillsPositive(outcome);
    assert forall k | 0 <= k < |ms| ::
             outcome[k] == Some(true) <==>
               states[k].listening && ms[k].location == playerAt && (states[k].health > 50 || draws[k] % 2 == 0);
  }

  /** Nobody stands in the entered cell: nothing happens. */
  lemma EmptyCellNoBattle(states: seq<MonsterState>, ms: seq<Otyughs>, playerAt: Coord, draws: seq<nat>)
    requires |states| == |ms| && |draws| >= |ms|
    requires forall k | 0 <= k < |ms| :: ms[k].location != playerAt
    ensures EnterAll(states, ms, playerAt, draws, |ms|) == states
    ensures Kills(Battles(states, ms, playerAt, draws, |ms|)) == 0
  {
    var outcome := Battles(states, ms, playerAt, draws, |ms|);
    KillsPositive(outcome);
  }

  /**
   * The constructor taking a player name, with its refusal: a blank name makes the
   * PlayerBuilder refuse it with "Name cannot be blank" and no game is made; any other
   * name, or none, gives a game as the constructor makes it.
   */
  method NewDungeonGame(world: map<Coord, MazeLocation>, start: Coord, end: Coord, monsters: seq<Otyughs>,
                        name: Option<string>, draw: int) returns (r: Result<DungeonGame>)
    requires Placed(world) && start in world && end in world && 1000 <= draw < 5000
    requires forall i | 0 <= i < |monsters| ::
               monsters[i].world == world && monsters[i].location in world && monsters[i].smellField.Keys <= world.Keys
    requires forall i, j | 0 <= i < j < |monsters| :: monsters[i] != monsters[j]
    ensures r.Failure? <==> name.Some? && IsBlank(name.value)
    ensures r.Failure? ==> r.error == "Name cannot be blank"
    ensures r.Success? ==> fresh(r.value) && r.value.Valid() && !r.value.gameOver
    ensures r.Success? ==> r.value.world == world && r.value.startLoc == start && r.value.endLoc == end
    ensures r.Success? ==> r.value.player.location.loc == start && r.value.player.name == (if name.Some? then name.value else DefaultName(draw))
  {
    if name.Some? && IsBlank(name.value) {
      r := Failure("Name cannot be blank");
    } else {
      var game := new DungeonGame(world, start, end, monsters, name, draw);
      r := Success(game);
    }
  }

  class DungeonGame {
    const player: Player
    const world: map<Coord, MazeLocation>
    const startLoc: Coord
    const endLoc: Coord
    /** The monsters of the world, in the order the event bus reaches them. */
    const monsters: seq<Otyughs>
    var gameOver: bool

    /** The monsters as a set, for frames. */
    function MonsterSet(): set<Otyughs>
    {
      set m | m in monsters
    }

    /**
     * Each cell of the world sits at its own position, each monster stands in this world and is listed
     * once, and the end cell belongs to the world.
     */
    ghost predicate Valid()
    {
      && Placed(world) && endLoc in world
      && (forall i | 0 <= i < |monsters| ::
            monsters[i].world == world && monsters[i].location in world && monsters[i].smellField.Keys <= world.Keys)
      && (forall i, j | 0 <= i < j < |monsters| :: monsters[i] != monsters[j])
    }

    /** The state of each monster, in order. */
    ghost function States(): (r: seq<MonsterState>)
      reads MonsterSet()
      ensures |r| == |monsters|
    {
      seq(|monsters|, k requires 0 <= k < |monsters| reads MonsterSet() => MonsterState(monsters[k].health, monsters[k].registered))
    }

    /**
     * The constructors: the world is given already built, and the player is created by a
     * PlayerBuilder on the start cell, with the given name or else a drawn default name,
     * holding three arrows. The game is not over.
     */
    constructor (world: map<Coord, MazeLocation>, start: Coord, end: Coord, monsters: seq<Otyughs>,
                 name: Option<string>, draw: int)
      requires Placed(world) && start in world && end in world && 1000 <= draw < 5000
      requires forall i | 0 <= i < |monsters| ::
                 monsters[i].world == world && monsters[i].location in world && monsters[i].smellField.Keys <= world.Keys
      requires forall i, j | 0 <= i < j < |monsters| :: monsters[i] != monsters[j]
      requires name.Some? ==> !IsBlank(name.value)
      ensures Valid()
      ensures this.world == world && startLoc == start && endLoc == end && this.monsters == monsters
      ensures fresh(player) && player.location.loc == start && player.location.moves == world[start].moves
      ensures fresh(player.location) && player.location.items == world[start].items
      ensures player.location.pickups == world[start].pickups && player.location.pickMap == world[start].pickMap
      ensures player.location.smell == 0 && player.location.resetCopy == []
      ensures world[start].Valid() ==> player.location.Valid()
      ensures player.health == 1 && player.possessed == [] && |player.quiver| == DefaultNumberOfArrows
      ensures name.Some? ==> player.name == name.value
      ensures name.None? ==> player.name == DefaultName(draw)
      ensures !player.registered
      ensures !gameOver
    {
      var builder := new PlayerBuilder(world[start]);
      if name.Some? {
        var _ := builder.SetName(name.value);
      }
      var p := builder.CreatePlayer(draw);
      player := p;
      this.world := world;
      startLoc := start;
      endLoc := end;
      this.monsters := monsters;
      gameOver := false;
    }

    /**
     * `getAllMoveActions`: the move actions of the player's cell, keyed by direction; as
     * many as the cell has move actions.
     */
    method GetAllMoveActions(order: seq<Direction>) returns (r: map<Direction, MoveAction>)
      requires IsOrder(order)
      ensures r.Keys == player.location.moves.Keys
      ensures |r| == |player.location.moves|
      ensures forall d | d in r :: r[d] == MoveAction(player.location.moves[d], d)
    {
      r := KeyByDirection(player.location.MoveActions(order));
    }

    /** `getAllPickActions`: a pick action of the player's cell for each item type lying there. */
    method GetAllPickActions() returns (r: map<ItemType, PickItemAction>)
      ensures r.Keys == set it | it in player.location.pickMap :: TypeOf(it)
      ensures forall t | t in r :: exists it | it in player.location.pickMap :: TypeOf(it) == t && r[t] == player.location.pickMap[it]
    {
      r := player.location.PickActionsByType();
    }

    /** `getAllPlayerAction`: shooting an arrow, with a new builder for the shot. */
    method GetAllPlayerAction() returns (r: map<PlayerActionType, ShootArrowActionBuilder>)
      ensures r.Keys == {ShootArrow}
      ensures fresh(r[ShootArrow]) && r[ShootArrow].arrow == null && r[ShootArrow].distance == 0
    {
      var b := new ShootArrowActionBuilder();
      r := map[ShootArrow := b];
    }

    /** `playerDeathEventListener`: the game is over and the player loses one health, down to no less than zero. */
    method PlayerDeathEventListener()
      modifies this, player
      ensures gameOver
      ensures player.health == AfterDeaths(old(player.health), 1)
      ensures player.location == old(player.location) && player.possessed == old(player.possessed)
      ensures player.quiver == old(player.quiver)
    {
      gameOver := true;
      player.health := ChangeHealth(player.health, -1).value;
    }

    /** An arrow's hit at `hitAt` reaching monster `i`, if it still listens. */
    method HitOne(i: nat, hitAt: Coord)
      requires Valid() && i < |monsters|
      modifies monsters[i], Cells(world)
      ensures OnlySmellChanged(world)
      ensures States() == old(States())[i := Hit(old(States())[i], monsters[i].location, hitAt)]
      ensures SmellMap(world) ==
                if HitKills(old(States())[i], monsters[i].location, hitAt)
                then WithoutSmell(old(SmellMap(world)), monsters[i].smellField)
                else old(SmellMap(world))
    {
      var m := monsters[i];
      if m.registered {
        var _ := m.TakeHit(hitAt);
      }
    }

    /**
     * An arrow's hit at `hitAt` reaches every monster still listening, in turn: the one
     * standing there loses 50 health and, left with none, dies and takes its smell back.
     */
    method DeliverHit(hitAt: Coord)
      requires Valid()
      modifies Cells(world), MonsterSet()
      ensures OnlySmellChanged(world)
      ensures States() == HitAll(old(States()), monsters, hitAt, |monsters|)
      ensures SmellMap(world) == WithoutDead(old(SmellMap(world)), monsters, HitDeaths(old(States()), monsters, hitAt), |monsters|)
    {
      ghost var before, smell := States(), SmellMap(world);
      HitAllNone(before, monsters, hitAt);
      var i := 0;
      while i < |monsters|
        invariant OnlySmellChanged(world) && HitSoFar(hitAt, before, smell, i)
      {
        HitNext(i, hitAt, before, smell);
        i := i + 1;
      }
    }

    /**
     * `DeliverHit`'s progress: the first `n` monsters have had the hit, from states `before`,
     * and the dead among them have taken their smell back from counters `smell`.
     */
    ghost predicate HitSoFar(hitAt: Coord, before: seq<MonsterState>, smell: map<Coord, int>, n: nat)
      reads MonsterSet(), Cells(world)
    {
      && n <= |monsters| && |before| == |monsters|
      && States() == HitAll(before, monsters, hitAt, n)
      && SmellMap(world) == WithoutDead(smell, monsters, HitDeaths(before, monsters, hitAt), n)
    }

    /** One turn of `DeliverHit`'s loop: monster `i` has the arrow's hit. */
    method HitNext(i: nat, hitAt: Coord, ghost before: seq<MonsterState>, ghost smell: map<Coord, int>)
      requires Valid() && i < |monsters| && HitSoFar(hitAt, before, smell, i)
      modifies monsters[i], Cells(world)
      ensures OnlySmellChanged(world) && HitSoFar(hitAt, before, smell, i + 1)
    {
      HitAllStep(before, monsters, hitAt, i);
      HitOne(i, hitAt);
    }

    /** A player's entering `at` reaching monster `i`, if it still listens; `o` is the battle's result. */
    method EnterOne(i: nat, at: Coord, draw: nat) returns (o: Option<bool>)
      requires Valid() && i < |monsters|
      modifies monsters[i], Cells(world)
      ensures OnlySmellChanged(world)
      ensures o == Enter(old(States())[i], monsters[i].location, at, draw).1
      ensures States() == old(States())[i := Enter(old(States())[i], monsters[i].location, at, draw).0]
      ensures SmellMap(world) ==
                if o == Some(false) then WithoutSmell(old(SmellMap(world)), monsters[i].smellField) else old(SmellMap(world))
    {
      var m := monsters[i];
      o := None;
      if m.registered {
        o := m.PlayerEntered(at, draw % 2);
      }
    }

    /**
     * A player's entering cell `at` reaches every monster still listening, in turn; each
     * one standing there battles the player with its draw. `outcome[i]` is the battle's
     * result for monster `i`.
     */
    method DeliverEnter(at: Coord, draws: seq<nat>) returns (outcome: seq<Option<bool>>)
      requires Valid() && |draws| >= |monsters|
      modifies Cells(world), MonsterSet()
      ensures OnlySmellChanged(world)
      ensures outcome == Battles(old(States()), monsters, at, draws, |monsters|)
      ensures States() == EnterAll(old(States()), monsters, at, draws, |monsters|)
      ensures SmellMap(world) == WithoutDead(old(SmellMap(world)), monsters, BattleDeaths(outcome), |monsters|)
    {
      ghost var before, smell := States(), SmellMap(world);
      ghost var died := BattleDeaths(Battles(before, monsters, at, draws, |monsters|));
      outcome := [];
      for i := 0 to |monsters|
        invariant OnlySmellChanged(world)
        invariant outcome == Battles(before, monsters, at, draws, i)
        invariant States() == EnterAll(before, monsters, at, draws, i)
        invariant SmellMap(world) == WithoutDead(smell, monsters, died, i)
      {
        outcome := EnterNext(i, at, draws, before, smell, died, outcome);
      }
    }

    /** One turn of `DeliverEnter`'s loop: monster `i` has the entering event. */
    method EnterNext(i: nat, at: Coord, draws: seq<nat>, ghost before: seq<MonsterState>,
                     ghost smell: map<Coord, int>, ghost died: seq<bool>, outcome0: seq<Option<bool>>)
      returns (outcome: seq<Option<bool>>)
      requires Valid() && i < |monsters| && |draws| >= |monsters| && |before| == |monsters|
      requires died == BattleDeaths(Battles(before, monsters, at, draws, |monsters|))
      requires outcome0 == Battles(before, monsters, at, draws, i)
      requires States() == EnterAll(before, monsters, at, draws, i)
      requires SmellMap(world) == WithoutDead(smell, monsters, died, i)
      modifies monsters[i], Cells(world)
      ensures OnlySmellChanged(world)
      ensures outcome == Battles(before, monsters, at, draws, i + 1)
      ensures States() == EnterAll(before, monsters, at, draws, i + 1)
      ensures SmellMap(world) == WithoutDead(smell, monsters, died, i + 1)
    {
      EnterAllStep(before, monsters, at, draws, i);
      var o := EnterOne(i, at, draws[i]);
      outcome := outcome0 + [o];
    }

    /**
     * The player's deaths in those battles are events of their own, handled once every
     * monster has had the entering event: each one ends the game and lowers the player's
     * health by one.
     */
    method DeliverDeaths(kills: nat)
      modifies this, player
      ensures gameOver == (old(gameOver) || kills > 0)
      ensures player.health == AfterDeaths(old(player.health), kills)
      ensures player.location == old(player.location) && player.possessed == old(player.possessed)
      ensures player.quiver == old(player.quiver)
    {
      for j := 0 to kills
        invariant gameOver == (old(gameOver) || j > 0)
        invariant player.health == AfterDeaths(old(player.health), j)
        invariant player.location == old(player.location) && player.possessed == old(player.possessed)
        invariant player.quiver == old(player.quiver)
      {
        AfterOneMoreDeath(old(player.health), j);
        PlayerDeathEventListener();
      }
    }

    /**
     * A move action carried out for the player: the player steps into the destination
     * cell, the monsters there battle it, as `DeliverEnter` says, and then the player's
     * deaths are handled, as `DeliverDeaths` says.
     */
    method MovePlayer(m: MoveAction, draws: seq<nat>) returns (r: bool, outcome: seq<Option<bool>>)
      requires Valid() && |draws| >= |monsters| && m.whereTo in world
      modifies this, player, Cells(world), MonsterSet()
      ensures r && player.location == world[m.whereTo]
      ensures OnlySmellChanged(world)
      ensures player.possessed == old(player.possessed) && player.quiver == old(player.quiver)
      ensures outcome == Battles(old(States()), monsters, m.whereTo, draws, |monsters|)
      ensures States() == EnterAll(old(States()), monsters, m.whereTo, draws, |monsters|)
      ensures SmellMap(world) == WithoutDead(old(SmellMap(world)), monsters, BattleDeaths(outcome), |monsters|)
      ensures gameOver == (old(gameOver) || Kills(outcome) > 0)
      ensures player.health == AfterDeaths(old(player.health), Kills(outcome))
    {
      ghost var states, smell := States(), SmellMap(world);
      r := MoveActOn(m, PlayerCharacter(player), world);
      assert States() == states && SmellMap(world) == smell;
      outcome := DeliverEnter(player.location.loc, draws);
      ghost var states1, smell1 := States(), SmellMap(world);
      DeliverDeaths(Kills(outcome));
      assert States() == states1 && SmellMap(world) == smell1;
    }

    /** A pick action carried out for the player: the item leaves its cell and goes to the player. */
    method PickForPlayer(a: PickItemAction) returns (r: bool)
      requires a.location.Valid()
      modifies player, a.location
      modifies if a.item.ArrowItem? then {a.item.arrow} else {}
      ensures r == (a.item in old(a.location.items))
      ensures a.location.smell == old(a.location.smell) && a.location.moves == old(a.location.moves)
      ensures SmellMap(world) == old(SmellMap(world)) && States() == old(States())
      ensures unchanged(Cells(world) - {a.location})
      ensures a.location.items == Lists.RemoveFirst(old(a.location.items), a.item)
      ensures r ==> multiset(player.AllItems()) == multiset(old(player.AllItems())) + multiset{a.item}
      ensures !r ==> player.possessed == old(player.possessed) && player.quiver == old(player.quiver)
      ensures player.location == old(player.location) && player.health == old(player.health)
    {
      var picked := PickActOn(a, PlayerCharacter(player));
      r := picked.value;
    }

    /** The player's shot itself, over the game's graph; the monsters and the smells are untouched. */
    method Fire(s: ShootArrowAction, order: seq<Direction>) returns (shot: Result<Option<bool>>, hitAt: Option<Coord>)
      requires Valid()
      modifies s, player
      modifies if player.quiver != [] then {player.quiver[0]} else {}
      ensures States() == old(States()) && SmellMap(world) == old(SmellMap(world))
      ensures player.location == old(player.location) && player.health == old(player.health)
      ensures player.possessed == old(player.possessed)
      ensures old(player.quiver) == [] ==> shot == Failure("Player has no more arrows.") && player.quiver == []
      ensures old(player.quiver) != [] ==>
                && shot == Success(None) && player.quiver == old(player.quiver)[1..]
                && s.arrow == old(player.quiver[0]) && s.arrow.location.Some? && hitAt == Some(s.arrow.location.value)
    {
      var g := GraphOf(world);
      shot, hitAt := s.ActOn(PlayerCharacter(player), g, order);
    }

    /**
     * A shot carried out for the player: the first arrow of the quiver flies, and its hit
     * reaches the monsters as `DeliverHit` says; with an empty quiver the shot fails and
     * nothing else happens.
     */
    method ShootForPlayer(s: ShootArrowAction, order: seq<Direction>) returns (r: Result<Option<bool>>)
      requires Valid()
      modifies s, player, Cells(world), MonsterSet()
      modifies if player.quiver != [] then {player.quiver[0]} else {}
      ensures player.location == old(player.location) && player.health == old(player.health)
      ensures player.possessed == old(player.possessed)
      ensures old(player.quiver) == [] ==> r == Failure("Player has no more arrows.") && player.quiver == []
      ensures old(player.quiver) == [] ==> unchanged(Cells(world)) && unchanged(MonsterSet())
      ensures OnlySmellChanged(world)
      ensures old(player.quiver) == [] ==> SmellMap(world) == old(SmellMap(world)) && States() == old(States())
      ensures old(player.quiver) != [] ==> r == Success(None) && player.quiver == old(player.quiver)[1..]
      ensures old(player.quiver) != [] ==> s.arrow == old(player.quiver[0]) && s.arrow.location.Some?
      ensures old(player.quiver) != [] ==>
                && States() == HitAll(old(States()), monsters, s.arrow.location.value, |monsters|)
                && SmellMap(world) == WithoutDead(old(SmellMap(world)), monsters,
                                                  HitDeaths(old(States()), monsters, s.arrow.location.value), |monsters|)
    {
      var shot, hitAt := Fire(s, order);
      if shot.Failure? {
        return Failure(shot.error);
      }
      var at := hitAt.value;
      DeliverHit(at);
      assert s.arrow.location.value == at;
      r := Success(None);
    }

    /**
     * `interact`: refused once the game is over, changing nothing. Otherwise the action
     * is carried out for the player, as `MovePlayer`, `PickForPlayer` and `ShootForPlayer`
     * say, and when it was carried out the game is over once the player stands on the
     * end cell. A shot with an empty quiver fails and the game goes on as it was.
     * `outcome` holds the battles a move led to.
     */
    method Interact(action: GameAction, order: seq<Direction>, draws: seq<nat>) returns (r: Result<Option<bool>>, outcome: seq<Option<bool>>)
      requires Valid() && |draws| >= |monsters|
      requires action.MoveAct? ==> action.move.whereTo in world
      requires action.PickAct? ==> action.pick.location.Valid()
      modifies this, player, Cells(world), MonsterSet()
      modifies if action.PickAct? then {action.pick.location} else {}
      modifies if action.PickAct? && action.pick.item.ArrowItem? then {action.pick.item.arrow} else {}
      modifies if action.ShootAct? then {action.shot} else {}
      modifies if action.ShootAct? && player.quiver != [] then {player.quiver[0]} else {}
      ensures old(gameOver) ==> r == Failure("Cannot play game. Gave is over") && gameOver && outcome == []
      ensures old(gameOver) ==> player.location == old(player.location) && player.health == old(player.health)
      ensures old(gameOver) ==> player.possessed == old(player.possessed) && player.quiver == old(player.quiver)
      ensures old(gameOver) ==> SmellMap(world) == old(SmellMap(world)) && States() == old(States())
      ensures old(gameOver) ==> unchanged(Cells(world)) && unchanged(MonsterSet())
      ensures old(gameOver) && action.PickAct? ==> unchanged(action.pick.location)
      ensures !old(gameOver) && (action.MoveAct? || action.ShootAct?) ==> OnlySmellChanged(world)
      ensures !old(gameOver) && r.Failure? ==>
                action.ShootAct? && old(player.quiver) == [] && r == Failure("Player has no more arrows.") && !gameOver
      ensures !old(gameOver) && action.MoveAct? ==>
                && r == Success(Some(true)) && player.location == world[action.move.whereTo]
                && outcome == Battles(old(States()), monsters, action.move.whereTo, draws, |monsters|)
                && States() == EnterAll(old(States()), monsters, action.move.whereTo, draws, |monsters|)
                && gameOver == (action.move.whereTo == endLoc || Kills(outcome) > 0)
                && player.health == AfterDeaths(old(player.health), Kills(outcome))
                && player.possessed == old(player.possessed) && player.quiver == old(player.quiver)
                && SmellMap(world) == WithoutDead(old(SmellMap(world)), monsters, BattleDeaths(outcome), |monsters|)
      ensures !old(gameOver) && !action.MoveAct? ==>
                && outcome == [] && player.location == old(player.location) && player.health == old(player.health)
                && (gameOver <==> r.Success? && player.location.loc == endLoc)
      ensures !old(gameOver) && action.PickAct? ==>
                && r == Success(Some(action.pick.item in old(action.pick.location.items)))
                && action.pick.location.items == Lists.RemoveFirst(old(action.pick.location.items), action.pick.item)
                && SmellMap(world) == old(SmellMap(world)) && States() == old(States())
                && unchanged(Cells(world) - {action.pick.location})
      ensures !old(gameOver) && action.PickAct? && action.pick.item in old(action.pick.location.items) ==>
                multiset(player.AllItems()) == multiset(old(player.AllItems())) + multiset{action.pick.item}
      ensures !old(gameOver) && action.ShootAct? && old(player.quiver) != [] ==>
                && r == Success(None) && player.quiver == old(player.quiver)[1..]
                && action.shot.arrow != null && action.shot.arrow.location.Some?
                && States() == HitAll(old(States()), monsters, action.shot.arrow.location.value, |monsters|)
                && SmellMap(world) == WithoutDead(old(SmellMap(world)), monsters,
                                                  HitDeaths(old(States()), monsters, action.shot.arrow.location.value), |monsters|)
      ensures !old(gameOver) && action.ShootAct? ==> player.possessed == old(player.possessed)
      ensures !old(gameOver) && action.ShootAct? && old(player.quiver) == [] ==>
                && player.quiver == [] && SmellMap(world) == old(SmellMap(world)) && States() == old(States())
                && unchanged(Cells(world)) && unchanged(MonsterSet())
    {
      outcome := [];
      if gameOver {
        return Failure("Cannot play game. Gave is over"), [];
      }
      match action {
        case MoveAct(m) =>
          var moved, battles := MovePlayer(m, draws);
          r, outcome := Success(Some(moved)), battles;
        case PickAct(a) =>
          var picked := PickForPlayer(a);
          r := Success(Some(picked));
        case ShootAct(s) =>
          r := ShootForPlayer(s, order);
      }
      EndIfArrived(r.Success?);
    }

    /** After an action that was carried out, the game is over once the player stands on the end cell. */
    method EndIfArrived(carriedOut: bool)
      modifies this
      ensures gameOver == (old(gameOver) || (carriedOut && player.location.loc == endLoc))
      ensures SmellMap(world) == old(SmellMap(world)) && States() == old(States())
    {
      if carriedOut && player.location.loc == endLoc {
        gameOver := true;
      }
    }

    /** `isGameOver`. */
    function IsGameOver(): bool
      reads this
    {
      gameOver
    }
  }
}
