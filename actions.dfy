/**
 * What items and cell actions do to a character: treasures and arrows assign themselves
 * to players only, a pick action hands the picked item to the character, and a move
 * action moves it.
 */
module Actions {
  import opened Wrappers
  import opened Grid
  import opened Items
  import opened Location
  import opened Characters
  import opened Lists

  /** The two kinds of character an action can act on. */
  datatype Character = PlayerCharacter(player: Player) | MonsterCharacter(monster: Otyughs)

  /** The objects a hand-over to `ch` of `item` may change: the player and the arrow. */
  function Touched(ch: Character, item: Item): set<object>
  {
    (if ch.PlayerCharacter? then {ch.player} else {}) + (if item.ArrowItem? then {item.arrow} else {})
  }

  /**
   * `assignToCharacter` of Treasure and Arrow: only a player can receive an item; a
   * treasure joins its possessions and an arrow its quiver, placed at the player's cell.
   */
  method AssignToCharacter(item: Item, ch: Character) returns (r: Result<bool>)
    modifies Touched(ch, item)
    ensures ch.MonsterCharacter? && item.TreasureItem? ==> r == Failure("Treasure can only be assigned to Player")
    ensures ch.MonsterCharacter? && item.ArrowItem? ==> r == Failure("Arrow can only be assigned to players")
    ensures ch.MonsterCharacter? && item.ArrowItem? ==> item.arrow.location == old(item.arrow.location)
    ensures ch.PlayerCharacter? ==> r == Success(true)
    ensures ch.PlayerCharacter? ==> multiset(ch.player.AllItems()) == multiset(old(ch.player.AllItems())) + multiset{item}
    ensures ch.PlayerCharacter? && item.ArrowItem? ==> item.arrow.location == Some(ch.player.location.loc)
    ensures ch.PlayerCharacter? ==> ch.player.location == old(ch.player.location) && ch.player.health == old(ch.player.health)
  {
    match ch
    case MonsterCharacter(_) =>
      r := if item.TreasureItem? then Failure("Treasure can only be assigned to Player")
           else Failure("Arrow can only be assigned to players");
    case PlayerCharacter(p) =>
      var before := p.AllItems();
      var rest := before[|p.possessed|..];
      assert before == p.possessed + rest;
      if item.TreasureItem? {
        var ok := p.AssignTreasure(item.treasure);
        assert p.AllItems() == old(p.possessed) + [item] + rest;
      } else {
        var ok := p.AssignArrow(item.arrow);
        assert p.AllItems() == before + [item];
      }
      r := Success(true);
  }

  /** `takeItem`: a player takes the item as above; a monster has no such method. */
  method TakeItem(ch: Character, item: Item) returns (r: Result<bool>)
    modifies Touched(ch, item)
    ensures ch.MonsterCharacter? ==> r == Failure("NoSuchMethodException")
    ensures ch.MonsterCharacter? && item.ArrowItem? ==> item.arrow.location == old(item.arrow.location)
    ensures ch.PlayerCharacter? ==> r == Success(true)
    ensures ch.PlayerCharacter? ==> multiset(ch.player.AllItems()) == multiset(old(ch.player.AllItems())) + multiset{item}
    ensures ch.PlayerCharacter? && item.ArrowItem? ==> item.arrow.location == Some(ch.player.location.loc)
    ensures ch.PlayerCharacter? ==> ch.player.location == old(ch.player.location) && ch.player.health == old(ch.player.health)
  {
    if ch.MonsterCharacter? {
      r := Failure("NoSuchMethodException");
    } else {
      r := AssignToCharacter(item, ch);
    }
  }

  /**
   * `actOn` of PickItemAction: the item is taken from its cell first; if it was not
   * there the answer is false, otherwise the character takes it. A monster cannot take
   * it, and the item is then gone from the cell all the same.
   */
  method PickActOn(a: PickItemAction, ch: Character) returns (r: Result<bool>)
    requires a.location.Valid()
    modifies a.location, Touched(ch, a.item)
    ensures a.location.Valid()
    ensures a.location.items == RemoveFirst(old(a.location.items), a.item)
    ensures a.location.pickMap == old(a.location.pickMap) - {a.item}
    ensures a.location.moves == old(a.location.moves) && a.location.smell == old(a.location.smell)
    ensures a.item !in old(a.location.items) ==> r == Success(false)
    ensures a.item in old(a.location.items) && ch.MonsterCharacter? ==> r == Failure("NoSuchMethodException")
    ensures a.item in old(a.location.items) && ch.PlayerCharacter? ==>
              r == Success(true) && multiset(ch.player.AllItems()) == multiset(old(ch.player.AllItems())) + multiset{a.item}
    ensures ch.PlayerCharacter? ==> ch.player.location == old(ch.player.location) && ch.player.health == old(ch.player.health)
    ensures a.item !in old(a.location.items) && ch.PlayerCharacter? ==>
              ch.player.possessed == old(ch.player.possessed) && ch.player.quiver == old(ch.player.quiver)
  {
    var picked := a.Act();
    if picked.None? {
      r := Success(false);
    } else {
      r := TakeItem(ch, picked.value);
    }
  }

  /** `actOn` of MoveAction: the character is asked to move to the action's destination. */
  method MoveActOn(m: MoveAction, ch: Character, world: map<Coord, MazeLocation>) returns (r: bool)
    requires m.whereTo in world
    modifies if ch.PlayerCharacter? then {ch.player} else {}
    ensures ch.PlayerCharacter? ==> r && ch.player.location == world[m.whereTo]
    ensures ch.PlayerCharacter? ==> ch.player.possessed == old(ch.player.possessed) && ch.player.quiver == old(ch.player.quiver)
    ensures ch.PlayerCharacter? ==> ch.player.health == old(ch.player.health)
    ensures ch.MonsterCharacter? ==> !r
  {
    match ch
    case PlayerCharacter(p) =>
      r := p.MakeMove(world[m.whereTo]);
    case MonsterCharacter(o) =>
      r := o.MakeMove(world[m.whereTo]);
  }
}
