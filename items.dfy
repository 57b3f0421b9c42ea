/**
 * The items a cell can hold and a player can carry: treasures, which are equal exactly
 * when their kind is, and arrows, which are distinct objects that move through the maze.
 */
module Items {
  import opened Wrappers
  import opened Grid

  /** The kinds of treasure. */
  datatype TreasureType = Diamond | Ruby | Sapphire

  /** The two kinds of item a cell can offer for picking. */
  datatype ItemType = TreasureItemType | ArrowItemType

  /** A treasure carries only its kind, so two treasures of one kind are equal. */
  datatype Treasure = Treasure(kind: TreasureType)

  /** An arrow and the cell it is at (unset until it is given to a player). */
  class Arrow {
    var location: Option<Coord>

    constructor()
      ensures location == None
    {
      location := None;
    }

    /** `setCurrentLocation`: a later `getCurrentLocation` returns the cell set here. */
    method SetCurrentLocation(c: Coord)
      modifies this
      ensures location == Some(c)
    {
      location := Some(c);
    }
  }

  /**
   * Anything a cell holds. Dafny's equality on this type is the source's `equals`:
   * treasures compare by kind and arrows by identity.
   */
  datatype Item = TreasureItem(treasure: Treasure) | ArrowItem(arrow: Arrow)

  /** `getItemType`: TREASURE for a treasure, ARROW for an arrow. */
  function TypeOf(item: Item): (r: ItemType)
    ensures r == TreasureItemType <==> item.TreasureItem?
    ensures r == ArrowItemType <==> item.ArrowItem?
  {
    match item
    case TreasureItem(_) => TreasureItemType
    case ArrowItem(_) => ArrowItemType
  }

  function TreasureName(t: TreasureType): (r: string)
    ensures |r| > 0
  {
    match t
    case Diamond => "DIAMOND"
    case Ruby => "RUBY"
    case Sapphire => "SAPPHIRE"
  }

  /** `getName`: the treasure kind's name, or "ARROW". */
  function NameOf(item: Item): (r: string)
    ensures item.ArrowItem? ==> r == "ARROW"
    ensures item.TreasureItem? ==> r == TreasureName(item.treasure.kind)
  {
    match item
    case TreasureItem(t) => TreasureName(t.kind)
    case ArrowItem(_) => "ARROW"
  }
}
