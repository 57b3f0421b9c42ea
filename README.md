# DungeonMaster core, modelled in Dafny

DungeonMaster is a text and Swing game in the Hunt-the-Wumpus family. A random
maze of cells is laid out on a grid that may wrap round its edges. A cell with
exactly two move actions is a *tunnel*; every other cell is a *cave*. The
player starts in one cave and has to reach another. Caves may hold treasure,
arrows fly through tunnels round corners, and smelly monsters (Otyughs) kill a
player who walks in on them unless they are badly hurt.

This project models the engine of the game:

- **Grid and move graph** (`grid.dfy`, `graph.dfy`). A cell is a coordinate.
  The moves of every cell form one value, `Graph = map<Coord, map<Direction, Coord>>`,
  with at most one move per direction, because the move set is a HashSet whose
  actions are equal by direction. The wrap-aware direction rule of
  `IMazeLocationBuilder` is proved against an independent grid step `Grid.Step`.
- **Cells, items and pick actions** (`location.dfy`, `items.dfy`, `actions.dfy`, `lists.dfy`).
  `MazeLocation` is a class: items, pick actions, the item-to-pick-action map,
  moves, smell counter, and the copy kept for `restart`. `PickItemAction` and
  `Arrow` are classes, since their identity matters. `Treasure` is a datatype,
  equal by kind as in the source. `MoveAction` is the datatype `MoveAction(whereTo, direction)`.
- **Random maze builder** (`maze_builder.dfy`, `candidates.dfy`, `partition.dfy`, `kruskal.dfy`).
  The builder lists the candidate pairs of neighbouring cells. It joins them in
  shuffled order as Kruskal's algorithm does, over a list of cell groups, and
  merges the smaller group into the larger. It then adds up to `degree`
  discarded pairs as extra edges, chooses far-apart start and end caves, and
  puts treasure in a share of the caves. `BuildMaze` is proved to end with one
  group holding the whole grid and a spanning tree of `rows * cols - 1` edges.
  Every two cells are joined by a walk, and every move leads to the grid
  neighbour in its direction. The final graph is exactly the tree pairs and
  then the drawn extra pairs joined in order (`Kruskal.ConnectAll`).
- **Distances** (`bfs.dfy`, `maze_builder.dfy`). `distanceToAllNodes` is the
  breadth-first search of `IMazeLocationBuilder`, whose queue may hold
  duplicates. It is proved to return exactly the reachable cells, each at its
  shortest distance. The builder's own `distanceBetweenNodes` overwrites
  distances as it goes. It is proved to return the length of some walk, and
  `Integer.MIN_VALUE` exactly when no walk exists.
- **Arrow flight** (`flight.dfy`, `flight_examples.dfy`). One step of
  `nextPossibleMove` is a function. `act`'s loop is a function that terminates
  because every move enters an unvisited cell. The two flight tests of the
  repository are worked through as lemmas.
- **Characters** (`characters.dfy`). The model covers the health rule of
  `AbstractCharacter`, `Player`, `PlayerBuilder` and `Otyughs`, including the
  monster's smell field. Smell is strong one move away and weak two moves away.
  Publishing the smell and taking it back are proved to be inverse updates of
  the world's smell counters.
- **Game** (`game.dfy`). `DungeonGame.interact` carries out a move, a pick or a
  shot for the player. The events the source posts on its event bus are
  delivered by direct calls: the arrow hit reaches every listening monster; the
  player's entering reaches every monster, which may battle; each player death
  ends the game and costs one health.
- **Command line parser** (`parser.dfy`, `text.dfy`). The model covers
  `CommandLineParser` over a model of `toLowerCase`, `trim`, `split(" ")` and
  `Integer.parseInt`. Every interaction is proved to read back from its typed
  words.
- **Click to direction** (`panel.dfy`). This is `MazeGridPanel.getDirection`,
  the one piece of the Swing view with logic worth modelling.

Randomness becomes input. The shuffle is a permutation given as an argument,
and each `nextInt` is a draw from a sequence of draws (reduced modulo its bound
where the source passes a bound). The iteration order of a cell's HashSet of
move actions is a parameter `order`, any permutation of the four directions.

The model keeps these behaviours of the code as written:

- `addTreasure` draws caves with replacement and keeps adding treasure until
  the required number of caves holds at least one item, so a cave may get
  several treasures.
- `getStartingEndPoint` checks the distance `distanceBetweenNodes` returns.
  That is the length of some walk, not always of the shortest one, so
  `FarApartCaves` states a walk of at least five moves.
- `RandomMazeBuilder.getDirectionsForLocation` never fails: every pair that is
  not a row pair becomes an east/west pair. Only the `IMazeLocationBuilder`
  rule (`Grid.DirectionsForLocation`) refuses pairs.
- With no cave, the start cannot be drawn: `nextInt(0)` throws "bound must be
  positive" before the "No caves found" check is reached.
- `RandomMazeBuilder.buildWorld` builds the maze, chooses start and end, and
  adds treasure. It places no arrows and no monsters.

## Model

| member | source | states |
|---|---|---|
| Grid.DirectionsForLocation | src/main/java/pdp/aniachar/dungeonmaster/gameworld/IMazeLocationBuilder.java:47-69 | Equal coordinates are refused with "Cannot make same locations adjacent". South is returned only when the right cell is the next row (mod rows) and North only when the left cell is; East and West only by the column rules, and only when neither row rule holds. The return edge is always the opposite direction. |
| Grid.DirectionsMatchStep | src/main/java/pdp/aniachar/dungeonmaster/gameworld/IMazeLocationBuilder.java:47-69 | On a grid of at least 3×3, the rule applied to a cell and its wrap-aware neighbour in direction d gives exactly d, and its opposite for the way back. |
| Graph.AddEdge | src/main/java/pdp/aniachar/dungeonmaster/gameworld/MazeLocation.java:74-76 | Adding a move in a direction the cell already has keeps the old move. Otherwise the direction is added with its destination, and every other move is kept. |
| Graph.AddMove | src/main/java/pdp/aniachar/dungeonmaster/gameworld/MazeLocation.java:74-76 | A cell has at most one move per direction; a second move in a used direction leaves the graph unchanged; no other cell changes. |
| Graph.Connect | src/main/java/pdp/aniachar/dungeonmaster/gameworld/IMazeLocationBuilder.java:79-92 | The left cell gets a move in the rule's direction and the right cell one in the opposite direction; a new move leads to the other cell. No third cell changes. |
| Graph.ConnectEdges | src/main/java/pdp/aniachar/dungeonmaster/gameworld/IMazeLocationBuilder.java:79-92 | Each joined cell's moves become AddEdge of its old moves: it gains the move towards the other cell unless that direction was taken already, and keeps every other move. |
| Graph.MakeAdjacent | src/main/java/pdp/aniachar/dungeonmaster/gameworld/IMazeLocationBuilder.java:79-92 | Succeeds exactly when the direction rule does and passes its refusal on. On success the two cells are different, the left one gains the rule's move towards the right one and the right one the opposite move back (AddEdge, an existing move in that direction kept), and no third cell changes. |
| Lists.RemoveFirst | src/main/java/pdp/aniachar/dungeonmaster/gameworld/MazeLocation.java:135-140 | `List.remove(Object)`: nothing happens when the element is absent. Otherwise exactly one copy, the first, is removed, and the rest keep their order (multiset minus one). |
| Lists.RemoveAt | src/main/java/pdp/aniachar/dungeonmaster/gameworld/RandomMazeBuilder.java:213-217 | `List.remove(int)`: the element at i is removed, later ones shift down by one, and the multiset loses exactly that element. |
| Items.Arrow.SetCurrentLocation | src/main/java/pdp/aniachar/dungeonmaster/item/Arrow.java:31-33 | The arrow's location reads back as the cell set. |
| Items.TypeOf | src/main/java/pdp/aniachar/dungeonmaster/item/Treasure.java:47-49 | TREASURE exactly for treasures and ARROW exactly for arrows (`Arrow.getItemType` at Arrow.java:51-53). |
| Items.NameOf | src/main/java/pdp/aniachar/dungeonmaster/item/Arrow.java:46-48 | An arrow is named "ARROW"; a treasure by its kind (`Treasure.getName` at Treasure.java:42-44). |
| Location.StrengthOf | src/main/java/pdp/aniachar/dungeonmaster/gameworld/MazeLocation.java:190-197 | Strong exactly when the counter is at least 2, weak exactly when it is 1, none otherwise (zero or negative). |
| Location.Weight | src/main/java/pdp/aniachar/dungeonmaster/gameworld/MazeLocation.java:155-170 | What addSmell adds and removeSmell subtracts is at most 2, and reading that amount as a counter gives back the strength. |
| Location.MovesInOrder | src/main/java/pdp/aniachar/dungeonmaster/gameworld/MazeLocation.java:174-176 | Lists exactly the cell's moves whose direction the order names, each as the action to the move's destination. |
| Location.MovesInOrderCount | src/main/java/pdp/aniachar/dungeonmaster/gameworld/MazeLocation.java:174-176 | An order without repeats yields one action per listed direction the cell has. |
| Location.RemoveKeepsConsistent | src/main/java/pdp/aniachar/dungeonmaster/gameworld/MazeLocation.java:135-140 | removeItem keeps the pick map consistent: each entry is a pick action for its own item, still among the cell's pick actions, with the item still in the cell. |
| Location.PickItemAction.constructor | src/main/java/pdp/aniachar/dungeonmaster/action/location/PickItemAction.java:28-31 | The action remembers its cell and its item. |
| Location.PickItemAction.Act | src/main/java/pdp/aniachar/dungeonmaster/action/location/PickItemAction.java:34-39 | Returns the item exactly when the cell still held it, and the cell then holds one item fewer. Otherwise the items are unchanged. Moves and smell are never touched. |
| Location.MazeLocation.constructor | src/main/java/pdp/aniachar/dungeonmaster/gameworld/MazeLocation.java:50-58 | A new cell at its coordinates, with no items, pick actions, moves or smell; the pick map is consistent. |
| Location.MazeLocation.BuildLocationWithItem | src/main/java/pdp/aniachar/dungeonmaster/gameworld/MazeLocation.java:66-72 | The item is appended and a fresh pick action for it is appended. The pick map names that action for the item, and the map stays consistent. |
| Location.MazeLocation.AddItem | src/main/java/pdp/aniachar/dungeonmaster/gameworld/MazeLocation.java:60-64 | As BuildLocationWithItem, and the item is also kept in the copy used by restart. |
| Location.MazeLocation.AddMoveAction | src/main/java/pdp/aniachar/dungeonmaster/gameworld/MazeLocation.java:74-76 | The move set gains the move unless its direction is taken, in which case nothing changes; items, pick actions and smell are untouched. |
| Location.MazeLocation.MoveActions | src/main/java/pdp/aniachar/dungeonmaster/gameworld/MazeLocation.java:174-176 | One action per move of the cell, each leading to that move's destination, and every move is listed. |
| Location.MazeLocation.PossibleActions | src/main/java/pdp/aniachar/dungeonmaster/gameworld/MazeLocation.java:85-94 | Position k below the number of moves holds the k-th of the cell's move actions in the move set's iteration order (MoveActions); the positions after them hold its pick actions in list order; as many actions as both together. |
| Location.MazeLocation.RemoveItem | src/main/java/pdp/aniachar/dungeonmaster/gameworld/MazeLocation.java:135-140 | Reports whether the cell held the item. The first equal item is dropped, along with the pick action the map names for it, and the map entry is removed. The pick map stays consistent. |
| Location.MazeLocation.Restart | src/main/java/pdp/aniachar/dungeonmaster/gameworld/MazeLocation.java:143-147 | Every item ever added is put back with a fresh pick action each, on top of what the cell still holds. The pick map registers the new actions and stays consistent. |
| Location.MazeLocation.Copy | src/main/java/pdp/aniachar/dungeonmaster/gameworld/MazeLocation.java:125-132 | A fresh cell at the same coordinates with copies of the item list, pick action list, move set and pick map, holding the same pick actions; no smell and an empty restart copy; consistency carries over. |
| Location.MazeLocation.AddSmell | src/main/java/pdp/aniachar/dungeonmaster/gameworld/MazeLocation.java:155-161 | The counter grows by 2 for strong, 1 for weak, 0 for none; nothing else changes. |
| Location.MazeLocation.RemoveSmell | src/main/java/pdp/aniachar/dungeonmaster/gameworld/MazeLocation.java:164-170 | The counter shrinks by what AddSmell of the same strength adds; nothing else changes. |
| Location.MazeLocation.PickActionsByType | src/main/java/pdp/aniachar/dungeonmaster/gameworld/MazeLocation.java:179-187 | Exactly one entry per item type present in the pick map, each one of the pick actions for an item of that type. |
| Location.LocationBuilder.constructor | src/main/java/pdp/aniachar/dungeonmaster/gameworld/IMazeLocationBuilder.java:34-36 | A fresh, consistent cell at the given coordinates with no items, moves or pick actions, an empty pick map and restart copy, and smell 0. |
| Location.LocationBuilder.AddTreasure | src/main/java/pdp/aniachar/dungeonmaster/gameworld/IMazeLocationBuilder.java:132-135 | The treasure is appended to the cell's items and restart copy; one fresh pick action for it, on this cell, is appended to the pick actions and becomes the pick map's entry for the item. Moves and smell are kept, and the builder is returned for chaining. |
| Location.LocationBuilder.AddArrow | src/main/java/pdp/aniachar/dungeonmaster/gameworld/IMazeLocationBuilder.java:144-147 | The arrow is appended to the cell's items and restart copy; one fresh pick action for it, on this cell, is appended to the pick actions and becomes the pick map's entry for the item. Moves and smell are kept, and the builder is returned for chaining. |
| Location.LocationBuilder.Build | src/main/java/pdp/aniachar/dungeonmaster/gameworld/IMazeLocationBuilder.java:154-156 | Returns the cell that was built. |
| Location.MakeAdjacentCells | src/main/java/pdp/aniachar/dungeonmaster/gameworld/IMazeLocationBuilder.java:79-92 | The result is the direction rule's answer. On failure neither cell changes at all. On success each cell gains a move towards the other in the rule's direction (or keeps an existing one). Items, pick actions, pick maps, smell and restart copies of both cells are kept either way. |
| Actions.AssignToCharacter | src/main/java/pdp/aniachar/dungeonmaster/item/Treasure.java:32-39 | A monster is refused: "Treasure can only be assigned to Player", or "Arrow can only be assigned to players" for an arrow (`Arrow.assignToCharacter` at Arrow.java:36-43). A player receives the item, which joins their items, and an arrow is placed at the player's cell. |
| Actions.TakeItem | src/main/java/pdp/aniachar/dungeonmaster/character/player/Player.java:77-79 | A player takes the item as above. A monster fails with NoSuchMethodException (`Otyughs.takeItem` at Otyughs.java:124-126). |
| Actions.PickActOn | src/main/java/pdp/aniachar/dungeonmaster/action/location/PickItemAction.java:52-59 | The item leaves the cell first. The result is false if the item was not there, the item joins the player's items, and a monster fails after the item is already gone. |
| Actions.MoveActOn | src/main/java/pdp/aniachar/dungeonmaster/action/location/MoveAction.java:74-77 | A player is moved to the destination cell and the answer is true, with items and health unchanged. A monster answers false. |
| Characters.ChangeHealth | src/main/java/pdp/aniachar/dungeonmaster/character/AbstractCharacter.java:18-27 | A zero change fails with "Change by cannot be zero". Otherwise the result is the sum of health and change, or zero when that sum is not positive. It is never negative and has no upper bound. |
| Characters.DamageComposes | src/main/java/pdp/aniachar/dungeonmaster/character/AbstractCharacter.java:18-27 | From non-negative health, two blows in a row equal one blow of their sum. |
| Characters.TwoHitsKill | src/main/java/pdp/aniachar/dungeonmaster/character/monster/Otyughs.java:148-159 | A monster at full health (100) is at 50 after one arrow and at 0 after the second. |
| Characters.Player.constructor | src/main/java/pdp/aniachar/dungeonmaster/character/player/Player.java:41-54 | The player stands on a fresh copy of the start cell (same items, moves and pick actions, no smell), with health 1, no treasure, the given quiver and name. |
| Characters.NewPlayer | src/main/java/pdp/aniachar/dungeonmaster/character/player/Player.java:41-54 | A blank name is refused with "Player cannot be blank". Otherwise the player stands on a fresh copy of the start cell (its coordinates, moves, items, pick actions and pick map; smell 0 and no restart copy; consistent when the start cell is), with health 1, no treasure, the given quiver, name and registration. |
| Characters.Player.MakeMove | src/main/java/pdp/aniachar/dungeonmaster/character/player/Player.java:65-69 | The player always moves to the given cell; items and health are unchanged. |
| Characters.Player.AllItems | src/main/java/pdp/aniachar/dungeonmaster/character/player/Player.java:82-86 | The treasures taken, in order, then one arrow item per quiver arrow, in order. |
| Characters.Player.AssignTreasure | src/main/java/pdp/aniachar/dungeonmaster/character/player/Player.java:101-104 | A treasure of the same kind is appended to the possessions; always accepted. |
| Characters.Player.AssignArrow | src/main/java/pdp/aniachar/dungeonmaster/character/player/Player.java:107-110 | The arrow is appended to the quiver and placed at the player's cell; always accepted. |
| Characters.Player.RemoveArrow | src/main/java/pdp/aniachar/dungeonmaster/character/player/Player.java:118-125 | An empty quiver fails with "No arrows to shoot". Otherwise the first arrow leaves the quiver, the rest keep their order, and the arrow is placed at the player's cell. |
| Characters.Player.PlayerDeathListener | src/main/java/pdp/aniachar/dungeonmaster/character/player/Player.java:152-154 | Health drops to zero; nothing else changes. |
| Characters.DefaultName | src/main/java/pdp/aniachar/dungeonmaster/character/player/PlayerBuilder.java:69-79 | "Player " followed by the decimal digits of the number; never blank. |
| Characters.PlayerBuilder.constructor | src/main/java/pdp/aniachar/dungeonmaster/character/player/PlayerBuilder.java:31-34 | Remembers the start cell, with no name and registration off. |
| Characters.PlayerBuilder.SetName | src/main/java/pdp/aniachar/dungeonmaster/character/player/PlayerBuilder.java:43-49 | A blank name is refused with "Name cannot be blank" and the name is unchanged. Otherwise the name is set and the builder returned. |
| Characters.PlayerBuilder.SetRegister | src/main/java/pdp/aniachar/dungeonmaster/character/player/PlayerBuilder.java:58-61 | Sets the registration flag, keeps the name, returns the builder. |
| Characters.PlayerBuilder.CreatePlayer | src/main/java/pdp/aniachar/dungeonmaster/character/player/PlayerBuilder.java:69-79 | With no name, the builder takes "Player n" for the draw n in [1000, 5000) and keeps it. The new player stands on a fresh copy of the start cell (coordinates, moves, items, pick actions and pick map; smell 0, no restart copy; consistent when the start cell is) with health 1 and three distinct fresh unplaced arrows. |
| Characters.StrengthAt | src/main/java/pdp/aniachar/dungeonmaster/character/monster/Otyughs.java:95-111 | Strong exactly one move away, weak otherwise, never none. |
| Characters.SmellDelta | src/main/java/pdp/aniachar/dungeonmaster/character/monster/Otyughs.java:95-111 | A cell outside the field gains nothing. A cell in the field gains exactly the weight of its distance's strength. |
| Characters.SmellFieldOf | src/main/java/pdp/aniachar/dungeonmaster/character/monster/Otyughs.java:82-88 | The result is exactly the cells other than the monster's whose shortest walk from it has one or two moves, each with that distance. |
| Characters.SmellRoundTrip | src/main/java/pdp/aniachar/dungeonmaster/character/monster/Otyughs.java:95-111 | Taking a smell back undoes publishing it and the other way round; cells outside the field keep their counters. |
| Characters.Otyughs.constructor | src/main/java/pdp/aniachar/dungeonmaster/character/monster/Otyughs.java:49-59 | Health 100 and listening. Its smell field is computed and published: every counter in the world rises by the field's weights, and nothing else in the world changes. |
| Characters.Otyughs.Quiet | src/main/java/pdp/aniachar/dungeonmaster/character/monster/Otyughs.java:69-80 | As the other constructor, but it listens only when asked and publishes no smell. |
| Characters.Otyughs.PublishSmellChanges | src/main/java/pdp/aniachar/dungeonmaster/character/monster/Otyughs.java:95-111 | The world's counters gain (or lose) exactly the field's weights; nothing else in the world changes. |
| Characters.Otyughs.MakeMove | src/main/java/pdp/aniachar/dungeonmaster/character/monster/Otyughs.java:114-116 | A monster never moves. |
| Characters.Otyughs.TakeHit | src/main/java/pdp/aniachar/dungeonmaster/character/monster/Otyughs.java:148-159 | A hit elsewhere changes nothing. A hit here costs 50 health. The monster dies exactly when the hit is here and leaves it with no health; it then stops listening and takes its smell back. The cells keep everything but their smell counters (OnlySmellChanged). |
| Characters.Otyughs.BattlePlayer | src/main/java/pdp/aniachar/dungeonmaster/character/monster/Otyughs.java:177-190 | The player dies exactly when the monster has more than 50 health or the draw is 0. Otherwise the monster stops listening and takes its smell back. The cells keep everything but their smell counters (OnlySmellChanged). |
| Characters.Otyughs.PlayerEntered | src/main/java/pdp/aniachar/dungeonmaster/character/monster/Otyughs.java:170-175 | A battle happens exactly when the player entered the monster's cell, with the outcome BattlePlayer states. |
| Characters.Otyughs.BringBackToLife | src/main/java/pdp/aniachar/dungeonmaster/character/monster/Otyughs.java:205-209 | The monster listens again; its smell is taken back and published anew, so every counter ends where it was. |
| Flight.FirstTurn | src/main/java/pdp/aniachar/dungeonmaster/item/ShootArrowAction.java:110-121 | The first direction in iteration order that leads from a tunnel to an unvisited cell other than straight on. No earlier direction qualifies, and None means no direction does. |
| Flight.NextMove | src/main/java/pdp/aniachar/dungeonmaster/item/ShootArrowAction.java:80-122 | A cave entered after the first step counts one more, and reaching the distance there stops the arrow. A move always enters an unvisited adjacent cell. Straight on is taken when possible. A cave offers nothing else, and a tunnel turns into its FirstTurn. |
| Flight.MoveShrinks | src/main/java/pdp/aniachar/dungeonmaster/item/ShootArrowAction.java:70-78 | Every move enters an unvisited cell of the graph, so fewer remain: the flight ends. |
| Flight.FlyReaches | src/main/java/pdp/aniachar/dungeonmaster/item/ShootArrowAction.java:59-67 | The arrow lands on a cell joined by a walk to the cell it was shot from. |
| Flight.FlyWithinDistance | src/main/java/pdp/aniachar/dungeonmaster/item/ShootArrowAction.java:80-92 | From below the distance, the arrow never counts more caves than the distance. |
| Flight.FlyLandsVisited | src/main/java/pdp/aniachar/dungeonmaster/item/ShootArrowAction.java:70-78 | The landing cell is among the visited cells. |
| Flight.ShootArrowAction.WithArrow | src/main/java/pdp/aniachar/dungeonmaster/item/ShootArrowAction.java:42-49 | Remembers arrow, direction and distance, with nothing travelled or visited. |
| Flight.ShootArrowAction.constructor | src/main/java/pdp/aniachar/dungeonmaster/item/ShootArrowAction.java:51-56 | As above, without an arrow. |
| Flight.ShootArrowAction.NextPossibleMove | src/main/java/pdp/aniachar/dungeonmaster/item/ShootArrowAction.java:80-122 | The action's fields and its arrow's cell move exactly as NextMove says. |
| Flight.ShootArrowAction.Act | src/main/java/pdp/aniachar/dungeonmaster/item/ShootArrowAction.java:59-67 | The start cell is marked visited and the arrow flies as Fly says. The hit is at the landing cell, and the answer is whether exactly the distance in caves was counted. |
| Flight.ShootArrowAction.ActOn | src/main/java/pdp/aniachar/dungeonmaster/item/ShootArrowAction.java:131-142 | A monster is refused with "Arrow can only be used by a IPlayer". An empty quiver is refused with "Player has no more arrows.". Otherwise the first arrow leaves the quiver, is placed at the player's cell and flies as Fly says. |
| Flight.ShootArrowActionBuilder.constructor | src/main/java/pdp/aniachar/dungeonmaster/item/ShootArrowActionBuilder.java:14-16 | No arrow, no direction, distance 0. |
| Flight.ShootArrowActionBuilder.WithArrow | src/main/java/pdp/aniachar/dungeonmaster/item/ShootArrowActionBuilder.java:25-28 | Sets the arrow only. |
| Flight.ShootArrowActionBuilder.WithDirection | src/main/java/pdp/aniachar/dungeonmaster/item/ShootArrowActionBuilder.java:36-39 | Sets the direction only. |
| Flight.ShootArrowActionBuilder.WithDistance | src/main/java/pdp/aniachar/dungeonmaster/item/ShootArrowActionBuilder.java:47-53 | Only 1 to 5 is accepted. Anything else is refused with "Distance cannot be zero or negative or greater than 5" and the distance is unchanged. |
| Flight.ShootArrowActionBuilder.Build | src/main/java/pdp/aniachar/dungeonmaster/item/ShootArrowActionBuilder.java:57-62 | A fresh action with the builder's arrow, direction and distance, nothing travelled. |
| FlightExamples.Straight | src/main/java/pdp/aniachar/dungeonmaster/item/ShootArrowAction.java:94-103 | A step that can go straight on to an unvisited cell does so and keeps its heading. |
| FlightExamples.Turn | src/main/java/pdp/aniachar/dungeonmaster/item/ShootArrowAction.java:110-121 | A tunnel step that cannot go straight turns into the first possible turn and takes it as the new heading. |
| FlightExamples.Stuck | src/main/java/pdp/aniachar/dungeonmaster/item/ShootArrowAction.java:110-121 | A tunnel whose exits all lead to visited cells stops the arrow where it is. |
| FlightExamples.MoveEastLandsInCellThree | test/ShootArrowActionTest.java:64-81 | The `moveEast` test holds in every iteration order. Shot east over two caves, the arrow lands in cell 3 having counted exactly two caves. |
| FlightExamples.CornerTurn | test/ShootArrowActionTest.java:138-150 | Shot west in the corner tunnel, the arrow turns to whichever of East and South comes first in the cell's iteration order. |
| FlightExamples.LoopedTunnelDependsOnOrder | test/ShootArrowActionTest.java:138-150 | In `testLoopedTunnel` the arrow counts no cave, so the shot is not a hit. It lands in cell 6, as the test expects, only when East precedes South in the iteration order, and in cell 1 otherwise. |
| Game.AfterDeaths | src/main/java/pdp/aniachar/dungeonmaster/DungeonGame.java:132-136 | After k > 0 deaths the health is k lower, but never below zero; no death leaves it as it was. |
| Game.AfterOneMoreDeath | src/main/java/pdp/aniachar/dungeonmaster/DungeonGame.java:132-136 | One more death is exactly one more `changeHealth(-1)`. |
| Game.KillsPositive | src/main/java/pdp/aniachar/dungeonmaster/character/monster/Otyughs.java:177-190 | Some battle killed the player exactly when the count of kills is positive. |
| Game.WithoutDeadCells | src/main/java/pdp/aniachar/dungeonmaster/character/monster/Otyughs.java:95-111 | After the dead monsters take their smell back, each counter is lower by the sum of what each dead monster had given it. |
| Game.NoneDead | src/main/java/pdp/aniachar/dungeonmaster/character/monster/Otyughs.java:148-159 | When no monster died, no counter changes. |
| Game.KeyByDirection | src/main/java/pdp/aniachar/dungeonmaster/DungeonGame.java:80-88 | Every listed move action's direction is a key, and each key maps to a listed action of that direction. |
| Game.SecondArrowKills | test/OtyughsTest.java:72-95 | The `killMonster` test: a healthy monster is at 50 after the first hit, the second hit kills it, and it stops listening. |
| Game.HitOnlyThere | src/main/java/pdp/aniachar/dungeonmaster/character/monster/Otyughs.java:148-159 | A hit elsewhere changes nothing and a hit never heals. The hit kills exactly a listening monster standing there with at most 50 health. |
| Game.PlayerDiesOnEntering | src/main/java/pdp/aniachar/dungeonmaster/character/monster/Otyughs.java:170-190 | The player dies on entering a cell exactly when some listening monster stands there and has more than 50 health or draws even. |
| Game.EmptyCellNoBattle | src/main/java/pdp/aniachar/dungeonmaster/character/monster/Otyughs.java:170-175 | Entering a cell where no monster stands changes no monster and kills nobody. |
| Game.DungeonGame.constructor | src/main/java/pdp/aniachar/dungeonmaster/DungeonGame.java:55-71 | From a built world (cells at their positions, start and end cells in it, each monster standing in it once), the player is built on a fresh copy of the start cell (its coordinates, moves, items, pick actions and pick map; smell 0, no restart copy) with the given name, or "Player n" for the draw, with health 1, nothing possessed and three arrows. The game is valid and not over. |
| Game.NewDungeonGame | src/main/java/pdp/aniachar/dungeonmaster/character/player/PlayerBuilder.java:43-49 | The constructor taking a name: it fails with "Name cannot be blank" exactly when the name given is blank; otherwise the game is made as the constructor says, valid, not over, with the player on the start cell under that name. |
| Game.DungeonGame.GetAllMoveActions | src/main/java/pdp/aniachar/dungeonmaster/DungeonGame.java:80-88 | Exactly the player's cell's moves, keyed by their own direction, each to its destination. |
| Game.DungeonGame.GetAllPickActions | src/main/java/pdp/aniachar/dungeonmaster/DungeonGame.java:91-93 | One pick action of the player's cell for each item type lying there. |
| Game.DungeonGame.GetAllPlayerAction | src/main/java/pdp/aniachar/dungeonmaster/DungeonGame.java:96-98 | Exactly the shoot action, with a fresh builder without arrow and distance 0. |
| Game.DungeonGame.PlayerDeathEventListener | src/main/java/pdp/aniachar/dungeonmaster/DungeonGame.java:132-136 | The game is over and the player's health is one lower, never below zero. |
| Game.DungeonGame.DeliverHit | src/main/java/pdp/aniachar/dungeonmaster/character/monster/Otyughs.java:148-159 | Every monster takes the hit, in turn, as HitAll says. Each dead monster takes its smell back, and the counters lose exactly the dead monsters' smell. The cells keep their moves, items and pick actions (OnlySmellChanged). |
| Game.DungeonGame.DeliverEnter | src/main/java/pdp/aniachar/dungeonmaster/character/monster/Otyughs.java:170-190 | Every monster takes the player's entering with its own draw. The battle results are Battles, the monster states EnterAll, and the monsters that died take their smell back. The cells keep their moves, items and pick actions (OnlySmellChanged). |
| Game.DungeonGame.DeliverDeaths | src/main/java/pdp/aniachar/dungeonmaster/DungeonGame.java:132-136 | The game is over exactly when it was or some battle killed the player; the health is lowered once per death. |
| Game.DungeonGame.MovePlayer | src/main/java/pdp/aniachar/dungeonmaster/action/location/MoveAction.java:74-77 | The player steps into the destination and the monsters there battle it. The game ends and the health drops as DeliverDeaths says, and the smell of dead monsters is taken back. The player's possessions are kept, and the cells keep everything but their smell counters (OnlySmellChanged). |
| Game.DungeonGame.PickForPlayer | src/main/java/pdp/aniachar/dungeonmaster/action/location/PickItemAction.java:52-59 | The result is whether the cell held the item. The item leaves the cell and joins the player's items; location and health are unchanged. Every other cell of the world is unchanged, and the smell counters and monster states stay as they were. |
| Game.DungeonGame.Fire | src/main/java/pdp/aniachar/dungeonmaster/item/ShootArrowAction.java:131-142 | The player's shot over the game's graph: the first arrow leaves the quiver and lands somewhere, or an empty quiver fails. Monsters and smells are untouched. |
| Game.DungeonGame.ShootForPlayer | src/main/java/pdp/aniachar/dungeonmaster/item/ShootArrowAction.java:59-67 | The first arrow flies and its hit reaches the monsters as DeliverHit says, and the cells keep everything but their smell counters (OnlySmellChanged). An empty quiver fails with "Player has no more arrows.": the quiver stays empty and no cell or monster changes. The player's cell, health and treasures are kept either way. |
| Game.DungeonGame.Interact | src/main/java/pdp/aniachar/dungeonmaster/DungeonGame.java:101-117 | Once the game is over every action fails with "Cannot play game. Gave is over": no cell, monster or player field changes, nor the picked cell. A move puts the player on the destination, runs the battles in monster order, updates monster states, health and smells (the dead monsters' smell withdrawn) and keeps the player's possessions. A pick removes the item from the cell and adds it to the player; every other cell, the smell counters and the monster states are unchanged. A shot spends the first arrow, hits the monsters where it lands and withdraws the smell of those it kills, keeping the other possessions; with no arrow it fails with "Player has no more arrows." and no cell or monster changes. After a move or a shot the cells differ at most in their smell counters (OnlySmellChanged). The game ends when a carried-out action leaves the player on the end cell, or when a battle killed the player. |
| Game.DungeonGame.EndIfArrived | src/main/java/pdp/aniachar/dungeonmaster/DungeonGame.java:108-110 | The game is over exactly when it was already, or the action was carried out and the player stands on the end cell. Neither the smells nor the monsters change. |
| Candidates.CellsExactly | src/main/java/pdp/aniachar/dungeonmaster/gameworld/RandomMazeBuilder.java:111-123 | The cells are listed row by row, each grid cell exactly once and nothing else. |
| Candidates.CandidatesExactly | src/main/java/pdp/aniachar/dungeonmaster/gameworld/RandomMazeBuilder.java:133-168 | The candidate list holds exactly the pairs of a grid cell with the cell below it or to its right; the wrapping ones appear only in a wrapping maze. |
| Candidates.CandidatesCount | src/main/java/pdp/aniachar/dungeonmaster/gameworld/RandomMazeBuilder.java:133-168 | There are (R-1)·C + R·(C-1) candidates when the maze does not wrap and 2·R·C when it does. |
| Candidates.BuilderHeading | src/main/java/pdp/aniachar/dungeonmaster/gameworld/RandomMazeBuilder.java:260-267 | A pair whose right cell is the next row (mod rows) is South from the left cell and North back; every other pair is East and West back. |
| Candidates.CandidateHeading | src/main/java/pdp/aniachar/dungeonmaster/gameworld/RandomMazeBuilder.java:231-241 | For every candidate of a grid with at least two rows and columns, the builder's directions name the moves that really lead from each cell to the other, wrap included. |
| Partitions.SingletonsPartition | src/main/java/pdp/aniachar/dungeonmaster/gameworld/RandomMazeBuilder.java:111-123 | One singleton group per cell is a partition of the grid, and each group is trivially connected. |
| Partitions.Merge | src/main/java/pdp/aniachar/dungeonmaster/gameworld/RandomMazeBuilder.java:242-256 | Merging drops one group and adds its cells to the other. The smaller group is removed (the first on a tie), the larger keeps its place, and the rest keep their order. |
| Partitions.MergePartition | src/main/java/pdp/aniachar/dungeonmaster/gameworld/RandomMazeBuilder.java:242-256 | Merging two different groups of a partition leaves a partition of the same cells. |
| Partitions.MergeConnected | src/main/java/pdp/aniachar/dungeonmaster/gameworld/RandomMazeBuilder.java:231-256 | After the tree edge joins the two groups, every two cells of the merged group are joined by a walk. |
| Partitions.OnePart | src/main/java/pdp/aniachar/dungeonmaster/gameworld/RandomMazeBuilder.java:183-208 | Once every candidate pair lies inside one group, the partition is a single group holding the whole grid. |
| Kruskal.FirstWith | src/main/java/pdp/aniachar/dungeonmaster/gameworld/RandomMazeBuilder.java:242-245 | `findFirst` over the groups: the first group holding the cell. |
| Kruskal.GrowInPlace | src/main/java/pdp/aniachar/dungeonmaster/gameworld/RandomMazeBuilder.java:248-256 | Removing the smaller group from the list and adding its cells in place to the larger one is exactly Merge. |
| Kruskal.ConnectGeometric | src/main/java/pdp/aniachar/dungeonmaster/gameworld/RandomMazeBuilder.java:231-241 | Joining two neighbouring cells keeps every move leading to the grid neighbour in its direction. It makes the cells adjacent both ways and adds both to the graph. |
| Kruskal.KruskalStart | src/main/java/pdp/aniachar/dungeonmaster/gameworld/RandomMazeBuilder.java:177-182 | Before the first pair, singleton groups and an empty graph satisfy the loop's invariant. |
| Kruskal.KruskalJoin | src/main/java/pdp/aniachar/dungeonmaster/gameworld/RandomMazeBuilder.java:199-203 | A pair across two groups becomes a tree edge, merges the groups and keeps the invariant. |
| Kruskal.KruskalSkip | src/main/java/pdp/aniachar/dungeonmaster/gameworld/RandomMazeBuilder.java:204-206 | A pair inside one group is discarded and the invariant is kept. |
| Kruskal.KruskalDone | src/main/java/pdp/aniachar/dungeonmaster/gameworld/RandomMazeBuilder.java:177-208 | After all candidates there is one group holding the grid. The tree has R·C - 1 edges, every cell has a path, and every two cells are joined by a walk. |
| Kruskal.BlindStep | src/main/java/pdp/aniachar/dungeonmaster/gameworld/RandomMazeBuilder.java:209-218 | A blind join of a discarded candidate keeps the tree's edges and keeps every move geometric. |
| Kruskal.StaysConnected | src/main/java/pdp/aniachar/dungeonmaster/gameworld/RandomMazeBuilder.java:209-218 | Adding edges to a graph that joins every two cells keeps them joined. |
| Kruskal.BlindPicks | src/main/java/pdp/aniachar/dungeonmaster/gameworld/RandomMazeBuilder.java:213-217 | The pairs n draws pick: each draw, reduced modulo the pairs left, names the next pair, which then leaves the list. There are n of them and they are drawn from the list (multiset inclusion). |
| Kruskal.ConnectAllJoins | src/main/java/pdp/aniachar/dungeonmaster/gameworld/RandomMazeBuilder.java:177-220 | Joining candidate pairs one after another into a geometric graph keeps it geometric, keeps every earlier edge, and leaves each joined pair an edge both ways. |
| Kruskal.DrawnStart | src/main/java/pdp/aniachar/dungeonmaster/gameworld/RandomMazeBuilder.java:209-213 | Before the first round of the extra-edge loop nothing is drawn, the whole discard list is left and the graph is the tree's; the loop invariant holds. |
| Kruskal.DrawnStep | src/main/java/pdp/aniachar/dungeonmaster/gameworld/RandomMazeBuilder.java:214-216 | One round: the pair the draw names is joined, removed from the list and appended to the pairs drawn; the loop invariant holds for the next round. |
| Kruskal.DrawnDone | src/main/java/pdp/aniachar/dungeonmaster/gameworld/RandomMazeBuilder.java:209-218 | After the last round the pairs drawn are exactly BlindPicks of the discard list and the draws, and the graph is the tree graph with them joined in order. |
| Kruskal.PairsAreEdges | src/main/java/pdp/aniachar/dungeonmaster/gameworld/RandomMazeBuilder.java:177-220 | Every tree pair and every extra pair of buildMaze joins its two cells both ways in the final graph. |
| Bfs.RemoveAll | src/main/java/pdp/aniachar/dungeonmaster/gameworld/IMazeLocationBuilder.java:120 | `queue.removeAll(visited)`: exactly the queued cells not visited are kept, all copies of the visited ones dropped. |
| Bfs.EnqueueNeighbours | src/main/java/pdp/aniachar/dungeonmaster/gameworld/IMazeLocationBuilder.java:112-119 | The loop over the moves of the cell taken off the queue records each new neighbour one further (`computeIfAbsent`) and queues it, keeping the search invariant. |
| Bfs.VisitFront | src/main/java/pdp/aniachar/dungeonmaster/gameworld/IMazeLocationBuilder.java:108-120 | One round of the search keeps its invariant and visits one more cell, so the search ends. |
| Bfs.SearchDone | src/main/java/pdp/aniachar/dungeonmaster/gameworld/IMazeLocationBuilder.java:102-122 | Once the queue is empty, the recorded distances are exactly the shortest walk lengths. |
| Bfs.DistanceToAllNodes | src/main/java/pdp/aniachar/dungeonmaster/gameworld/IMazeLocationBuilder.java:102-122 | The result holds the start at 0 and exactly the cells reachable from the start. Each is at the length of a walk to it and at no more than any walk: the shortest distance. |
| MazeBuilder.ConstructorError | src/main/java/pdp/aniachar/dungeonmaster/gameworld/RandomMazeBuilder.java:75-95 | Settings are accepted exactly when percent is in [0, 100], rows and columns are at least 10, and degree is not negative. Each refusal gives the source's message, checked in the source's order. |
| MazeBuilder.RecordNeighbours | src/main/java/pdp/aniachar/dungeonmaster/gameworld/RandomMazeBuilder.java:319-331 | Every neighbour of the current cell ends up queued and nothing else is added. Each recorded distance is still a walk length, even though earlier distances are overwritten. |
| MazeBuilder.FoundEnd | src/main/java/pdp/aniachar/dungeonmaster/gameworld/RandomMazeBuilder.java:314-316 | When the end comes off the queue its recorded distance is the length of a walk from the start, and zero when end is start. |
| MazeBuilder.VisitRound | src/main/java/pdp/aniachar/dungeonmaster/gameworld/RandomMazeBuilder.java:317-332 | One round of distanceBetweenNodes keeps the search invariant and visits one more cell. |
| MazeBuilder.CavesAmong | src/main/java/pdp/aniachar/dungeonmaster/gameworld/RandomMazeBuilder.java:271-272 | Exactly the cells of the listing that are caves, in order and without repeats. |
| MazeBuilder.TreasureTarget | src/main/java/pdp/aniachar/dungeonmaster/gameworld/RandomMazeBuilder.java:343 | `Math.ceil(numCaves * percent / 100)`: the least count that is at least percent per cent of the caves. |
| MazeBuilder.TargetAtMostCaves | src/main/java/pdp/aniachar/dungeonmaster/gameworld/RandomMazeBuilder.java:338-355 | No more caves than exist are to get treasure, and none when there is no cave. |
| MazeBuilder.RandomMazeBuilder.constructor | src/main/java/pdp/aniachar/dungeonmaster/gameworld/RandomMazeBuilder.java:75-95 | Accepted settings are stored, with no groups, no cells and no treasure. |
| MazeBuilder.RandomMazeBuilder.BuildAllNodes | src/main/java/pdp/aniachar/dungeonmaster/gameworld/RandomMazeBuilder.java:111-123 | Returns every grid cell row by row, and adds each as its own group. |
| MazeBuilder.RandomMazeBuilder.AddCellPairs | src/main/java/pdp/aniachar/dungeonmaster/gameworld/RandomMazeBuilder.java:146-164 | Appends the cell's pair with the cell below and then with the cell to its right; the pairs across the edge appear only when the maze wraps. |
| MazeBuilder.RandomMazeBuilder.BuildAllPossibleAdjacent | src/main/java/pdp/aniachar/dungeonmaster/gameworld/RandomMazeBuilder.java:133-168 | Returns exactly the candidate list, and creates one singleton group per cell. |
| MazeBuilder.RandomMazeBuilder.AreConnected | src/main/java/pdp/aniachar/dungeonmaster/gameworld/RandomMazeBuilder.java:187-199 | True exactly when some group holds both cells. |
| MazeBuilder.RandomMazeBuilder.MakeAdjacent | src/main/java/pdp/aniachar/dungeonmaster/gameworld/RandomMazeBuilder.java:231-257 | Both cells get their moves in the builder's directions. A blind join changes no group; otherwise the two cells' groups are merged, smaller into larger. |
| MazeBuilder.RandomMazeBuilder.JoinGrid | src/main/java/pdp/aniachar/dungeonmaster/gameworld/RandomMazeBuilder.java:177-208 | Starting from singleton groups, the shuffled pairs leave one group holding the grid and a spanning tree of R·C - 1 pairs joining every two cells. The tree and the discarded pairs together are the shuffled list, and the graph is exactly the empty graph with the tree pairs joined in order (ConnectAll). |
| MazeBuilder.RandomMazeBuilder.JoinAll | src/main/java/pdp/aniachar/dungeonmaster/gameworld/RandomMazeBuilder.java:183-208 | The loop over the shuffled pairs ends with one group and a spanning tree, every cell with a path, and every move geometric; the graph is exactly the empty graph with the tree pairs joined in order. |
| MazeBuilder.RandomMazeBuilder.JoinOrDiscard | src/main/java/pdp/aniachar/dungeonmaster/gameworld/RandomMazeBuilder.java:185-207 | A pair inside one group is discarded and nothing else changes. Any other pair becomes a tree edge, both cells get a path, and the graph gains its two moves. |
| MazeBuilder.RandomMazeBuilder.AddBackDiscarded | src/main/java/pdp/aniachar/dungeonmaster/gameworld/RandomMazeBuilder.java:209-218 | A positive degree is capped at the number of discarded pairs. The extra pairs are exactly the ones the draws pick from the shrinking discard list (BlindPicks), and the new graph is exactly the old one with those pairs joined blindly in order; the groups are unchanged and the tree edges are kept. |
| MazeBuilder.RandomMazeBuilder.JoinDrawn | src/main/java/pdp/aniachar/dungeonmaster/gameworld/RandomMazeBuilder.java:213-217 | The loop of degree rounds: the pairs joined are BlindPicks of the discard list and the draws, the graph is the old one with them joined in order, and every move stays geometric. |
| MazeBuilder.RandomMazeBuilder.JoinBlindly | src/main/java/pdp/aniachar/dungeonmaster/gameworld/RandomMazeBuilder.java:215 | One blind makeAdjacent of a discarded candidate: the graph is the previous one with that pair joined, the tree edges are kept and the groups are unchanged. |
| MazeBuilder.RandomMazeBuilder.BuildMaze | src/main/java/pdp/aniachar/dungeonmaster/gameworld/RandomMazeBuilder.java:177-220 | One group holding the whole grid; every cell has a path; every two cells are joined by a walk; a tree of R·C - 1 edges plus degree extra edges drawn from the candidates; the graph is exactly the tree pairs and then the extra pairs joined in order, so each of them is an edge both ways; every move geometric. |
| MazeBuilder.RandomMazeBuilder.PopulateDistances | src/main/java/pdp/aniachar/dungeonmaster/gameworld/RandomMazeBuilder.java:364-372 | Every given cell, and no other, is recorded at Integer.MAX_VALUE. |
| MazeBuilder.RandomMazeBuilder.DistanceBetweenNodes | src/main/java/pdp/aniachar/dungeonmaster/gameworld/RandomMazeBuilder.java:307-336 | The result is Integer.MIN_VALUE or non-negative, and zero from a cell to itself. A non-negative result is the length of a walk from start to end. MIN_VALUE is returned exactly when no walk joins them. |
| MazeBuilder.RandomMazeBuilder.GetStartingEndPoint | src/main/java/pdp/aniachar/dungeonmaster/gameworld/RandomMazeBuilder.java:270-296 | No cave, or one cave, fails as `nextInt(0)` does. On success the start is the drawn cave, and start and end are distinct caves with a path whose distance is at least five. |
| MazeBuilder.RandomMazeBuilder.DrawFarEnd | src/main/java/pdp/aniachar/dungeonmaster/gameworld/RandomMazeBuilder.java:284-291 | The redraw loop ends only with an end at least five moves away, or with "No caves found" when a skip passes the last cave. |
| MazeBuilder.RandomMazeBuilder.AddTreasure | src/main/java/pdp/aniachar/dungeonmaster/gameworld/RandomMazeBuilder.java:338-355 | Treasure lies only in caves with a path. The loop reports success exactly when the number of caves with treasure reached the target, and never exceeds it. |
| CommandParser.ParseDirection | src/main/java/pdp/aniachar/controller/CommandLineParser.java:121-138 | Accepts exactly a direction's full word or its first letter, in any case; anything else fails with "Not a valid direction". |
| CommandParser.ParseItemType | src/main/java/pdp/aniachar/controller/CommandLineParser.java:108-119 | Accepts exactly an item noun's full word or its first letter, in any case; anything else fails with "Not a valid item type". |
| CommandParser.ParseInt | src/main/java/pdp/aniachar/controller/CommandLineParser.java:97-106 | `Integer.parseInt`: a value is read only from a signed or unsigned string of ASCII digits within the int range; a leading minus gives a value ≤ 0 and no minus a value ≥ 0. |
| CommandParser.OnlyVerb | src/main/java/pdp/aniachar/controller/CommandLineParser.java:70-83 | Exactly help/h and quit/q are accepted; anything else is "Not a valid command". |
| CommandParser.VerbNoun | src/main/java/pdp/aniachar/controller/CommandLineParser.java:56-67 | move/m with a direction or pick/p with an item noun; any other verb is "Not a valid command". |
| CommandParser.VerbNounQualifier | src/main/java/pdp/aniachar/controller/CommandLineParser.java:45-53 | shoot/s, then a direction, then an int distance, with each failure's own message. The distance is not range-checked. |
| CommandParser.ParseCommand | src/main/java/pdp/aniachar/controller/CommandLineParser.java:26-42 | A command is read only from a line with as many words as it takes; more than three words is "Not a valid command". |
| CommandParser.ParseIntRoundTrip | src/main/java/pdp/aniachar/controller/CommandLineParser.java:97-106 | The decimal text of any int reads back as that int. |
| CommandParser.TwoWordLine | src/main/java/pdp/aniachar/controller/CommandLineParser.java:33-35 | A line of exactly two words is read by the verb-noun rule. |
| CommandParser.ThreeWordLine | src/main/java/pdp/aniachar/controller/CommandLineParser.java:36-38 | A line of exactly three words is read by the verb-noun-qualifier rule. |
| CommandParser.TokensOfWords | src/main/java/pdp/aniachar/controller/CommandLineParser.java:27-28 | Words joined by single spaces are cut back into exactly those words. |
| CommandParser.DirectionWords | src/main/java/pdp/aniachar/controller/CommandLineParser.java:121-138 | Each direction's full word and its first letter parse back to that direction. |
| CommandParser.ItemWords | src/main/java/pdp/aniachar/controller/CommandLineParser.java:108-119 | Each item noun's full word and its first letter parse back to that noun. |
| CommandParser.ParseUnparse | src/main/java/pdp/aniachar/controller/CommandLineParser.java:26-42 | Every interaction typed with its full words parses back to itself, including shots of any int distance. |
| CommandParser.ShortMove | src/main/java/pdp/aniachar/controller/CommandLineParser.java:56-67 | "m" and a direction's first letter mean the same move as the full words. |
| CommandParser.ShortPick | src/main/java/pdp/aniachar/controller/CommandLineParser.java:56-67 | "p" and an item's first letter mean the same pick as the full words. |
| Text.Trim | src/main/java/pdp/aniachar/controller/CommandLineParser.java:27 | `String.trim`: strips every character at or below U+0020 from both ends and nothing else; the result neither starts nor ends with one. |
| Text.TrimIdempotent | src/main/java/pdp/aniachar/controller/CommandLineParser.java:27 | Trimming twice is trimming once. |
| Text.ToLower | src/main/java/pdp/aniachar/controller/CommandLineParser.java:27 | `toLowerCase` restricted to ASCII: the capitals A to Z become lower case, every other character is kept, the length is unchanged. |
| Text.ToLowerIdempotent | src/main/java/pdp/aniachar/controller/CommandLineParser.java:27 | Lowering twice is lowering once. |
| Text.Fields | src/main/java/pdp/aniachar/controller/CommandLineParser.java:28 | The pieces between spaces: none holds a space, and joined with single spaces they give back the string. |
| Text.Split | src/main/java/pdp/aniachar/controller/CommandLineParser.java:28 | `split(" ")`: a string without a space is its own single piece; no piece holds a space. |
| Text.NatToString | src/main/java/pdp/aniachar/dungeonmaster/character/player/PlayerBuilder.java:71-72 | The decimal digits of a number. |
| ClickDirection.GetHeading | src/main/java/pdp/aniachar/view/GraphicUserInterface/MazeGridPanel.java:267-273 | The sign of the difference, reversed when the difference is one short of the axis length; zero exactly when the difference is zero. |
| ClickDirection.HeadingShortWay | src/main/java/pdp/aniachar/view/GraphicUserInterface/MazeGridPanel.java:267-273 | A difference of ±1 is headed for directly. A difference one short of the axis length, the neighbour across the wrapping edge, is headed for the other way round. |
| ClickDirection.HeadingDirection | src/main/java/pdp/aniachar/view/GraphicUserInterface/MazeGridPanel.java:241-264 | No direction when both or neither heading is zero; otherwise West, East, North or South by the non-zero heading's sign. |
| ClickDirection.GetDirectionAsWritten | src/main/java/pdp/aniachar/view/GraphicUserInterface/MazeGridPanel.java:237-265 | The source's rule: a move exactly when the click shares the row or the column but not both, East/West exactly on the same row. The column difference is measured against the row count. |
| ClickDirection.GetDirection | src/main/java/pdp/aniachar/view/GraphicUserInterface/MazeGridPanel.java:237-265 | The rule with each difference measured against its own axis; a move exactly when the click shares the row or the column but not both. |
| ClickDirection.ClickUpDown | src/main/java/pdp/aniachar/view/GraphicUserInterface/MazeGridPanel.java:258-264 | On a grid of at least three rows, the row above or below, round the edge, is North or South. |
| ClickDirection.ClickAcross | src/main/java/pdp/aniachar/view/GraphicUserInterface/MazeGridPanel.java:250-257 | On a grid of at least three columns, the column to the left or right, round the edge, is West or East. |
| ClickDirection.ClickNeighbour | src/main/java/pdp/aniachar/view/GraphicUserInterface/MazeGridPanel.java:237-265 | On a grid of at least 3×3, clicking any neighbour of the player's cell asks for the move to it, wrap included. |
| ClickDirection.WrongWayRoundAsWritten | src/main/java/pdp/aniachar/view/GraphicUserInterface/MazeGridPanel.java:238-239 | On a wrapping 10×12 maze, clicking (0, 11) from (0, 0) is the West neighbour, but the rule as written sends the player East. |
| Items.Arrow.constructor | src/main/java/pdp/aniachar/dungeonmaster/item/Arrow.java:16 | A new arrow lies nowhere until it is placed. |
| Characters.NewOtyughs | src/main/java/pdp/aniachar/dungeonmaster/character/monster/Otyughs.java:49-59 | A blank name is refused with "Name cannot be blank" and no smell changes. Otherwise the monster is built as the constructor says. |
| Characters.NewQuietOtyughs | src/main/java/pdp/aniachar/dungeonmaster/character/monster/Otyughs.java:69-80 | A blank name is refused with "Name cannot be blank". Otherwise the monster is built as Quiet says. |

## Left out

- The Swing and text views, the controllers and the event bus are left out as input and output plumbing. That includes `DungeonGame`'s monster listeners (DungeonGame.java:138-161) and `Otyughs.roar` (Otyughs.java:200-202), which only forward events to the view.
- `Otyughs.getAllItems` and `getName` (Otyughs.java:128-136) are not modelled: one only throws and the other only reads a field.
- Getters that only read a field are the fields themselves: `Player.getName`, `Player.getQuiver`, `isGameOver`, `getCurrentHealth` and `getActivePlayer`.
- `Player.equals` and `hashCode` (Player.java:128-148) are not modelled; players are compared as objects.
- `describe` and `toString` methods are text for the views and are left out.
- Randomness is input, not behaviour. `Collections.shuffle` is a permutation argument. Each `nextInt` is an element of a sequence of draws, and `randomTreasure` (RandomMazeBuilder.java:98-101) is such a draw.
- Iteration order is a parameter. The order of a HashSet of move actions is a permutation of the four directions, and the order in which the builder lists its cells is the `listing` argument.
- Bfs.EnqueueNeighbours: the moves of the cell taken off the queue are visited in the fixed order of `AllDirections`, not in the HashSet iteration order of the Java loop. The distances recorded are the same in every order; the order of the queue is not.
- Health is a Java `double`; the model uses `int`. Only 100, 50, 1, 0 and differences of whole numbers ever occur.
- The "Game is in a bad state" exceptions, and the wrapping of `NoSuchMethodException` in `interact`, guard states the model's invariants rule out and are left out.
- `DungeonGame.getPossibleActions` (DungeonGame.java:75-77) only delegates to `MazeLocation.possibleActions`, which is modelled.
- `buildWorld` (RandomMazeBuilder.java:104-109) only runs the three building steps in turn, and the `Maze` object it returns is not part of this model.
- MazeBuilder.RandomMazeBuilder.DistanceBetweenNodes: proved to return the length of some walk, not the shortest one, because the source overwrites recorded distances and can return a longer walk on a maze with cycles.
- MazeBuilder.RandomMazeBuilder.GetStartingEndPoint: the redraw loop, which in the source may run for ever, is bounded by the finite sequence of draws. It fails with `DrawsExhausted` when they run out, so termination is not modelled.
- The "Cannot build a path" exception (RandomMazeBuilder.java:292-294) follows a loop that only exits with a far end, so it is unreachable and not modelled.
- MazeBuilder.TreasureTarget: uses unbounded integers, so an int overflow of `numCaves * percent` is not modelled; it would need over 21 million caves.
- Location.MazeLocation.RemoveItem: modelled as written. With two equal treasures in a cell, removing one drops the pick map's only entry for that treasure kind, and the remaining treasure is left without one.
- Flight.Fly: its own contract only says the visited cells grow. Where the arrow lands and how many caves it counts are stated by FlyReaches, FlyWithinDistance and FlyLandsVisited.
- Characters.Player.constructor: a Dafny constructor cannot fail, so the blank-name check ("Player cannot be blank") is a precondition here. The refusal itself is stated by Characters.NewPlayer.
- Characters.Otyughs.constructor: a Dafny constructor cannot fail, so the blank-name check is a precondition here. The refusal itself is stated by NewOtyughs and NewQuietOtyughs (and by NewPlayer for players).
- Game.DungeonGame.constructor: a Dafny constructor cannot fail, so the blank-name check is a precondition here. The refusal itself is stated by Game.NewDungeonGame.
- Text.ToLower: models `toLowerCase` on ASCII only. The locale-dependent and non-ASCII mappings of Java are left out (the Kelvin sign U+212A lowering to `k`, `İ` U+0130 lowering to two characters, the Turkish locale's dotless i), since command words are ASCII.
- CommandParser.ParseInt: accepts only the ASCII digits 0 to 9. `Integer.parseInt` also accepts other Unicode decimal digits (such as the fullwidth `３` U+FF13); those are left out because the parser's numbers are typed in ASCII.
- The earlier `dungeonmaster/player` revision of the player, and the thin command and builder wrappers around the modelled actions, are not part of this model.

## Findings

| source | as written | input that shows it | evidently intended | confidence | as-written member | corrected member |
|---|---|---|---|---|---|---|
| src/main/java/pdp/aniachar/view/GraphicUserInterface/MazeGridPanel.java:238-239 | The column difference is wrapped against the number of rows and the row difference against the number of columns. | A wrapping maze of 10 rows and 12 columns, player at (0, 0), click on (0, 11), its west neighbour across the edge: the column difference 11 is compared with 10 rows, so the player is sent East. | Each difference is wrapped against its own axis, so a click on a neighbour across the edge moves towards it (West here). | not executed | `ClickDirection.GetDirectionAsWritten`, `ClickDirection.WrongWayRoundAsWritten` | `ClickDirection.GetDirection`, `ClickDirection.ClickNeighbour` |
