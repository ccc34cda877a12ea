# Paper.io grid engine in Dafny

This project models the game engine of a two-player Paper.io clone written in Python with
pygame. Each player owns a territory of grid cells. Leaving the territory draws a trail.
Bringing the trail home captures the trail and the pockets it closes against the
boundary. Crossing a trail, leaving the field, a head-on collision or standing in someone
else's fresh capture eliminates a player.

The model is functional. Cells are integer points, territories are `set<Point>`, trails
are `seq<Point>`, and players are immutable records. One game tick is a function from a
roster of players to the next roster.

| file | module | models |
|---|---|---|
| `wrappers.dfy` | `Wrappers` | `Option` |
| `settings.dfy` | `Settings` | the configuration constants, as a `Config` record |
| `geometry.dfy` | `Geometry` | `helpers.py`: neighbourhoods and the crossing-parity `in_polygon` test |
| `territory.dfy` | `Territories` | `game_objects/territory.py` |
| `bonuses.dfy` | `Bonuses` | `game_objects/bonuses.py` |
| `player.dfy` | `Players` | `game_objects/player.py`, including `Player2` |
| `scene.dfy` | `Scene` | `game_objects/scene.py`: `collision_resolution`, `is_player_lose` and the non-drawing body of `__update` |

## Modelling choices

- **Player identity.** Python compares players by object identity (`p != player`, dictionary
  keys). In the model a player is its index in the roster during one tick. The game's
  `losers` list persists across ticks, but a player removed once is never in the roster
  again. The model therefore keeps only the set of this tick's loser indices.
- **The grab table.** The `players_grabs` dictionary becomes a `seq<Grab>` in insertion
  order, which is roster order. Each `Grab` records the owner's index, the owner's head and
  the proposed cells.
- **Configuration.** The constants are fields of `Config`:
  - the field size and `LINE_KILL_SCORE`, which `config.py` defines;
  - `NEUTRAL_TERRITORY_SCORE`, `ENEMY_TERRITORY_SCORE`, `MOVEABLE_TICKS`, the W/A/S/D key
    codes and `NITRO1/2`, which the code uses but `config.py` does not define.

  The arrow-key codes are a `KeyMap` field too.
- **Shortest path.** The boundary graph's shortest-path search comes from a graph library.
  It is a function-valued parameter `PathFinder`: given the boundary and two of its cells,
  it returns a path or fails. `ValidFinderOn` states what the search promises: a simple
  walk along the boundary graph between the two cells. Only the void-shape lemma relies on
  that promise.
- **Boundary indices.** `get_graph` numbers boundary cells by their position in the boundary
  list. Its edges join boundary cells that are 8-neighbours. The model keeps the boundary as
  a set and lets the search work on cells directly. The numbering is a bijection, so no
  information is lost.
- **Exact arithmetic in `in_polygon`.** The crossing test divides in floating point. The model
  uses exact `real` arithmetic. For integer coordinates the two agree:
  - when the exact crossing abscissa is an integer, the float computation is exact;
  - otherwise the abscissa is a fraction with denominator at most the polygon's height, so
    it stays at least that far from every integer, far more than the rounding error on
    grid-sized numbers.
- **Bonus effects.** `apply` and `cancel` act on a `Perks` record: the move cadence, the
  extra-life flag and the list of held bonuses. `bonuses.py` imports `player.py`, so acting
  on `Perks` keeps the two modules acyclic.
- **`tick_action`.** `Player.tick_action` removes a bonus from the list it is iterating over,
  so the bonus that moves into the freed slot is skipped.
  - `TickActionFrom` models this as written.
  - `IntendedTickFrom` is the loop that examines every bonus.
  - `TickActionAsIntended` proves the two agree whenever no two Nitros are held.
    `ApplyKeepsOneNitro` shows that picking bonuses up keeps it that way.

The model follows the code where it departs from the natural reading of the rules:

- A non-empty raw capture clears the trail and earns the neutral rate at once, before
  collisions are resolved (`GrabOne`). A grab later lost to a collision has still cleared
  the trail and earned that score.
- `collision_resolution` drops only the entries of players who are eaten. A player caught by
  `is_player_lose` in the same tick keeps its resolved grab. The commit still hands that grab
  over and debits the other players, and then the loser is removed
  (`RunStages`, `TickTerritories`).
- Elimination follows the line order of `__update`. The lose conditions are read after
  every player has moved and proposed its capture. A capturing player's trail is already
  empty at that point.

## Model

| member | source | states |
|---|---|---|
| `Geometry.DiagonalNeighbours` | helpers.py:35-42 | four distinct cells, exactly the cells one diagonal step away |
| `Geometry.VertHorizNeighbours` | helpers.py:45-52 | four distinct cells, exactly the cells at Manhattan distance 1 |
| `Geometry.Neighbours` | helpers.py:55-62 | eight distinct cells, exactly those at Chebyshev distance 1, never the cell itself |
| `Geometry.NeighboursSymmetric` | helpers.py:55-62 | q is a neighbour of p if and only if p is a neighbour of q |
| `Geometry.Crosses` | helpers.py:75-76 | an edge that toggles the parity is never horizontal, so the division is never by zero |
| `Geometry.InPolygonScan` | helpers.py:65-79 | the one-edge-per-iteration loop computes the crossing parity over all edges; an empty vertex list is outside |
| `Geometry.ParityAppend` | helpers.py:73-79 | the parity of a concatenation of edge lists is the exclusive-or of the parts' parities |
| `Geometry.InPolygonRotate` | helpers.py:74-76 | the polygon is closed: starting the vertex list at the next vertex gives the same answer |
| `Territories.NewTerritory` | game_objects/territory.py:9-12 | a new territory is exactly the 3×3 block around the spawn cell (9 cells) and is marked changed |
| `Territories.Boundary` | game_objects/territory.py:14-22 | exactly the owned cells with an unowned 8-neighbour; a subset of the territory |
| `Territories.InteriorSurrounded` | game_objects/territory.py:14-22 | an owned cell off the boundary has all eight neighbours owned |
| `Territories.GraphEdgeSymmetric` | game_objects/territory.py:28-34 | the boundary graph is undirected and has no self-loops |
| `Territories.IsSiblings` | game_objects/territory.py:60-62 | siblings are exactly orthogonal neighbours |
| `Territories.StartPoints` | game_objects/territory.py:36-42 | exactly the boundary cells within Chebyshev distance 1 of the given cell, itself included |
| `Territories.IndexOf` | game_objects/territory.py:90 | the first position of the cell in the trail, like `list.index` |
| `Territories.VoidsFromStartsShape` | game_objects/territory.py:70-88 | for start points within one cell of trail cell j, every void the start-point loop emits is a trail slice followed, for a valid search, by a boundary walk back towards the slice's first cell |
| `Territories.VoidsFromLineShape` | game_objects/territory.py:68-88 | the loop over the earlier trail cells, skipping start points next to the previous one, emits only voids of that shape |
| `Territories.VoidsFromNeighboursShape` | game_objects/territory.py:66-88 | the loop over the eight neighbours of a trail cell emits only voids of that shape |
| `Territories.VoidsFromShape` | game_objects/territory.py:65-93 | the outer loop over the whole trail emits only voids of that shape |
| `Territories.VoidsShape` | game_objects/territory.py:64-94 | every void is non-empty and opens with a contiguous slice of the trail; when the search keeps its promise, the rest is a boundary walk from next to the slice's last cell to within one cell of its first |
| `Territories.Max` | game_objects/territory.py:48-49 | the maximum is one of the values and bounds all of them |
| `Territories.Min` | game_objects/territory.py:50-51 | the minimum is one of the values and bounds all of them |
| `Territories.ScanColumn` | game_objects/territory.py:55-57 | one column of the scan adds exactly the fill cells of that column to those of the columns to its right, keeping the scan order |
| `Territories.ScanFill` | game_objects/territory.py:44-58 | the nested descending scan yields exactly that fill, in strictly descending scan order |
| `Territories.FillAll` | game_objects/territory.py:122-123 | the union of the fills is exactly the cells in the fill of some void |
| `Territories.Capture` | game_objects/territory.py:107-126 | the result is empty unless the trail has two cells and ends inside; it never holds an owned cell; it holds every unowned trail cell and every fill cell of every void, and nothing else; owned cells are untouched; the changed flag is set exactly when something is captured |
| `Territories.RemovePoints` | game_objects/territory.py:130-139 | returns exactly the given cells that were owned; the remaining cells are the old ones minus the input; the changed flag is set exactly when something is removed |
| `Territories.Split` | game_objects/territory.py:141-169 | fails exactly on an empty trail; otherwise a cell is removed exactly when it is owned, some trail cell is owned, and it lies on the far side of the first trail cell along the axis the direction selects; removed and kept cells partition the old territory; nothing is removed when no trail cell is owned or the direction is no arrow key; every kept cell lies strictly on the player's side; the changed flag is set when something is removed |
| `Territories.SplitTwice` | game_objects/territory.py:141-169 | cutting a second time along the same trail removes nothing and leaves the territory as it is |
| `Bonuses.NewBonus` | game_objects/bonuses.py:12-27 | a new bonus sits on its cell, has counted no ticks, lasts 10 ticks, and its remaining ticks equal its duration |
| `Bonuses.IsEaten` | game_objects/bonuses.py:23-24 | a bonus is taken exactly when the head is on its cell or its cell is among the captured cells |
| `Bonuses.CaptureEatsTrailBonus` | game_objects/bonuses.py:23-24 | a bonus lying on an unowned cell of a closed trail is taken by the capture; one inside the territory is taken only by the head |
| `Bonuses.FirstNitro` | game_objects/bonuses.py:46 | the position of the first held Nitro, or none exactly when no Nitro is held |
| `Bonuses.Apply` | game_objects/bonuses.py:45-63 | a Nitro extends the first held Nitro by its duration with the list length unchanged, or is appended when none is held; an ExtraLife is appended and sets the flag; the base bonus does nothing |
| `Bonuses.CancelAfterApply` | game_objects/bonuses.py:45-66 | cancelling a picked-up ExtraLife clears the flag and keeps the cadence and the held list; cancelling a picked-up Nitro restores the normal cadence and keeps the extra life; cancelling twice is cancelling once |
| `Bonuses.ApplyKeepsOneNitro` | game_objects/bonuses.py:45-50 | picking up bonuses never leaves a player holding two Nitros, and picking up a Nitro leaves exactly one |
| `Players.NewPlayer` | game_objects/player.py:9-41 | a new player stands still on the spawn cell with an empty trail, zero scores, tick 0, heading up, and a 9-cell territory that contains the spawn cell |
| `Players.NewPlayer2` | game_objects/player.py:118-130 | the second player stands still on the spawn cell with an empty trail, zero scores, tick 0, no perks, the same 9-cell territory as the first player, the W/A/S/D keys, the second Nitro key, and heading W |
| `Players.TrueDirection` | game_objects/player.py:57-69 | the x displacement decides first; the y displacement decides only when x did not move; no displacement gives none |
| `Players.ChangeDirection` | game_objects/player.py:43-55 | only the heading can change; a key that is no move command changes nothing; a new heading is the command and is not the reverse of the true direction |
| `Players.ChangeDirectionNoReverse` | game_objects/player.py:43-55 | with distinct keys, every command that is not the reverse of the true direction is taken, none that is, and the no-reverse invariant is kept |
| `Players.Move` | game_objects/player.py:71-80 | the old position becomes the previous one; a known heading moves exactly one cell on one axis; an unknown heading stays put |
| `Players.MoveThenTrueDirection` | game_objects/player.py:57-80 | with distinct keys, a move goes one cell in the heading's direction and reads back as that true direction |
| `Players.NoUTurn` | game_objects/player.py:43-80 | under the no-reverse invariant, a move keeps the invariant and never reverses the previous displacement |
| `Players.NewPlayerNoReverse` | game_objects/player.py:12-35 | both kinds of new player start with the no-reverse invariant |
| `Players.UpdateLineStartsOutside` | game_objects/player.py:82-84 | the partner of `UpdateLine` (`update_line`): a trail that starts outside the territory still does once the head joins it; the old trail is kept as a prefix, and a non-empty trail ends at the head |
| `Players.IsEaten` | game_objects/player.py:89-98 | reports a player exactly when some other player's entry holds the head, and the reported player is another one whose grab holds it |
| `Players.NitroFrom` | game_objects/player.py:100-107 | every held Nitro from the given position on is flagged; the cadence becomes 1 or the normal cadence only if such a Nitro exists |
| `Players.NitroSwitch` | game_objects/player.py:100-107 | without a Nitro nothing changes; with one, switching on sets the cadence to 1 and off restores the normal cadence; every held Nitro is flagged, every other bonus and the extra life are untouched |
| `Players.TickActionAsIntended` | game_objects/player.py:109-115 | while no two Nitros are held, the countdown as written equals the countdown that examines every bonus |
| `Players.TickActionFromFrame` | game_objects/player.py:109-115 | the countdown keeps the extra life and the bonuses before the loop position, never gains a bonus, and leaves the cadence as it was or at the normal one |
| `Players.TickAction` | game_objects/player.py:109-115 | a tick of the countdown changes only the perks, keeps the extra life, never adds a bonus, and sets the cadence only back to normal |
| `Players.TickActionCountdown` | game_objects/player.py:109-115 | with one running Nitro, a tick counts it one tick further; on reaching its duration it is dropped and the normal cadence returns; every other bonus, the extra life and the rest of the player stay as they were |
| `Players.TickActionIdle` | game_objects/player.py:109-115 | without a running Nitro a tick of the countdown changes nothing |
| `Scene.Survivors` | game_objects/scene.py:144 | keeps exactly the entries whose owner is not eaten by the table |
| `Scene.ClaimsOfOthersMembers` | game_objects/scene.py:146-149 | the claims against a player are exactly the cells of the entries of the other players |
| `Scene.ClaimedByOther` | game_objects/scene.py:146-149 | every cell of another player's entry is a claim against the player |
| `Scene.CollisionResolution` | game_objects/scene.py:143-150 | one entry per uneaten player, in order, with its owner and head, each a subset of the raw grab; grabs of distinct players are disjoint |
| `Scene.ResolutionCells` | game_objects/scene.py:145-150 | a resolved entry keeps exactly the cells of its grab that no other surviving entry claims |
| `Scene.ResolutionKeepsUneaten` | game_objects/scene.py:144-149 | with one entry per player, a player has a resolved entry exactly when it is not eaten |
| `Scene.ContestedCellsDropped` | game_objects/scene.py:145-150 | a cell that two uneaten players both claimed is in neither player's resolved grab |
| `Scene.ResolutionWellFormed` | game_objects/scene.py:143-150 | resolution keeps owners distinct and within the roster, and makes grabs pairwise disjoint |
| `Scene.LineCrossFrom` | game_objects/scene.py:162-166 | the trail is crossed exactly when some head lies on it; exactly the other players on it earn the line-kill bonus |
| `Scene.HeadOnFrom` | game_objects/scene.py:169-172 | true exactly when another player shares the head and has a trail no longer than this player's |
| `Scene.IsPlayerLose` | game_objects/scene.py:153-178 | loses exactly when out of the field, on its own older trail, with any head on its older trail, in a lost head-on collision, or with no territory; every other player whose head is on its older trail earns the line-kill bonus once |
| `Scene.HeadOnEqualBothLose` | game_objects/scene.py:169-172 | in a head-on collision with equal trail lengths both players lose |
| `Scene.HeadOnLongerLoses` | game_objects/scene.py:169-172 | in a head-on collision the player with the trail at least as long loses |
| `Scene.InitThenNewest` | game_objects/scene.py:158 | the trail without its newest cell, with that cell put back, is the trail; it is the trail's prefix one shorter |
| `Scene.CatchLosers` | game_objects/scene.py:221-224 | the losers are exactly the players meeting a lose condition; only pending scores change |
| `Scene.CatchLosersScore` | game_objects/scene.py:221-224 | each player's pending score grows by the line-kill bonus once per trail its head lies on |
| `Scene.MovesPeriodic` | game_objects/scene.py:206 | whether a player moves repeats with the period of its cadence, and a player at cadence 1 moves every tick |
| `Scene.Advance` | game_objects/scene.py:202-207 | every counter advances by one; a mover with a known heading goes one cell along one axis and its previous position is its old head; a player not due keeps head and previous position; nothing else changes |
| `Scene.GrabOne` | game_objects/scene.py:211-218 | a player that does not move proposes nothing; a mover proposes its territory's capture of the extended trail, which shares no cell with the territory; a non-empty proposal clears the trail and earns the neutral rate per cell; the territory is unchanged |
| `Scene.Collect` | game_objects/scene.py:210-215 | each entry belongs to a mover and records its proposal and head; owners strictly increase |
| `Scene.CollectCovers` | game_objects/scene.py:210-215 | every mover's entry, with its head and its proposal, is in the table |
| `Scene.Propose` | game_objects/scene.py:210-218 | exactly the players due to move propose a grab; heads and territories stay as they were |
| `Scene.LookupMembers` | game_objects/scene.py:237 | with one entry per player, exactly the cells of that player's entry; empty when it has none |
| `Scene.Debit` | game_objects/scene.py:243-245 | a debited player keeps its cells minus the grab |
| `Scene.CommitOneAt` | game_objects/scene.py:241-247 | the grabber gains the grab and is credited the enemy-minus-neutral rate for each cell the other players owned, every other player loses the grab, only territories and pending scores change, and with enemy rate at least neutral no pending score falls |
| `Scene.CommitOneDisjoint` | game_objects/scene.py:241-247 | a commit step keeps territories pairwise disjoint, whatever the grab |
| `Scene.CommitStepAt` | game_objects/scene.py:236-247 | one iteration of the commit loop carries each player's cells one grab further, changes only territories and pending scores, and lowers no pending score when the enemy rate is at least the neutral rate |
| `Scene.CommitFromFrame` | game_objects/scene.py:236-247 | the commit changes only territories and pending scores |
| `Scene.CommitFromScores` | game_objects/scene.py:236-247 | when the enemy rate is at least the neutral rate, the commit never lowers a pending score |
| `Scene.CommitFromDisjoint` | game_objects/scene.py:236-247 | the commit keeps territories pairwise disjoint |
| `Scene.CommitFollowsCells` | game_objects/scene.py:236-247 | the commit loop carries each player's cells through the resolved grabs in roster order, adding its own grab and removing every other |
| `Scene.CellsAfterExact` | game_objects/scene.py:236-247 | with disjoint grabs and one entry per player, carrying cells through the grabs from player i on removes every other player's grab from i on and adds the player's own unless it is already passed |
| `Scene.CommitExact` | game_objects/scene.py:236-247 | with disjoint grabs and one entry per player, each player ends with its old cells minus the other players' grabs plus its own grab |
| `Scene.Kept` | game_objects/scene.py:250-252 | only roster indices that are not losers, in strictly increasing order |
| `Scene.KeptComplete` | game_objects/scene.py:250-252 | every roster index that is not a loser is kept |
| `Scene.RemoveLosers` | game_objects/scene.py:250-253 | the roster without the losers, in the original order |
| `Scene.RemoveLosersDisjoint` | game_objects/scene.py:250-253 | dropping losers keeps territories pairwise disjoint |
| `Scene.Settle` | game_objects/scene.py:255-258 | after banking nothing is pending, score plus pending score is conserved for every player, and nothing else changes |
| `Scene.SettleTwice` | game_objects/scene.py:255-258 | banking a second time changes nothing |
| `Scene.EatenLosers` | game_objects/scene.py:230-233 | exactly the players whose head lies in another player's resolved grab |
| `Scene.TickLosers` | game_objects/scene.py:221-233 | a player loses the tick exactly when it meets a lose condition after the proposals, or its head lies in another player's resolved grab |
| `Scene.Tick` | game_objects/scene.py:201-258 | losers are roster indices; the survivors are the non-losers in roster order, each with its pending score settled to zero |
| `Scene.TickBanksScores` | game_objects/scene.py:216-258 | each survivor's score after the tick is its score before it plus the pending score it holds after every kill bonus, capture credit and debit of the tick |
| `Scene.ProposalsKeepTerritories` | game_objects/scene.py:202-224 | moving, proposing captures and catching losers leave every territory as it was |
| `Scene.TickKeepsTerritoriesDisjoint` | game_objects/scene.py:201-258 | pairwise disjoint territories stay pairwise disjoint across a tick |
| `Scene.TickTerritories` | game_objects/scene.py:227-253 | each survivor ends the tick with its old cells, minus the resolved grabs of every other player of the tick (losers included), plus its own resolved grab |
| `Scene.TickScoresMonotone` | game_objects/scene.py:216-258 | when 0 ≤ line-kill, 0 ≤ neutral ≤ enemy and pending scores start non-negative, no survivor's score falls |

## Left out

- Rendering and scene plumbing are not modelled because they are display and I/O, not
  engine state. This covers `Cell`, `Grid`, `TitleScene`, the `__draw_*` methods,
  `__clear_board_from_loser`, `HeadUpDisplay`, the player colours, `render` and
  `process_input`. Turning on a key press is modelled by `ChangeDirection`.
- `__update_scene_status` (game_objects/scene.py:275-294) is left out. It decides the end of
  the game from rendered cell colours.
- The main loops `app.py`, `template.py` and `template2.py`, and `game_objects/mob.py`, are
  not part of this model. They are frame loops, and `mob.py` is commented out.
- Random spawn positions (`get_random_coordinates`) are left out. A spawn cell is a parameter
  of `NewPlayer`.
- The graph library's shortest-path search is a parameter, not a model.
  - The voids computed from it are exact for the given search.
  - How that library breaks ties depends on the iteration order of a Python set, which is
    not modelled.
- `Bonus.activate` and the base `apply` and `cancel` are empty and are represented by the
  `Plain` kind. The `is_available_point` import of `bonuses.py` names a function `helpers.py`
  does not define, and is ignored.
- `tick_action` is modelled even though the scene does not call it; the call at
  game_objects/scene.py:239 is commented out.
- Floating-point rounding in `in_polygon` is replaced by exact arithmetic (see above).
- `MOVEABLE_TICKS` is assumed to be at least 1 (the type `Settings.Cadence`). The constant
  is not defined in the source, and `tick % moveable_tick` would fail on 0.
- Players.TickAction: the countdown itself is stated for a single running Nitro
  (`TickActionCountdown`) or none (`TickActionIdle`). With two running Nitros the loop as
  written skips one; `TickActionAsIntended` covers the reachable case.
- Scene.TickScoresMonotone: assumes `0 <= LINE_KILL_SCORE` and
  `0 <= NEUTRAL_TERRITORY_SCORE <= ENEMY_TERRITORY_SCORE`, because two of these constants are
  not defined in the source.
- `split` has no caller in the game; it is modelled on its own. On an empty trail it raises
  an index error, which the model returns as `None`.
- Scene.CommitOne, Scene.CommitStep and Scene.CommitFrom state only their lengths; what
  they do to each player is stated by `CommitOneAt`, `CommitStepAt`, `CommitFromFrame`,
  `CommitFromScores`, `CommitFromDisjoint`, `CommitFollowsCells` and `CommitExact`.
- Scene.CommitOne: the inner loop over the other players is a map plus one summed credit to
  the grabber. The loop touches each other player once, so the territories are the same.
  The per-iteration credits add up to the same total.
