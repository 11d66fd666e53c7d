# codingame-rust in Dafny

This project models the deterministic cores of the CodinGame bots in
`fabienjuif/codingame-rust` and proves properties about them. Every bot is one
Rust file, `src/bin/<puzzle>.rs`, that reads the referee's input and prints a
command each turn. The model keeps the state and the decisions. It leaves out
the reading and the printing.

| Dafny file | module | bot it models |
|---|---|---|
| `wrappers.dfy` | `Wrappers` | `Option` and `Result`. A Rust panic becomes `None` or `Err`. |
| `vec_ops.dfy` | `VecOps` | The `Vec` operations the bots rely on: the stable `sort_by`, `swap_remove`, `reverse`, `position`. |
| `astar.dfy` | `AStar` | The A\* search shared by the-labyrinth and code-a-la-mode. It is generic in the neighbour rule and the cell cost. |
| `astar_cost.dfy` | `AStarCost` | Cost-optimality of that A\* search on graphs whose steps move one unit. |
| `flat_grid.dfy` | `FlatGrid` | The row-major `Vec<Cell>` grid shared by the-labyrinth, code-a-la-mode and dont-panic. |
| `labyrinth.dfy` | `Labyrinth` | the-labyrinth: the grid, the explore/return controller and the move printed. |
| `items.dfy` | `Items` | code-a-la-mode: item names, item lists and their difference. |
| `kitchen.dfy` | `Kitchen` | code-a-la-mode: the 8-way grid and the kitchen bookkeeping. |
| `network.dfy` | `Network` | death-first-search episodes 1 and 2: the link graph, both breadth-first searches and the cut chosen each turn. |
| `card_war.dfy` | `CardWar` | winamax-battle: card parsing and the battle/war loop. |
| `territory.dfy` | `Territory` | back-to-the-code: the 35 x 20 territory grid. |
| `elevators.dfy` | `Elevators` | dont-panic episode 1: the elevator grid and the BLOCK/WAIT rule. |
| `bomb_search.dfy` | `BombSearch` | shadows-of-the-knight episode 1: the bisection window. |
| `zombie_grid.dfy` | `ZombieGrid` | code-vs-zombies: the lazily filled cell map and the per-turn bookkeeping. |

## Imperative and pure parts

Code that mutates state is modelled as a Dafny `class`. Its methods have
`modifies` clauses and loops with invariants. Each such method is proved equal
to a pure function of the old state. The properties are then proved about those
functions.

For example, `AStar.FindPath` runs the `while open.len() > 0` loop of
`Grid::astar` and is proved equal to `AStar.Search`. `Search` is proved to
return a path that chains through neighbours and ends at the target. It returns
an empty path only when the target is unreachable.

Where the source only computes, the model is a function. Its contract states
what the result means.

## Points to know

### Grids and lookups
- **Flat-index lookup.** Cell lookup in the-labyrinth, code-a-la-mode and
  dont-panic checks only the flat index `width * y + x` against the vector
  length. So x = -1 reaches the last cell of the previous row. The model keeps
  this (`FlatGrid.LeftOfFirstColumnWraps`). dont-panic catches the wrap with
  its asserts, so its lookup fails exactly off the rectangle
  (`Elevators.CheckedInside`).
- **Cell equality in back-to-the-code.** `PartialEq` and `Hash` for `Cell`
  ignore the debug tag. The model's sets of cells use structural equality.
  `Territory.CellEquality` shows that the two agree up to the tag.

### The A\* search
- **Tie-break.** `open.sort_by` sorts by descending f and then `open.pop()`
  takes the last record. Among records with equal f, this picks the one that
  sits latest in `open`. `VecOps.SortDescLast` states this.
- **Frontier order.** The roaming loop sorts the Unknown cells by descending
  distance and pops. So among equally near cells it tries the one latest in
  row-major order first, not the earliest. The model follows the code here
  too.
- **Goal test.** The search stops on the target as soon as it is generated as a neighbour, not when a
  record is popped.
- **Re-opening.** A closed record is re-opened only by a strictly smaller f.
- **Cheapest paths.** The returned path is proved cheapest when every step
  reachable from the start moves one unit, as the search's four-way comment
  expects. The flat-index wrap breaks that assumption on the labyrinth's edge
  columns. There a step of cost 1 can cross a whole row, and the search may
  return a dearer path than one through the wrap (`Labyrinth.WrapShortcut`).
  code-a-la-mode's eight-way grid breaks it too.

### The graph searches
- **Episode 1 versus episode 2.** Both files declare the same `Node` and `Game`
  operations, so `Network.Graph` models them once. The two searches for the
  closest gateway differ only in how they record the start. Episode 1 records it
  as its own parent; `Network.StartAsParent` models that.
- **Nearest gateway.** The search pops from the back and splices new links in
  at the front, so it is breadth-first. Nodes are marked seen only when they
  are popped, so a node can be queued more than once. The proof gives every
  queue entry a label, its level. The labels never rise from front to back and
  span at most two values. So the first gateway popped is one of least
  link distance (`Network.ClosestNearest`).
- **Nodes with the most gateway links.** `main` cuts toward `nodes[0]`, so the
  order of that list matters. `Network.Visits` lists the nodes in the order the
  loop pops them. `Network.AtCount` keeps those with a given count, and
  `Network.Dedup` keeps first occurrences, as `nodes.contains` does. The loop
  result is the popped nodes at the highest count, in that order
  (`Network.MoreExitsOrder`).

### Integers
- **Truncating division.** Rust's `/` truncates toward zero. It is written out
  as `BombSearch.TruncHalf`. `BombSearch.LeapRounding` shows that the
  difference from Dafny's division cannot change a jump.

## Model

| member | source | states |
|---|---|---|
| VecOps.InsertDesc | src/bin/the-labyrinth.rs:205 | Inserting one element gives the same multiset plus that element. |
| VecOps.InsertDescSorted | src/bin/the-labyrinth.rs:205 | Inserting into a descending sequence keeps it descending. |
| VecOps.SortDesc | src/bin/the-labyrinth.rs:205 | `sort_by(b.f.cmp(a.f))` gives a permutation of its input, sorted by descending key. |
| VecOps.SortDescLast | src/bin/the-labyrinth.rs:205-206 | Sort then pop yields an element of minimal key. Every element after it in the unsorted input has a strictly larger key, so the latest of the equal-key elements wins. |
| VecOps.SwapRemove | src/bin/the-labyrinth.rs:253-266 | `swap_remove(i)` moves the last element into slot i. The multiset loses exactly `s[i]`. |
| VecOps.ReverseAt | src/bin/the-labyrinth.rs:245 | Position k of the reversed path holds position `n-1-k` of the input. |
| VecOps.Reverse | src/bin/the-labyrinth.rs:245 | `reverse` keeps the length. |
| VecOps.LastIndexOf | src/bin/the-labyrinth.rs:338-346 | The last occurrence of a character in a row, or None when the row has none. |
| VecOps.IndexOf | src/bin/death-first-search-episode-2.rs:47-51 | `position` returns the first index holding the value, or None when there is no such index. |
| AStar.Manhattan | src/bin/the-labyrinth.rs:30-35 | The Manhattan distance is 0 exactly for equal points. |
| AStar.FindPoint | src/bin/the-labyrinth.rs:254-262 | The first record at a point, or None when no record is at that point. |
| AStar.RelaxRule | src/bin/the-labyrinth.rs:250-269 | The candidate is recorded exactly when no open record has a smaller f and no closed record has an f that is not larger. Records of other points stay put. |
| AStar.RelaxInv | src/bin/the-labyrinth.rs:217-269 | Relaxing a neighbour keeps the search invariant: one record per point, parents recorded with smaller g, f = g + h. |
| AStar.Chain | src/bin/the-labyrinth.rs:229-240 | Following parent links through `closed` gives a backward walk to the start. A missing parent is the `expect` panic. |
| AStar.Rebuild | src/bin/the-labyrinth.rs:225-247 | A reconstructed path drops the start. Its first point neighbours the start, each point neighbours the one before it, and it ends at the target. |
| AStar.PopInv | src/bin/the-labyrinth.rs:205-207 | Sorting, popping and pushing onto `closed` keeps the invariant and the set of recorded points. |
| AStar.StartInv | src/bin/the-labyrinth.rs:194-202 | The open list holding only the start record, with g = h = f = 0 and no parent, satisfies the search invariant. |
| AStar.ReverseBackLinked | src/bin/the-labyrinth.rs:245 | Reversing a backward walk gives a forward walk: each point of the reversed path neighbours the one before it. |
| AStar.Expand | src/bin/the-labyrinth.rs:217-270 | The neighbour loop ends with a path exactly when the target is a neighbour. Otherwise the invariant holds and the popped record stays closed. |
| AStar.Round | src/bin/the-labyrinth.rs:204-271 | One round keeps the invariant and keeps every explored record explored. |
| AStar.Run | src/bin/the-labyrinth.rs:204-273 | A non-empty result is a path to the target. An empty result after exploring everything means the target is unreachable. |
| AStar.Search | src/bin/the-labyrinth.rs:193-274 | A non-empty result is a path from start to target. The empty vector is returned only when no walk from the start reaches the target. Cost-optimality is in `AStarCost.SearchCheapest`. |
| AStar.NothingOpenComplete | src/bin/the-labyrinth.rs:204-273 | An exhausted open list with every closed record explored means the target is unreachable. |
| AStar.Reconstruct | src/bin/the-labyrinth.rs:225-247 | The `while let Some(parent)` loop, pop and reverse compute `Rebuild`. |
| AStar.RelaxNeighbour | src/bin/the-labyrinth.rs:250-269 | The open/closed updates for one neighbour compute `Relax`. |
| AStar.ExpandNeighbours | src/bin/the-labyrinth.rs:217-270 | The `for neighbor_point` loop computes `Expand`. |
| AStar.RunRound | src/bin/the-labyrinth.rs:205-270 | One pass of the `while` body computes `Round`. |
| AStar.RunStep | src/bin/the-labyrinth.rs:204-270 | One round with fuel left either ends the run with the rebuilt path or leaves the run from the new lists with one unit less. |
| AStar.Pass | src/bin/the-labyrinth.rs:204-270 | One pass of the `while` loop: the run ends with its path, or the invariant holds on the new lists and the rest of the run from them equals the run before the pass. |
| AStar.FindPath | src/bin/the-labyrinth.rs:193-274 | `Grid::astar` computes `Search`. Its result is therefore a path to the target, or empty only when the target is unreachable, and it is a cheapest path whenever `AStarCost.SearchCheapest` applies. |
| AStarCost.PathCostConcat | src/bin/the-labyrinth.rs:250 | The cost of a path is additive over concatenation. |
| AStarCost.PathCostReverse | src/bin/the-labyrinth.rs:245 | Reversing the rebuilt path keeps its cost. |
| AStarCost.PathCostAtLeastLength | src/bin/the-labyrinth.rs:153-164 | With every cell cost at least 1, a path costs at least its length. |
| AStarCost.Consistent | src/bin/the-labyrinth.rs:250-252 | Inside a region where every step moves one unit, g + h never decreases along a walk, so the Manhattan distance is a consistent heuristic there. |
| AStarCost.RecordInside | src/bin/the-labyrinth.rs:217-269 | Every record of the open and closed lists lies in the region reachable from the start. |
| AStarCost.RelaxImproves | src/bin/the-labyrinth.rs:250-269 | Relaxing a neighbour never loses a point's record or raises its best g. It leaves that neighbour recorded within the popped g plus the step cost. |
| AStarCost.ChainCost | src/bin/the-labyrinth.rs:229-240 | The parent chain from a closed record costs at most that record's g. |
| AStarCost.RebuildCost | src/bin/the-labyrinth.rs:225-247 | The rebuilt path costs at most the popped g plus the target's cost. |
| AStarCost.ExpandCost | src/bin/the-labyrinth.rs:217-270 | The neighbour loop records every neighbour within the popped g plus its step. A path it returns costs at most that g plus the target's cost. |
| AStarCost.Frontier | src/bin/the-labyrinth.rs:204-270 | Along any walk from the start, some point has an open record within the walk's cost so far, or the walk's end is closed within the walk's cost. |
| AStarCost.PopIsCheapest | src/bin/the-labyrinth.rs:205-207 | The open record of least f, when it neighbours the target, has a g no larger than the cost of any walk to a neighbour of the target. |
| AStarCost.PopLeast | src/bin/the-labyrinth.rs:205-207 | Sorting by descending f and popping takes an open record of least f. |
| AStarCost.PathAsWalk | src/bin/the-labyrinth.rs:225-247 | A path to the target is a walk from the start to a neighbour of the target plus the final step, at the same cost. |
| AStarCost.RoundCost | src/bin/the-labyrinth.rs:204-271 | A round either returns a cheapest path or keeps the cost invariant. That invariant: the start at g 0, every neighbour of a closed record recorded within its g plus the step, and no closed record next to the target. |
| AStarCost.PoppedFound | src/bin/the-labyrinth.rs:205-247 | A path found while expanding the open record of least f is a cheapest path. |
| AStarCost.PoppedGoesOn | src/bin/the-labyrinth.rs:205-270 | Expanding the popped record without meeting the target keeps the cost invariant. |
| AStarCost.NothingOpenNoPath | src/bin/the-labyrinth.rs:204-273 | An empty open list under the cost invariant means no path to the target exists. |
| AStarCost.RunCost | src/bin/the-labyrinth.rs:204-273 | Every path the loop returns is a cheapest path to the target. |
| AStarCost.SearchCheapest | src/bin/the-labyrinth.rs:193-274 | When every step reachable from the start moves one unit, a path returned by `astar` costs no more than any other path to the target. |
| FlatGrid.Blank | src/bin/the-labyrinth.rs:118-130 | `Grid::new` lays out `w*h` cells with index i at `(i % w, i / w)`, all of one type. |
| FlatGrid.LookupInside | src/bin/the-labyrinth.rs:139-151 | Inside the rectangle, the lookup finds the cell placed at that point. |
| FlatGrid.LookupOwnPos | src/bin/the-labyrinth.rs:139-151 | Every cell is found by looking up its own position. |
| FlatGrid.LookupFound | src/bin/the-labyrinth.rs:139-151 | A lookup that finds a cell with x inside the columns finds the cell at that point. |
| FlatGrid.LeftOfFirstColumnWraps | src/bin/the-labyrinth.rs:139-151 | x = -1 on row y finds cell `(width-1, y-1)`, because the lookup checks the flat index only. |
| FlatGrid.IndexInjective | src/bin/the-labyrinth.rs:139-141 | Two points inside the columns share a flat index only when they are equal. |
| FlatGrid.SetType | src/bin/the-labyrinth.rs:132-137 | Only the cell at the flat index changes type. Outside the vector nothing happens. |
| FlatGrid.SetTypeWellPlaced | src/bin/the-labyrinth.rs:132-137 | Setting a type keeps the layout. |
| FlatGrid.Keep | src/bin/the-labyrinth.rs:171-187 | The neighbour filter keeps exactly the positions of the candidate cells that exist and pass the test, in candidate order, and no more results than candidates. |
| FlatGrid.CollectNeighbours | src/bin/the-labyrinth.rs:171-187 | The `get_neighbors_points` loop computes `Keep`. |
| FlatGrid.PaintRowCells | src/bin/the-labyrinth.rs:337-348 | Character x of the row sets the cell at flat index `width*y + x`. Every other cell is unchanged. |
| FlatGrid.PaintRow | src/bin/the-labyrinth.rs:337-348 | Decoding a row keeps the number of cells. |
| FlatGrid.PaintRowWellPlaced | src/bin/the-labyrinth.rs:337-348 | Decoding a row keeps the layout. |
| Labyrinth.FromChar | src/bin/the-labyrinth.rs:58-66 | A character decodes to Unknown exactly when it is not one of `.#TC`. |
| Labyrinth.AsChar | src/bin/the-labyrinth.rs:48-56 | `from_char(as_char(t)) == t` for all five types. |
| Labyrinth.CellCost | src/bin/the-labyrinth.rs:153-164 | The cost is 10 exactly for a command room and `i32::MAX` exactly for a wall or a missing index. Otherwise (Empty, Start or Unknown) it is exactly 1. |
| Labyrinth.NeighborIsOpenCell | src/bin/the-labyrinth.rs:171-187 | Each neighbour is the position of an existing non-wall cell, costing 1 or 10. |
| Labyrinth.NeighborsComplete | src/bin/the-labyrinth.rs:171-187 | There are at most 4 neighbours. Any non-wall cell left, right, up or down inside the rectangle is one of them. |
| Labyrinth.PathProblem | src/bin/the-labyrinth.rs:193-274 | The grid's neighbour rule and cost form a valid search problem. |
| Labyrinth.WallIsUnreachable | src/bin/the-labyrinth.rs:193-274 | Searching for a wall, or a point outside the vector, yields the empty path. |
| Labyrinth.FreezeFacts | src/bin/the-labyrinth.rs:276-282 | `set_unknown_as_wall` keeps the layout, leaves no Unknown cell, changes nothing else and is idempotent. |
| Labyrinth.Grid.constructor | src/bin/the-labyrinth.rs:118-130 | `Grid::new` builds `w*h` Empty cells, row by row. |
| Labyrinth.Grid.SetCellType | src/bin/the-labyrinth.rs:132-137 | The grid becomes `SetType` of the old grid. |
| Labyrinth.Grid.GetNeighborsPoints | src/bin/the-labyrinth.rs:171-187 | The neighbour loop returns `Neighbors`. |
| Labyrinth.Grid.Astar | src/bin/the-labyrinth.rs:193-274 | `astar` on the current cells returns `Search`. On a grid whose edge columns are walls that path is a cheapest one (`Labyrinth.WalledAstarIsCheapest`). |
| Labyrinth.Grid.GetCell | src/bin/the-labyrinth.rs:139-151 | Inside the rectangle, the lookup finds the cell placed at the point. Any cell it finds shares the point's flat index. |
| Labyrinth.CellLookup | src/bin/the-labyrinth.rs:139-151 | In a well-placed grid, a point inside the rectangle finds its own cell, and a point outside finds at most the cell with the same flat index. |
| Labyrinth.Grid.SetUnknownAsWall | src/bin/the-labyrinth.rs:276-282 | The cells become `Freeze` of the old cells. |
| Labyrinth.FirstStep | src/bin/the-labyrinth.rs:359-362 | The first path point is a neighbour of the player. None means the target is unreachable. |
| Labyrinth.Unknowns | src/bin/the-labyrinth.rs:379-384 | The filtered cells are exactly the Unknown cells. |
| Labyrinth.TryCandidates | src/bin/the-labyrinth.rs:390-402 | A chosen candidate is one of the first four popped, every candidate popped before it had no path, and the step is a neighbour of the player. |
| Labyrinth.ReturnHome | src/bin/the-labyrinth.rs:352-363 | Return mode freezes Unknown cells into walls. It answers the first step toward the start, or the start itself only when no path exists. |
| Labyrinth.Explore | src/bin/the-labyrinth.rs:368-416 | Roaming changes no cell and answers a neighbour of the player. It answers None only when the command room is unknown or unreachable. A new `roam_to` is a candidate chosen by the frontier loop. |
| Labyrinth.Decide | src/bin/the-labyrinth.rs:350-417 | Once `hit_command` is set, the decision is the return mode. Otherwise it is roaming: the step is a neighbour, None means the command room is unknown or unreachable, and `roam_to` changes only to a roamed cell. |
| Labyrinth.StepNeverStays | src/bin/the-labyrinth.rs:371-373 | A neighbour is never the player's own point, so the `point != player_pos` guard always holds. |
| Labyrinth.DecideKeepsTarget | src/bin/the-labyrinth.rs:368-402 | The grid keeps its layout. `roam_to` always names a grid cell, and a newly chosen one was an Unknown cell. |
| Labyrinth.LocatedStep | src/bin/the-labyrinth.rs:337-348 | Reading one more character records its position when it is the looked-for character. |
| Labyrinth.Direction | src/bin/the-labyrinth.rs:452-470 | The printed move steps one unit closer to the next point; RIGHT when there is no next point. |
| Labyrinth.DirectionInvertsShift | src/bin/the-labyrinth.rs:452-470 | The printed move leads to the next point whenever that point is one move away. |
| Labyrinth.NeighborIsAdjacent | src/bin/the-labyrinth.rs:171-187 | Away from the first and last columns, every neighbour is one move away. |
| Labyrinth.RowInside | src/bin/the-labyrinth.rs:139-141 | A flat index inside the vector lies in a row of the grid. |
| Labyrinth.InnerStep | src/bin/the-labyrinth.rs:171-187 | With walled edge columns, a neighbour of an inner cell is an inner cell of the grid, one move away. |
| Labyrinth.WalledAstarIsCheapest | src/bin/the-labyrinth.rs:193-274 | With walled edge columns and the start inside them, a path returned by `astar` is a cheapest path. |
| Labyrinth.WrapShortcut | src/bin/the-labyrinth.rs:139-141 | On a blank 10 x 3 grid the step from (1, 1) to (0, 1) and the wrap step from (0, 1) to (9, 0) reach the target (9, 0) at cost 2, below the Manhattan estimate of 9 from the start. |
| Labyrinth.Game.constructor | src/bin/the-labyrinth.rs:314-325 | A blank grid. Round 0, no command room, not returning, nothing to roam to. |
| Labyrinth.Game.SetPlayerPos | src/bin/the-labyrinth.rs:327-335 | The round goes up by one. `hit_command` becomes true on the known command room and is never cleared. |
| Labyrinth.Game.DecodeRow | src/bin/the-labyrinth.rs:337-348 | The row is painted. `command_pos` and `start_pos` become the last `C` and `T` of the row, if any. |
| Labyrinth.Game.DecodeCell | src/bin/the-labyrinth.rs:338-346 | One character paints its cell and records a command room or start. |
| Labyrinth.Game.GetNextTargetPoint | src/bin/the-labyrinth.rs:350-417 | The answer, the new cells and `roam_to` are those of `Decide`. |
| Labyrinth.Game.ReturnToStart | src/bin/the-labyrinth.rs:352-363 | The return branch computes `ReturnHome`. |
| Labyrinth.Game.Roam | src/bin/the-labyrinth.rs:368-416 | The roaming branch returns the answer and the new `roam_to` of `Explore`. |
| Labyrinth.Game.KeepTarget | src/bin/the-labyrinth.rs:368-378 | The current `roam_to` is kept exactly when the search toward it errors (out of fuel or a missing parent), or gives a step other than staying put while the target cell is still unknown; then the answer is that step. |
| Labyrinth.Game.TowardsCommand | src/bin/the-labyrinth.rs:407-416 | The first step toward a known command room, else None. |
| Labyrinth.Game.PopCandidates | src/bin/the-labyrinth.rs:390-402 | The `while let Some(cell) = pop()` loop computes `TryCandidates`. |
| Items.ItemFromStr | src/bin/code-a-la-mode.rs:329-340 | A name decodes to the item of that name. None, where the code panics, exactly when no item has that name. |
| Items.ItemNameRoundTrip | src/bin/code-a-la-mode.rs:329-340 | Every item name reads back as its item. Names contain no `-` and none is `NONE`. |
| Items.Split | src/bin/code-a-la-mode.rs:346 | `split` gives at least one piece, none containing the separator, and joining the pieces restores the text. |
| Items.SplitJoin | src/bin/code-a-la-mode.rs:346 | Splitting a join of separator-free pieces gives the pieces back. |
| Items.DecodeAll | src/bin/code-a-la-mode.rs:346 | Every piece decoded in order. None exactly when some piece is not an item name. |
| Items.DecodeNames | src/bin/code-a-la-mode.rs:342-347 | Decoding the names of a list of items gives the list back. |
| Items.DecodeEncode | src/bin/code-a-la-mode.rs:342-347 | `decode_full_item` reads back any written list, `NONE` being the empty list. |
| Items.EncodeDecode | src/bin/code-a-la-mode.rs:342-347 | A text that decodes is exactly the written form of its items. |
| Items.Missing | src/bin/code-a-la-mode.rs:351-355 | The kept items are exactly those of `a` not in `b`. |
| Items.MissingCount | src/bin/code-a-la-mode.rs:351-355 | Each kept item keeps its multiplicity in `a`. |
| Items.Diff | src/bin/code-a-la-mode.rs:349-362 | `diff` is the items of `a` missing from `b`, then those of `b` missing from `a`. |
| Items.DiffEmpty | src/bin/code-a-la-mode.rs:349-362 | The difference is empty exactly when each list's items all occur in the other. |
| Kitchen.FromChar | src/bin/code-a-la-mode.rs:72-87 | `.`, `0` and `1` are floor. Any unlisted character is Unknown. |
| Kitchen.AsChar | src/bin/code-a-la-mode.rs:55-70 | `from_char(as_char(t)) == t` for every type. |
| Kitchen.CellCost | src/bin/code-a-la-mode.rs:174-181 | The cost is 1 exactly for floor, else `i32::MAX`. |
| Kitchen.NeighborIsFloor | src/bin/code-a-la-mode.rs:188-208 | Each neighbour is an existing floor cell. |
| Kitchen.NeighborsComplete | src/bin/code-a-la-mode.rs:188-208 | There are at most 8 neighbours. Any floor cell among the 8 around, inside the rectangle, is one of them. |
| Kitchen.PathProblem | src/bin/code-a-la-mode.rs:214-297 | The kitchen's neighbour rule and cost form a valid search problem. |
| Kitchen.PathCrossesFloorOnly | src/bin/code-a-la-mode.rs:214-297 | Every point of a returned path is a floor cell. |
| Kitchen.Grid.constructor | src/bin/code-a-la-mode.rs:139-151 | `w*h` floor cells, row by row. |
| Kitchen.Grid.SetCellType | src/bin/code-a-la-mode.rs:153-158 | The grid becomes `SetType` of the old grid. |
| Kitchen.Grid.GetNeighborsPoints | src/bin/code-a-la-mode.rs:188-208 | The 8-way neighbour loop returns `Neighbors`. |
| Kitchen.Grid.Astar | src/bin/code-a-la-mode.rs:214-297 | `astar` returns `Search` on the kitchen's cells. |
| Kitchen.CrateChar | src/bin/code-a-la-mode.rs:500-534 | The map character whose cell is the crate of an item, if any. |
| Kitchen.PointsOf | src/bin/code-a-la-mode.rs:500-534 | The positions of a character in a row, left to right. |
| Kitchen.RowStep | src/bin/code-a-la-mode.rs:500-534 | One more character appends its position and updates the crate it registers. |
| Kitchen.RegisteredStep | src/bin/code-a-la-mode.rs:500-534 | Windows, choppers, crates and the oven stay registered as the row is read character by character. |
| Kitchen.Game.constructor | src/bin/code-a-la-mode.rs:444-463 | A blank kitchen with no windows, choppers, oven, crates, orders, tables or partner. |
| Kitchen.Game.SetPartnerPos | src/bin/code-a-la-mode.rs:488-494 | The previous partner cell becomes floor, then the new one becomes Partner. |
| Kitchen.Game.DecodeRow | src/bin/code-a-la-mode.rs:500-534 | The row is painted, and its windows, choppers, crates and oven are registered. |
| Kitchen.Game.DecodeCell | src/bin/code-a-la-mode.rs:501-533 | One character paints its cell and registers what it is. |
| Kitchen.Game.FindEmptySpace | src/bin/code-a-la-mode.rs:540-555 | The first wall cell, in row-major order, with no table on it. None when there is no such cell. |
| Kitchen.Game.FindCommandWithoutBaking | src/bin/code-a-la-mode.rs:575-583 | The first order without a croissant. None when every order has one. |
| Kitchen.Game.FindItem | src/bin/code-a-la-mode.rs:742-767 | The first table holding exactly that item, else the item's crate, else None. |
| Kitchen.SoleItem | src/bin/code-a-la-mode.rs:746-757 | A table is taken exactly when the item is all it holds. |
| Kitchen.PartnerMoves | src/bin/code-a-la-mode.rs:488-494 | The new cell becomes Partner and the previous one floor. Every other cell is unchanged and the layout is kept. |
| Network.AddLinkTo | src/bin/death-first-search-episode-2.rs:43-45 | A node gains exactly one link to `l`. |
| Network.RemoveLinkFrom | src/bin/death-first-search-episode-2.rs:47-51 | Removing an absent link changes nothing. The id and the gateway flag are kept. |
| Network.RemovedOnce | src/bin/death-first-search-episode-2.rs:47-51 | `remove_link` takes away exactly one occurrence. |
| Network.AddThenRemove | src/bin/death-first-search-episode-2.rs:43-51 | Removing a link just added restores the links up to order. |
| Network.LinkedNodes | src/bin/death-first-search-episode-2.rs:106-117 | The linked nodes are exactly the existing link targets. |
| Network.Unlinked | src/bin/death-first-search-episode-2.rs:86-89 | `remove_link(a, b)` keeps every node key. |
| Network.Expand | src/bin/death-first-search-episode-2.rs:183-193 | The queued entries are exactly the unseen linked nodes of the popped node, each with it as parent. |
| Network.BackFirst | src/bin/death-first-search-episode-2.rs:173-196 | When entries queued from the start include a gateway, the search returns a link out of the start. |
| Network.WalkStaysInside | src/bin/death-first-search-episode-2.rs:164-197 | A set closed under links that holds a walk's start holds the whole walk. |
| Network.Graph.constructor | src/bin/death-first-search-episode-2.rs:60-65 | No nodes and no gateways. |
| Network.Graph.CreateEmptyNodes | src/bin/death-first-search-episode-2.rs:69-79 | Keys `0..n-1` are added, each with its own id, no links and no gateway flag. Other nodes are unchanged. |
| Network.Graph.AddLink | src/bin/death-first-search-episode-2.rs:81-84 | The graph becomes `Linked`. |
| Network.Graph.RemoveLink | src/bin/death-first-search-episode-2.rs:86-89 | The graph becomes `Unlinked`. |
| Network.Graph.AddExit | src/bin/death-first-search-episode-2.rs:91-96 | The id is always listed as a gateway, and the node is flagged only if it exists. |
| Network.Graph.GetLinkedNodes | src/bin/death-first-search-episode-2.rs:106-117 | The existing link targets in link order. Empty for an unknown node. |
| Network.Graph.FindClosestNodeTowardExit | src/bin/death-first-search-episode-2.rs:164-197 | The search loop computes `ClosestFrom`, so it returns a link into a nearest gateway. |
| Network.Graph.GetNodesWithMoreExits | src/bin/death-first-search-episode-2.rs:119-161 | The loop computes `MoreExitsFrom`. |
| Network.Graph.VisitFront | src/bin/death-first-search-episode-2.rs:133-159 | One pass of the outer loop gives the state `SweepStep` says: front node popped and marked, its links scanned, the kept nodes and highest count updated. |
| Network.Graph.ScanNode | src/bin/death-first-search-episode-2.rs:130-145 | The inner loop marks, pushes and counts as `ScanLinks` says. |
| Network.Graph.TurnEpisode1 | src/bin/death-first-search-episode-1.rs:155-200 | Episode 1 cuts the link `CutEpisode1` names and removes it from the graph. |
| Network.Graph.TurnEpisode2 | src/bin/death-first-search-episode-2.rs:239-262 | Episode 2 cuts the link `CutEpisode2` names and removes it from the graph. |
| Network.Graph.LinksWithParent | src/bin/death-first-search-episode-2.rs:183-193 | The `retain` over linked nodes computes `Expand`. |
| Network.Graph.FindClosestLink | src/bin/death-first-search-episode-1.rs:107-148 | Episode 1's search is episode 2's with the start as its own parent. |
| Network.Linked | src/bin/death-first-search-episode-2.rs:81-84 | `a` gains one link to `b` and `b` one to `a`. Nothing else changes. |
| Network.UnlinkedKeeps | src/bin/death-first-search-episode-2.rs:86-89 | `remove_link` keeps ids and gateway flags and touches only `a` and `b`. |
| Network.UnlinkedLinks | src/bin/death-first-search-episode-2.rs:86-89 | One `b` leaves the links of `a` and one `a` leaves those of `b`. |
| Network.LinkedSymmetric | src/bin/death-first-search-episode-2.rs:81-84 | `add_link` keeps links two-way. |
| Network.UnlinkedSymmetric | src/bin/death-first-search-episode-2.rs:86-89 | `remove_link` keeps links two-way. |
| Network.LinkThenUnlink | src/bin/death-first-search-episode-2.rs:81-89 | Removing a link just added restores every node's links up to order. |
| Network.Retain | src/bin/death-first-search-episode-2.rs:183-193 | The kept entries are exactly the unseen linked nodes, each with the popped node as parent. |
| Network.ClosestSound | src/bin/death-first-search-episode-2.rs:173-196 | A returned link leads into a reachable gateway. None means no gateway is reachable. |
| Network.ClosestFrom | src/bin/death-first-search-episode-2.rs:164-197 | None exactly when the start is unknown or no gateway is reachable. A start that is a gateway gives `(None, start)`. Otherwise the result is a link into a reachable gateway, and no gateway is fewer links from the start. |
| Network.HopsStep | src/bin/death-first-search-episode-2.rs:186-195 | A link out of a node at most n links away leads to a node at most n + 1 links away. |
| Network.HopsBack | src/bin/death-first-search-episode-2.rs:186-195 | A node other than the start at most n links away is linked from a node at most n - 1 links away. |
| Network.RelabelOrder | src/bin/death-first-search-episode-2.rs:195 | Queuing the new links at the front with one more than the popped label keeps the queue's labels in breadth-first order. |
| Network.PoppedNearest | src/bin/death-first-search-episode-2.rs:179-184 | Under the level invariant, the node popped from the back is a nearest gateway whenever it is a gateway. |
| Network.LabelledStep | src/bin/death-first-search-episode-2.rs:179-195 | After a pop, every queued node is still at most its label's number of links from the start. |
| Network.SameLevelStep | src/bin/death-first-search-episode-2.rs:179-195 | A pop that leaves entries of the popped label keeps every node of that level popped or queued with that label. |
| Network.NextLevelStep | src/bin/death-first-search-episode-2.rs:179-195 | A pop that empties a level leaves every node of the next level popped or queued with the next label. |
| Network.LevelsStep | src/bin/death-first-search-episode-2.rs:179-195 | Popping a non-gateway node and queuing its unseen links keeps the level invariant. |
| Network.ClosestNearest | src/bin/death-first-search-episode-2.rs:178-196 | The search loop returns only a gateway that no other gateway beats on the number of links from the start. |
| Network.StartLevels | src/bin/death-first-search-episode-2.rs:171-177 | The queue holding only the start node satisfies the level invariant. |
| Network.StartAsParent | src/bin/death-first-search-episode-1.rs:107-148 | Episode 1's result is episode 2's, with the start standing in for a missing parent. |
| Network.ScanLinks | src/bin/death-first-search-episode-2.rs:130-145 | The scan counts the gateways among the links and marks them all seen. It pushes only nodes that were unseen. |
| Network.MoreExitsFrom | src/bin/death-first-search-episode-2.rs:119-161 | An unknown start gives `([], 0)`. Otherwise: distinct reachable nodes having the highest gateway-link count, every visited node with that count listed, and none with more. The list holds those nodes in the order the loop first pops them. |
| Network.MoreExitsOrder | src/bin/death-first-search-episode-2.rs:133-160 | From any state of the outer loop, the final list is the kept nodes followed by the nodes still to be popped, filtered to the final highest count, first occurrences only. |
| Network.OrderTurn | src/bin/death-first-search-episode-2.rs:133-160 | One turn moves the popped node from the nodes to visit to the end of the kept ones without changing that filtered list. |
| Network.KeptOrder | src/bin/death-first-search-episode-2.rs:149-158 | Dropping (fewer links), clearing then pushing (more links) or pushing when absent (as many) all agree with appending the node and filtering at any count the loop later reaches. |
| Network.HighestGrows | src/bin/death-first-search-episode-2.rs:149-155 | The highest count never drops during the loop. |
| Network.MoreExitsFirst | src/bin/death-first-search-episode-2.rs:248-253 | `nodes[0]` exists for a known start and is the first popped node having the highest gateway-link count. |
| Network.MoreExitsSound | src/bin/death-first-search-episode-2.rs:125-160 | The outer loop ends with exactly what `MoreExitsFrom` promises. |
| Network.AdjacentGatewayFirst | src/bin/death-first-search-episode-2.rs:173-196 | When the agent's node links to a gateway, the search returns a link out of the agent's node. |
| Network.CutEpisode1 | src/bin/death-first-search-episode-1.rs:155-200 | Episode 1 fails exactly when the agent's node is unknown or no gateway is reachable. Otherwise it cuts a link into a nearest reachable gateway. |
| Network.KnownLink | src/bin/death-first-search-episode-2.rs:200-202 | `to_known_link_or_panic` succeeds exactly on a link with a parent. |
| Network.CutEpisode2 | src/bin/death-first-search-episode-2.rs:239-262 | A cut link joins an existing non-gateway node to a gateway it links to. An unknown node or no reachable gateway is the not-found panic, and a gateway node is the missing-parent panic. With a gateway next to the agent, the link out of the agent's node into a nearest gateway is cut. Otherwise the search restarts from the first node with the most gateway links. It fails exactly when that node is a gateway or reaches none, and else cuts a link into a gateway nearest to that node. |
| Network.AdjacentExitFirst | src/bin/death-first-search-episode-2.rs:245 | For a non-gateway agent node, the first search returns a link out of the agent's node exactly when a gateway is linked to it. |
| Network.CutSecondChoice | src/bin/death-first-search-episode-2.rs:250-259 | The node list is never empty, its first node is reachable with the highest gateway-link count, and the second search fails exactly when that node is a gateway or reaches no gateway. |
| Network.AdjacentGatewayCut | src/bin/death-first-search-episode-2.rs:239-262 | With a gateway next to the agent, both episodes cut the same link out of the agent's node. |
| CardWar.Value | src/bin/winamax-battle.rs:11-26 | Card values run from 2 to 14. |
| CardWar.DeclarationOrder | src/bin/winamax-battle.rs:11-26 | Cards compare in declaration order, Two < Three < ... < A. |
| CardWar.TotalOrder | src/bin/winamax-battle.rs:11-26 | Two cards have equal values exactly when they are the same card. |
| CardWar.RankFromName | src/bin/winamax-battle.rs:55-70 | A known rank text gives the card of that name. None, where the code panics, exactly when no card has that name. |
| CardWar.RankText | src/bin/winamax-battle.rs:50-54 | A text longer than one character loses its last character (the suit). |
| CardWar.ParseCard | src/bin/winamax-battle.rs:49-72 | A card is read exactly when the suitless text is a rank name. |
| CardWar.ParseWithSuit | src/bin/winamax-battle.rs:49-72 | A rank name plus any suit letter reads back as that rank, as in `"10D"` and `"AS"`. |
| CardWar.ParseBare | src/bin/winamax-battle.rs:49-72 | A bare rank reads back except `"10"`, which loses its `0` and is unknown. |
| CardWar.DrawWar | src/bin/winamax-battle.rs:137-152 | Three cards move from the deck to the stack in order. A short deck moves everything and signals PAT. |
| CardWar.ShowdownConserves | src/bin/winamax-battle.rs:134-170 | Resolving the turned-up cards creates and loses no card. |
| CardWar.TurnConserves | src/bin/winamax-battle.rs:112-170 | Every pass keeps the total multiset of cards. The one exception is player 1's turned-up card when player 2's deck is found empty. |
| CardWar.TurnStops | src/bin/winamax-battle.rs:114-152 | The game stops exactly on an empty deck or a war with a short deck. A winner has empty stacks and the round count. PAT happens exactly when the empty deck meets non-empty stacks, or in a short war. |
| CardWar.TurnBattle | src/bin/winamax-battle.rs:153-170 | Unequal cards: the round goes up by 1, the stacks empty, and the higher card's deck receives player 1's stack then player 2's. |
| CardWar.TurnWar | src/bin/winamax-battle.rs:137-152 | Equal cards with enough left: each stack gains its turned-up card and the next three, and the round stays. |
| CardWar.TurnBalanced | src/bin/winamax-battle.rs:134-152 | Passes that go on keep both stacks the same length. |
| CardWar.WinnerTakesAll | src/bin/winamax-battle.rs:108-171 | When player 2 wins they hold exactly the cards dealt. When player 1 wins they hold all the dealt cards but one: the card they turned up when player 2's deck was empty. The loser's deck and both stacks are empty. |
| CardWar.RoundsBounded | src/bin/winamax-battle.rs:108-171 | The round counter grows by at most one per pass. |
| CardWar.Battle.constructor | src/bin/winamax-battle.rs:96-106 | The dealt decks, empty stacks and round 0. |
| CardWar.Battle.PlayTurn | src/bin/winamax-battle.rs:112-170 | One loop body on the four queues computes `Turn`. |
| CardWar.Battle.DrawWar1 | src/bin/winamax-battle.rs:139-144 | Player 1's three war cards move one by one, as `DrawWar` says. |
| CardWar.Battle.DrawWar2 | src/bin/winamax-battle.rs:145-150 | Player 2's three war cards move one by one, as `DrawWar` says. |
| CardWar.Battle.Gather | src/bin/winamax-battle.rs:156-168 | The winner's deck receives player 1's stack then player 2's, and both stacks empty. |
| CardWar.Battle.Play | src/bin/winamax-battle.rs:108-171 | The loop computes `Run`. |
| CardWar.PlayGame | src/bin/winamax-battle.rs:79-171 | The whole game: a winner's round count is at most the passes played. Player 2 as winner holds exactly the dealt cards; player 1 as winner holds all of them but the one card turned up last. |
| Territory.CellEquality | src/bin/back-to-the-code.rs:69-73 | Cell equality ignores only the debug tag. Equal cells are at the same place, so `Player::is_at` agrees on them. |
| Territory.IndexInside | src/bin/back-to-the-code.rs:168-170 | A position on the grid has an index in the vector that leads back to it. |
| Territory.DefaultWellPlaced | src/bin/back-to-the-code.rs:148-165 | The default grid has cell `(x, y)` at index `y*35+x`, free (`player_id == -1`) and untagged. |
| Territory.Lookup | src/bin/back-to-the-code.rs:171-176 | The lookup succeeds exactly on the grid and finds the cell at that position. |
| Territory.PerimeterCells | src/bin/back-to-the-code.rs:224-260 | A fitting perimeter is exactly the grid cells on the rectangle's border. Each is free or the player's own, and at least one is free. |
| Territory.LowestIsMin | src/bin/back-to-the-code.rs:275-290 | On grid coordinates the loop finds the least value. The -1 sentinel survives only for an empty list. |
| Territory.HighestIsMax | src/bin/back-to-the-code.rs:292-307 | On grid coordinates the loop finds the greatest value. The -1 sentinel survives only for an empty list. |
| Territory.StampedCells | src/bin/back-to-the-code.rs:262-273 | Each copied cell lands at its own index, tagged `'x'` when free. All other cells stay default. |
| Territory.Stamped | src/bin/back-to-the-code.rs:262-273 | Copying cells keeps the grid size, when no index panics. |
| Territory.Trim | src/bin/back-to-the-code.rs:331 | The trimmed text neither starts nor ends with whitespace. |
| Territory.SkipSpace | src/bin/back-to-the-code.rs:331 | The leading whitespace skipped by `trim` ends at a non-whitespace character or at the end. |
| Territory.SkipSpaceBack | src/bin/back-to-the-code.rs:331 | The trailing whitespace skipped by `trim` starts after a non-whitespace character or at the start. |
| Territory.Owner | src/bin/back-to-the-code.rs:334-338 | `.` is owner -1 and a digit is that player. Anything else is the panic. |
| Territory.LineOwnersCells | src/bin/back-to-the-code.rs:330-342 | A line fails exactly at the first on-grid column with a bad character. Otherwise each on-grid column sets its cell's owner, and nothing else changes. |
| Territory.LineOwners | src/bin/back-to-the-code.rs:330-342 | A line keeps the grid size, and a failure names a column of the line. |
| Territory.LineErrorStays | src/bin/back-to-the-code.rs:332-340 | Once a prefix fails, the whole line fails at the same column. |
| Territory.Grid.constructor | src/bin/back-to-the-code.rs:148-165 | The nested loops build the default cells. |
| Territory.Grid.GetCell | src/bin/back-to-the-code.rs:171-176 | None exactly off the grid, else the cell at that position. |
| Territory.Grid.GetCellMut | src/bin/back-to-the-code.rs:178-183 | The index of the cell `get_cell` finds, None exactly off the grid. |
| Territory.Grid.GetFittingPerimeter | src/bin/back-to-the-code.rs:224-260 | The nested loops and the final scan compute `FittingPerimeter`. |
| Territory.CornerMin | src/bin/back-to-the-code.rs:275-290 | On grid cells the least x or the least y is -1 exactly when there are no cells. Otherwise both are taken by some cell and bound every cell from below. |
| Territory.CornerMax | src/bin/back-to-the-code.rs:292-307 | On grid cells the greatest x or the greatest y is -1 exactly when there are no cells. Otherwise both are taken by some cell and bound every cell from above. |
| Territory.Grid.GetMinXY | src/bin/back-to-the-code.rs:275-290 | None for no cells. Otherwise the least x and the least y, each taken by some cell. |
| Territory.Grid.GetMaxXY | src/bin/back-to-the-code.rs:292-307 | None for no cells. Otherwise the greatest x and the greatest y, each taken by some cell. |
| Territory.Grid.FromSubGrid | src/bin/back-to-the-code.rs:262-273 | A default grid with the cells copied in, as `Stamped` says. None where an index panics. |
| Territory.Game.constructor | src/bin/back-to-the-code.rs:310-315 | Round 0, no players, a default grid, whose cell `(x, y)` sits at index `y*35+x` (`Valid`). |
| Territory.Game.SetPlayerInputs | src/bin/back-to-the-code.rs:321-328 | Default players are appended until `index` exists, then that player gets id `index` and its inputs. The others are unchanged. |
| Territory.Game.SetGridLine | src/bin/back-to-the-code.rs:330-342 | The trimmed line sets the owners of row `index` as `LineOwners` says, or fails at the first bad column. On failure the columns before it are already written. The grid layout (`Valid`) is kept either way. |
| Elevators.Checked | src/bin/dont-panic-episode-1.rs:61-76 | A successful lookup returns the cell placed at the point asked for. Anything else is the assert panic. |
| Elevators.CheckedInside | src/bin/dont-panic-episode-1.rs:61-76 | On the grid `new` builds, the lookup succeeds exactly inside the rectangle. |
| Elevators.ElevatorFromFinds | src/bin/dont-panic-episode-1.rs:99-107 | On a floor, the scan finds the elevator with the least x, or None when the floor has none. Off the floors it panics. |
| Elevators.BlockRule | src/bin/dont-panic-episode-1.rs:147-188 | BLOCK exactly when the clone has a target and walks away from it (LEFT with pos < target, RIGHT with pos > target). A panic exactly for an unknown direction with a target. WAIT otherwise. |
| Elevators.Game.constructor | src/bin/dont-panic-episode-1.rs:42-59 | `w*h` Empty cells, with cell `(x, y)` at index `y*w+x`. |
| Elevators.Game.GetCell | src/bin/dont-panic-episode-1.rs:61-76 | The lookup succeeds exactly inside the rectangle, with the cell at that point. |
| Elevators.Game.GetMutCell | src/bin/dont-panic-episode-1.rs:78-93 | The index of the cell `get_cell` finds, failing exactly when it fails. |
| Elevators.Game.SetCellType | src/bin/dont-panic-episode-1.rs:95-97 | Only the addressed cell's type changes. A point off the grid panics and changes nothing. |
| Elevators.Game.GetNextElevatorPosition | src/bin/dont-panic-episode-1.rs:99-107 | The scan loop computes `ElevatorFrom` from column 0. |
| Elevators.Game.NextCloneAction | src/bin/dont-panic-episode-1.rs:147-188 | The decision of `main` computes `NextAction`. |
| BombSearch.Leap | src/bin/shadows-of-the-knight-episode-1.rs:46 | A jump is at least 1. |
| BombSearch.LeapRounding | src/bin/shadows-of-the-knight-episode-1.rs:46 | The jump is `d / 2` for `d >= 2` and 1 below, so it stays inside the range. |
| BombSearch.StepMoves | src/bin/shadows-of-the-knight-episode-1.rs:43-88 | An unknown hint panics. A named axis moves at least 1 the hinted way after its bound is cut at Batman. An unnamed axis keeps its position and bounds. |
| BombSearch.HintNames | src/bin/shadows-of-the-knight-episode-1.rs:43-88 | A truthful hint is one of the eight and names exactly the sides the bombs lie on. |
| BombSearch.StepKeepsBombs | src/bin/shadows-of-the-knight-episode-1.rs:43-88 | Under a truthful hint the new window lies within the old one and still holds Batman and the bombs. |
| BombSearch.ChaseKeepsBombs | src/bin/shadows-of-the-knight-episode-1.rs:36-88 | Any number of truthful turns keeps Batman and the bombs in a shrinking window. |
| BombSearch.StartHolds | src/bin/shadows-of-the-knight-episode-1.rs:30-33 | The start window is the building, so every turn keeps Batman inside it. |
| BombSearch.Jump | src/bin/shadows-of-the-knight-episode-1.rs:43-88 | The `match` reassigning the six variables computes `Step`. |
| ZombieGrid.Touched | src/bin/code-vs-zombies.rs:106-113 | A missing key gets a new Empty cell with no zombies. Existing entries are unchanged. |
| ZombieGrid.Marked | src/bin/code-vs-zombies.rs:98-104 | The cell at `pos`, created if missing, takes the type. Its zombie count goes up by exactly 1 exactly when the type is Zombie. Other cells are unchanged. |
| ZombieGrid.MarkAllKeys | src/bin/code-vs-zombies.rs:98-117 | After a reset, the map holds a cell exactly at each marked position. |
| ZombieGrid.MarkAllCounts | src/bin/code-vs-zombies.rs:98-117 | After a reset, each cell sits at its own key and counts exactly the zombies added at that position. |
| ZombieGrid.MarkAllLast | src/bin/code-vs-zombies.rs:98-104 | A cell's type is the type of the last mark at its position. |
| ZombieGrid.Grid.constructor | src/bin/code-vs-zombies.rs:89-96 | The size is stored and there are no cells. |
| ZombieGrid.Grid.GetMutCell | src/bin/code-vs-zombies.rs:106-113 | The map becomes `Touched`, and the returned cell is the entry at `pos`. |
| ZombieGrid.Grid.SetCellType | src/bin/code-vs-zombies.rs:98-104 | The map becomes `Marked`. |
| ZombieGrid.Grid.Reset | src/bin/code-vs-zombies.rs:115-117 | The map is emptied. |
| ZombieGrid.Game.constructor | src/bin/code-vs-zombies.rs:171-183 | Shoot distance 2000, player speed 1000, zombie speed 400. The player is at (-1, -1) and no one has been seen. |
| ZombieGrid.Game.NewLoop | src/bin/code-vs-zombies.rs:186-192 | The grid is emptied, this turn's humans and zombies become the previous ones, and the current maps are emptied. |
| ZombieGrid.Game.AddHuman | src/bin/code-vs-zombies.rs:195-198 | The human's cell is marked Human, and the human is stored under its id, replacing an older entry. The grid size and everything else are kept. |
| ZombieGrid.Game.AddZombie | src/bin/code-vs-zombies.rs:201-204 | The zombie's cell is marked Zombie (one more zombie there), and the zombie is stored under its id. The grid size and everything else are kept. |

## Left out

- Reading stdin, `println!` and every `eprintln!` debug line are left out, as are the `Debug`/`Display` impls. Each `main` is reduced to the decision it takes.
- Floating-point code is not modelled:
  - `Point::get_distance`;
  - the f64 distance maps in back-to-the-code (`compute_all_distances_player`, `debug_distances`, `compute_distances`);
  - the zombie estimates (`compute_humans_life_expectancy`, `compute_player_to_humans_turns`, `get_closest_zombie_next_pos`, `get_closest_rescuable_human_pos`);
  - the `turns_to_*` fields of `Human`.
- code-a-la-mode's `Game::step` heuristic is not modelled. Neither are the thin parsers `Oven::update_from_raw` and `Command::decode`, the small setters (`add_table`, `start_new_loop`, `set_player_pos`, `set_player_hand`, `set_partner_hand`, `add_command`) or the `drop_*` string builders.
- back-to-the-code's closure-based targeting in `main` is not modelled. `Player::init` parses an input line; `Territory.Game.SetPlayerInputs` takes the parsed values instead.
- winamax-battle's input loops that deal the cards are left out. `CardWar.PlayGame` starts from the dealt decks.
- The unused `Cell::reset` of the-labyrinth, code-a-la-mode and code-vs-zombies is not modelled. Neither is `Point::get_squared_distance`.
- Panics are modelled as `None`/`Err` results: a missing parent in A\*, unknown item, card or direction names, bad grid-line characters, an off-grid `from_sub_grid` cell and dont-panic's lookup asserts. `unwrap` calls the code guarantees are preconditions.
- Integers are unbounded. The i32 arithmetic of the bots (g + cost + h in A\*, `y * width + x`, `round += 1`, `zombies_count += 1`) is not modelled for overflow. `i32::MAX` appears only as the wall cost.
- AStar.FindPath: the `while open.len() > 0` loop runs at most `fuel` rounds and returns `Err(OutOfFuel)` beyond that, because Dafny needs a measure. The Rust loop has no bound.
- Labyrinth.Game.GetNextTargetPoint: each search inside it runs with the same `fuel` bound.
- AStar.Search: cost-optimality is proved (`AStarCost.SearchCheapest`) only when every step reachable from the start moves one unit. In the-labyrinth the flat-index wrap also links the first and last columns of adjacent rows, which makes the Manhattan heuristic inadmissible. `Labyrinth.WrapShortcut` exhibits such a grid, and `Labyrinth.WalledAstarIsCheapest` covers grids whose edge columns are walls.
- Kitchen.Grid.Astar: not proved cheapest. Its 8-way diagonal steps cost 1 but can change the Manhattan distance by 2.
- CardWar.Battle.Play: the game loop runs at most `fuel` passes. `None` means the fuel ran out; the Rust loop runs until it prints a result.
- Network.Graph.GetNodesWithMoreExits: nodes are returned by id rather than as references to `Node` values.
- CardWar.RankText: lengths are counted in characters. Rust's `len()` counts UTF-8 bytes, which differs only for non-ASCII input.
- Labyrinth.Grid.constructor: requires `w, h >= 0`. For negative sizes the Rust `(w * h) as usize` capacity would panic or wrap.
- Kitchen.Grid.constructor: requires `w, h >= 0`, for the same reason.
- Elevators.Game.constructor: requires `w, h >= 0`, for the same reason.
- ZombieGrid.Grid.constructor: the `with_capacity` hint is ignored, since it does not change what the map holds. For a negative `w * h` the Rust `(w * h) as usize` wraps to a huge capacity and `with_capacity` panics; the model builds the empty grid for any size.
- Territory.Grid.GetFittingPerimeter: the result is a Dafny set of cells with structural equality. Rust's `HashSet<Cell>` compares cells without their debug tag; `Territory.CellEquality` relates the two.
