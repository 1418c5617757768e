# ACOMaze in Dafny

This project models the core of ACOMaze: a randomised depth-first maze
generator, and an ant colony optimiser that walks ants through the maze and
updates pheromone levels. It also models the one interactive edit that writes
into the optimiser's grid.

- `types.dfy` (module `Types`): the shared vocabulary of `Types.py`. A
  coordinate is a pair of ints and a path is a sequence of coordinates. A
  proto-maze cell records `visited` and its four connection flags `N/E/S/W`.
- `maze.dfy` (module `Maze`): `generate_maze`, `maze_carver` and
  `maze_to_array`.
  - The proto-maze is a class `ProtoMaze` whose `cells` field (rows of cells,
    indexed `[h][w]`) the carver reassigns cell by cell.
  - The carver is a pair of mutually recursive methods. `MazeCarver` marks the
    cell and loops over the direction order. `CarveToward` is one iteration of
    that loop: the bounds test, the knock-down and the recursive call.
  - The random draws are oracle parameters. `shuffle(w, h)` is the direction
    order at cell (w, h), `straight(w, h)` is the straightness draw, and
    `cycle(w, h, d)` is the cycle draw towards direction d. Each cell is
    carved at most once, so an oracle keyed by cell gives the same freedom as
    the sequential random stream. The contracts hold for every oracle.
  - `MazeToArray` fills a fresh `array2<real>` of shape `(2H+1) x (2W+1)` in
    nested loops. The value of each entry is pinned down by `RasterAt`.
- `aco.dfy` (module `Aco`): class `ACO` over an `array2<real>` grid indexed
  `maze[y, x]`, where the value -1 marks a wall.
  - `InitialiseMaze` seeds the hallways.
  - `FindNextStep` chooses an ant's next cell.
  - `Advance`, `WalkAnt` and `FindPaths` model the ant walk with its `path`
    stack and `junctions` list. `PopUntil` is the backtracking pop loop.
    Each is proved against a specification function: `AdvanceF` for one
    pass, `Run` for a whole walk, and `Collect` over every ant's walk for
    the batch.
  - `UpdatePheromones` (via `Evaporate` and `DepositPath`) is the pheromone
    update. `NextIteration` runs one iteration.
  - The weighted and uniform choices are replaced by an oracle
    `draws(ant, step)`, whose indices are taken modulo the number of
    candidates.
- `renderer.dfy` (module `Renderer`): the `mode` field of `ACORenderer`, the
  key presses that set it, the single-cell edit `_edit_cell`, and the bounds
  guard of `_edit_from_event`.

The toggle mode of `_edit_cell` writes `-v-1`, so a wall becomes 0, not the
positive 0.1 that the erase mode writes; the model does the same. Two flaws of
the code are kept as written:

1. The goal short-circuit in `__find_next_step` compares the swapped pair
   `(ny, nx)` with the goal (ACO.py:109). The walk's loop test compares
   `(x, y)` (ACO.py:65).
2. `junctions` is never pruned. A backtrack can therefore pop the whole path
   and fail (ACO.py:70-78).

## Model

| member | source | states |
|---|---|---|
| Maze.Opposite | Maze.py:71-82 | the flag set on the neighbour is the mirror direction on the same axis: N and S pair up, E and W pair up |
| Maze.Step | Maze.py:59-64 | the neighbour in direction d: north and south change the row by one, west and east the column |
| Maze.Remove | Maze.py:55 | removing a present direction shortens the order by one and keeps every other direction |
| Maze.Straighten | Maze.py:50-56 | after the straightness draw, `prev_dir` is first and the other directions keep their shuffled relative order |
| Maze.WithFlag | Maze.py:71-82 | setting one connection flag leaves `visited` and the other three flags as they were |
| Maze.SetCell | Maze.py:47 | writing one cell changes only that cell and keeps the grid's shape |
| Maze.KnockDown | Maze.py:71-82 | knocking down a wall keeps the grid rectangular |
| Maze.ProtoMaze.constructor | Maze.py:24-27 | the initial proto-maze is height x width with every cell unvisited and closed |
| Maze.MarkCells | Maze.py:47 | marking a cell visited changes that cell's `visited` mark only |
| Maze.MarkFlags | Maze.py:47 | marking a cell visited only grows the grid and keeps every flag in bounds and mirrored |
| Maze.MarkClosed | Maze.py:47 | after marking, every visited cell other than those still on the stack and the marked one has no unvisited neighbour |
| Maze.MarkReach | Maze.py:47 | marking a cell connected to (0,0) keeps every visited cell connected to (0,0) |
| Maze.MarkFacts | Maze.py:47 | marking the current cell visited keeps the flags in bounds and mirrored, adds no edge, adds one visited cell and shrinks the unvisited set |
| Maze.KnockCells | Maze.py:71-82 | a knock-down sets exactly the flag towards the neighbour and its mirror flag, and nothing else |
| Maze.KnockGrows | Maze.py:71-82 | a knock-down only adds flags and changes no visited mark |
| Maze.KnockFlagsInBounds | Maze.py:59-67 | a flag is only set towards an in-bounds neighbour, so no flag leads off the grid |
| Maze.KnockMirrored | Maze.py:71-82 | after a knock-down every set flag still has its mirror flag on the neighbour |
| Maze.KnockUntouched | Maze.py:71-82 | after a knock-down, no unvisited cell other than the neighbour has a flag; if the neighbour was already visited, no unvisited cell has one |
| Maze.KnockReach | Maze.py:69-82 | the neighbour reached through the knocked-down wall is connected to (0,0) |
| Maze.KnockEdges | Maze.py:69-82 | a knock-down towards a cell without flags adds exactly one edge |
| Maze.KnockVisits | Maze.py:71-82 | a knock-down does not change the number of visited cells |
| Maze.KnockClosed | Maze.py:69-82 | a knock-down keeps every visited mark, so every visited cell not on the stack still has all in-bounds neighbours visited |
| Maze.KnockFacts | Maze.py:69-82 | all the invariants of carving survive one knock-down; towards an unvisited cell it adds exactly one edge |
| Maze.ReachExtend | Maze.py:69-86 | following a set flag from a cell connected to (0,0) reaches a cell connected to (0,0) |
| Maze.ReachableGrows | Maze.py:69-86 | setting more flags never disconnects a cell |
| Maze.UnvisitedShrinks | Maze.py:47-86 | carving never un-visits a cell, so the unvisited set bounds the recursion |
| Maze.NeighboursVisitedStep | Maze.py:58-86 | after direction i is handled, every in-bounds neighbour in directions 0..i is visited |
| Maze.NeighboursVisitedClosed | Maze.py:58-86 | after the loop over a full order, every in-bounds neighbour of the cell is visited |
| Maze.BlankFacts | Maze.py:24-29 | the blank proto-maze satisfies every carving invariant, with zero edges and zero visited cells |
| Maze.VisitedEverywhere | Maze.py:24-30 | once (0,0) is visited and no visited cell has an unvisited neighbour, every cell is visited |
| Maze.MazeCarver | Maze.py:33-86 | carving from an unvisited cell marks it visited, keeps flags in bounds and mirrored, keeps every cell connected to (0,0), and without cycle draws keeps edges = visited cells - 1 |
| Maze.KnockToward | Maze.py:69-82 | the new grid is the old one with the wall towards the in-bounds neighbour knocked down when the neighbour is unvisited or the cycle draw succeeds, and the old one unchanged otherwise; an unvisited neighbour ends up connected to (0,0) with one more edge, a visited one keeps the invariants |
| Maze.GrowsTransitive | Maze.py:33-86 | flags and visited marks that only grow over two stages only grow overall |
| Maze.CarveToward | Maze.py:58-86 | one direction of the loop keeps every carving invariant and leaves the in-bounds neighbour visited |
| Maze.GenerateMaze | Maze.py:6-31 | every cell is visited and connected to (0,0), flags are in bounds and mirrored, and without cycle draws exactly width*height-1 walls are removed (a spanning tree) |
| Maze.RasterAt | Maze.py:98-114 | every entry of the rasterised maze is -1 or 0 |
| Maze.MazeToArray | Maze.py:88-116 | the array has shape (2H+1) x (2W+1) and every entry is the one `RasterAt` gives |
| Maze.RasterCell | Maze.py:100-114 | the centre (2h+1, 2w+1) of every cell is 0; its east connector is 0 iff E is set; its south connector is 0 iff S is set |
| Maze.RasterCorners | Maze.py:98-114 | every position with both indices even stays -1 |
| Maze.RasterOrigin | Maze.py:98-114 | the first row and the first column of the array are -1 for any proto-maze |
| Maze.RasterBorder | Maze.py:98-114 | when no flag leads off the proto-maze, the last row and the last column of the array are -1 too |
| Maze.Widen | Maze.py:100-114 | a path of cells becomes a walk of array positions from the first centre to the last |
| Maze.BetweenAdjacent | Maze.py:102-114 | the connector between two neighbouring cells is 4-adjacent to both centres |
| Maze.HallwayCell | Maze.py:100-114 | a cell's centre is a hallway, and its east and south connectors are hallways iff the E and S flags are set |
| Maze.LinkHallway | Maze.py:106-114 | two cells joined by mirrored flags give three consecutive hallway positions in the array |
| Maze.StepBack | Maze.py:59-82 | stepping in a direction and then in its opposite returns to the cell, and the opposite of the opposite is the direction itself |
| Maze.LinkedHallway | Maze.py:69-114 | two cells joined by a set flag have their connector and the second centre as hallways, 4-adjacent in a row |
| Maze.FlagPathPrefix | Maze.py:69-86 | a prefix of a path along set flags is a path along set flags |
| Maze.WidenWalk | Maze.py:100-114 | a path along set flags becomes a 4-adjacent walk through hallway entries |
| Maze.WidenStep | Maze.py:100-114 | widening a longer path extends the widened prefix, which ends at the centre of the second-last cell, by a connector and the last centre |
| Maze.WalkExtend | Maze.py:100-114 | a hallway walk extended by two adjacent hallway positions is a hallway walk |
| Maze.RasterConnected | Maze.py:88-116 | every cell connected to (0,0) has its centre joined to the centre (1,1) of (0,0) by a walk through hallway entries |
| Aco.Pick | ACO.py:125-127 | the chosen step is one of the candidates |
| Aco.Moves | ACO.py:94 | the four moves in the order the search tries them: north, south, east, west as (dx, dy) |
| Aco.Neighbour | ACO.py:94-98 | the cell move k leads to from `pos` |
| Aco.ACO.constructor | ACO.py:6-31 | keeps the parameters, takes height and width from the grid's shape, and seeds the grid |
| Aco.ACO.Seeded | ACO.py:37 | the value the mask assignment leaves in a cell: `initialisation` for a 0, the old value otherwise |
| Aco.ACO.InitialiseMaze | ACO.py:33-38 | every 0 becomes `initialisation`, every other value including the walls is unchanged, in place; with a non-negative level the encoding and the set of walls are preserved |
| Aco.ACO.Qualifies | ACO.py:97-106 | a cell may be stepped on when it is a 4-neighbour, inside the grid, not a wall and not the previous position |
| Aco.ACO.CandidatesBefore | ACO.py:97-112 | the neighbour list after k moves: the qualifying cells they reach, in the order of the moves |
| Aco.ACO.Candidates | ACO.py:94-112 | a cell is a candidate iff it is a 4-neighbour, in bounds, not a wall and not the previous cell; there are at most four |
| Aco.ACO.CandidatesMembers | ACO.py:97-112 | the candidates collected from the first k moves are exactly the qualifying neighbours those moves reach, at most k of them |
| Aco.ACO.AdjacentIsMove | ACO.py:94 | every 4-neighbour is reached by one of the four moves |
| Aco.ACO.SwappedGoal | ACO.py:109 | the goal with its components swapped, which is what the short-circuit compares `(nx, ny)` against (kept as written) |
| Aco.ACO.StepChoice | ACO.py:87-128 | the step is `pos` exactly when no candidate qualifies, and otherwise a qualifying neighbour; `was_junction` holds exactly when more than one candidate qualified and the swapped goal is not among them |
| Aco.ACO.FindNextStep | ACO.py:87-128 | the loop computes the choice `StepChoice` specifies, including the swapped-goal short-circuit |
| Aco.ACO.WalkPrefix | ACO.py:70-77 | a non-empty prefix of a walk from `start` is a walk from `start` |
| Aco.ACO.BacktrackFacts | ACO.py:70-77 | the prefix a backtrack leaves of a walk is a walk; backtracking to the last cell leaves the path unchanged |
| Aco.PopTo | ACO.py:70-77 | the path left by backtracking to `t` ends at the last occurrence of `t` and keeps everything before it; it is empty when `t` is not on the path |
| Aco.BacktrackedUnique | ACO.py:70-77 | only one prefix ends at the last occurrence of `t`: every backtrack result equals `PopTo` |
| Aco.ACO.WalkExtend | ACO.py:77-80 | appending an open 4-neighbour of the last cell to a walk gives a walk |
| Aco.PopUntil | ACO.py:70-75 | popping until `t` succeeds iff `t` is on the path; it leaves the prefix before the last occurrence of `t`, which pushed back onto is `PopTo`; otherwise the pop on an empty list fails |
| Aco.ACO.AdvanceF | ACO.py:65-80 | one pass of the walk: it fails exactly when it backtracks to a cell not on the path; otherwise it backtracks to the target or appends the step, moves on, and records `pos` when it was a junction |
| Aco.ACO.AdvanceKeeps | ACO.py:65-80 | a pass keeps the path a walk from `start` ending where the ant stands, and a dead end leaves the path unchanged |
| Aco.ACO.Advance | ACO.py:65-80 | the pass computes exactly what `AdvanceF` says, keeps the walk invariant and leaves the path unchanged at a dead end |
| Aco.ACO.Run | ACO.py:65-80 | the loop's outcome from a given ant state: it arrives with the path once `pos` is the goal, and otherwise takes another pass while fuel remains |
| Aco.ACO.Pass | ACO.py:67-80 | one more pass of the loop: `PopFromEmpty` when the pass pops the whole path, otherwise the rest of the walk from the new state |
| Aco.ACO.Fresh | ACO.py:59-62 | the initial ant state: `last_pos` and `pos` at `start`, and `path` and `junctions` both `[start]` |
| Aco.ACO.WalkOf | ACO.py:59-82 | the walk of one ant: the loop's outcome from the initial state |
| Aco.ACO.RunArrives | ACO.py:59-82 | a walk that arrives does so with a path of 4-adjacent open cells from `start` that ends at `goal` |
| Aco.ACO.RunMoreFuel | ACO.py:65 | the fuel only bounds the loop: a walk that ends without running out of fuel ends the same way with more fuel |
| Aco.ACO.WalkAnt | ACO.py:59-82 | the loop returns the walk `Run` gives from the initial ant state: it arrives when the ant reaches `goal`, fails when a pass pops the whole path, and runs out only after `fuel` passes; an arrived path is a walk from `start` to `goal` |
| Aco.Collect | ACO.py:55-85 | the walks of the ants, taken in order, give the batch of all their paths or the first failure |
| Aco.CollectFacts | ACO.py:55-85 | a batch holds every walk's path, in order, exactly when every walk arrives; otherwise it reports the first walk that did not arrive |
| Aco.CollectArrived | ACO.py:55-82 | a batch that is found has one path per walk, in order, and every walk arrived |
| Aco.CollectFailure | ACO.py:55-82 | a batch that fails reports the first walk that did not arrive |
| Aco.CollectSnoc | ACO.py:55-82 | one more walk leaves a failed batch as it was, adds its path to a found one when it arrived, and fails the batch with it otherwise |
| Aco.CollectAbort | ACO.py:55-82 | once a walk fails, no later walk changes the batch |
| Aco.ACO.Walks | ACO.py:55 | there is one walk per ant, none for a non-positive number of ants |
| Aco.ACO.WalksAt | ACO.py:55-82 | entry k of the walks is the walk of ant k |
| Aco.ACO.WalksArrive | ACO.py:55-85 | a batch that is found has one path per ant, each a walk from `start` to `goal` |
| Aco.ACO.FindPaths | ACO.py:52-85 | the result is the batch `Collect` forms from every ant's walk in order (so no ants give an empty batch); a found batch holds one path per ant, each a walk from `start` to `goal`; a failed batch names a walk that did not arrive |
| Aco.ACO.Evaporated | ACO.py:132-133 | a wall stays -1; with an evaporation fraction in [0,1], a non-negative level stays non-negative and does not grow |
| Aco.ACO.Share | ACO.py:137 | `pheromone_per_cell`: `pheromones` divided by the length of the path |
| Aco.ACO.Deposit | ACO.py:136-139 | what deposition adds at a cell: each path's share once per occurrence of the cell on it |
| Aco.ACO.DepositSnoc | ACO.py:136-139 | depositing one more path adds its share once per occurrence at every cell |
| Aco.ACO.DepositTotal | ACO.py:136-139 | over the whole grid, each path deposits exactly `pheromones` in total |
| Aco.ACO.DepositTotalStep | ACO.py:136-139 | one more path of length n, whose every cell gets `pheromones/n` per visit, raises the grid total by exactly `pheromones` |
| Aco.ACO.DepositNonNegative | ACO.py:136-139 | with non-negative `pheromones`, no cell receives a negative deposit |
| Aco.ACO.DepositOffPaths | ACO.py:136-139 | a cell on no path receives nothing |
| Aco.DepositedSnoc | ACO.py:138-139 | the deposit loop's next visit adds one share to its own cell and nothing to any other |
| Aco.DepositedCount | ACO.py:137-139 | after the whole path, each cell holds one share per occurrence of the cell on the path |
| Aco.CountAbsent | ACO.py:138-139 | a cell not on the path is never counted |
| Aco.CountTotal | ACO.py:138-139 | the occurrence counts of a path over the grid add up to its length |
| Aco.ACO.Evaporate | ACO.py:132-133 | every cell becomes its evaporated value, in place |
| Aco.ACO.DepositPath | ACO.py:137-139 | each cell gains `pheromones/len(path)` once per occurrence on the path |
| Aco.ACO.UpdatePheromones | ACO.py:130-139 | each cell becomes its evaporated value plus the deposits of all paths; with no paths that is evaporation alone |
| Aco.ACO.NextIteration | ACO.py:40-46 | the batch is the one every ant's walk gives; a successful iteration evaporates then deposits the batch; a failed walk leaves the grid unchanged; with sane parameters and an open start, the encoding and the set of walls are preserved |
| Aco.ACO.WalkOpen | ACO.py:65-80 | every cell of a walk is in bounds, and when the start is open none is a wall |
| Aco.SumGridAffine | ACO.py:136-139 | summing over the grid is linear, which the deposit total relies on |
| Aco.SumGridPoint | ACO.py:138-139 | a single in-bounds cell counted once sums to one over the grid |
| Renderer.KeyMode | ACORenderer.py:77-85 | `d`, `e` and `t` select draw, erase and toggle; any other key keeps the mode |
| Renderer.KeyModeIdempotent | ACORenderer.py:77-85 | pressing the same key twice is the same as pressing it once |
| Renderer.Toggled | ACORenderer.py:114-115 | a wall -1 becomes 0, a hallway 0 becomes -1, and a positive level falls below -1, outside the wall/level encoding |
| Renderer.ToggleTwice | ACORenderer.py:114-115 | toggling twice restores the original value |
| Renderer.Edited | ACORenderer.py:109-115 | draw writes -1, erase writes a positive level, toggle is undone by toggling; an encoded value stays encoded iff the mode is not toggle or the value was -1 or 0 |
| Renderer.ACORenderer.constructor | ACORenderer.py:15-19 | dimensions come from the optimiser's grid and the mode starts as toggle |
| Renderer.ACORenderer.OnKeyPress | ACORenderer.py:75-89 | the mode after the key is `KeyMode` of the old mode |
| Renderer.ACORenderer.EditCell | ACORenderer.py:109-115 | only `maze[y, x]` changes, and it becomes the edited value; the grid stays encoded iff the mode is not toggle or the cell held -1 or 0 |
| Renderer.ACORenderer.EditFromEvent | ACORenderer.py:96-107 | an event without coordinates, or with x outside [0, width) or y outside [0, height), changes nothing; otherwise exactly the one cell is edited |

## Left out

- Plotting, the colormap, `_redraw`, `show`, `get_maze` and the event wiring
  (ACORenderer.py:1-57, 117-140) are user interface and are not modelled.
- `EditFromEvent` takes the event's coordinates already rounded to integers
  (or absent). The float rounding `int(xdata + 0.5)` is not modelled.
- The `mouse_down` drag state and the mouse handlers that consult it are not
  modelled.
- `OnKeyPress` does not model the `i` key. That key runs `next_iteration`,
  which is modelled separately as `NextIteration` and needs the random
  oracle as input. The model captures only that the `i` key leaves the mode
  unchanged.
- The `print` calls (ACO.py:84, ACORenderer.py:76-87) are not modelled.
- The random module's internals are replaced by oracles: `random.seed`,
  `shuffle`, `random()`, `choices`, `uniform` and `choice`. Their
  distributions are not modelled. This covers the weighted choice by
  pheromone level, the `alpha` probability and the default `seed` evaluated
  at import.
- FindNextStep: it does not build the `weights` list. The weighted choice
  becomes an oracle index modulo the number of candidates, so the model says
  nothing about which candidate a given weighting favours, or about
  `choices` with zero or negative weights.
- `float32` rounding and numpy's vectorised masks are not modelled. Pheromone
  levels are exact reals, and the masked updates are explicit loops.
- `Types.py` holds only type aliases. They become `Coord`, `Path` and `Cell`.
- WalkAnt: the walk carries a fuel bound so that it is total. Running out of
  fuel is reported as `OutOfFuel`, which stands for the source's
  non-terminating loop and is not behaviour of the code; `RunMoreFuel`
  shows that any other outcome does not depend on the fuel. The source's
  `IndexError` from popping an empty path is reported as `PopFromEmpty`;
  either aborts `NextIteration` before any pheromone update.
- NextIteration: it requires the start cell to be inside the grid. A start
  outside the grid (numpy's negative indexing or an `IndexError`) is not
  modelled.
- Advance: it does not claim that an ant never steps straight back from where
  it came. The code does not have that property: after a dead end the ant
  re-appends its corridor cell.
- MazeToArray: it requires a non-empty, rectangular proto-maze, which is what
  `generate_maze` returns. `maze[0]` on an empty list is not modelled.
- GenerateMaze: the carver recurses once per newly visited cell
  (Maze.py:86) and the model lets that recursion go arbitrarily deep.
  Under CPython's default limit of 1000 frames, a search that goes deeper
  raises `RecursionError`; the model never fails that way.
- MazeCarver: its contract and those of `CarveToward` and `GenerateMaze`
  state invariants of the carved grid (connection, symmetry, the edge count
  without cycle draws), not the exact grid. In particular they do not pin
  down the order in which the directions are tried, so nothing states the
  effect of the straightness draw (`Straighten`, Maze.py:54-56) on the
  result. Which extra walls the cycle draws knock down is pinned down only
  step by step, by `KnockToward`.
- GenerateMaze: it requires width and height of at least 1. For an empty
  grid the source's first write at (0,0) raises an `IndexError`, which is not
  modelled.
