# Maze generator and game store of hackaverse

This project is a Dafny model of the two pieces of pure logic in the hackaverse front end.

- **The maze generator** (`generateMaze`).
  - It starts from an `h` by `w` grid with every wall standing.
  - It carves a perfect maze by randomized depth-first backtracking from the top-left cell. Each passage is opened on both sides of the shared edge.
  - It then hands the five persona keys to randomly chosen dead ends.
- **The zustand game store.** This covers its initial state, `move(dx, dy)` and `saveSession(k, id)`. Both operations are pure state-to-state functions.

`Math.random` is a parameter. `shuffle` reads it as a draw function `pick` with `pick(i)` in `0 .. i` at loop counter `i` (`Shuffling.Fair`). The direction shuffles receive one such function per cell (`Carving.FairEverywhere`). This is equivalent to one per visit, because every cell is carved exactly once. Every property below holds for all draws.

Modules:

- `Optional`: the option type used for `unlockKey` and the nullable store fields.
- `Shuffling`: Fisher–Yates `shuffle` and facts about sequences without repeats.
- `MazeGrid`: persona keys, cells, the grid, directions, and the structural predicates:
  - mirrored walls;
  - walled border;
  - passages;
  - reachability through open walls;
  - dead ends.
- `Carving`: the recursive `carve`. The nested `forEach` becomes three mutually recursive functions, `Carve`, `CarveDirs` and `CarveDir`. They terminate on the number of unvisited cells.
- `CarveProofs`: lemmas following the same recursion. They prove that carving yields a perfect maze: every wall mirrored, the border closed, every cell visited and reachable from the start, and exactly `w*h - 1` passages. So the open-wall graph is a spanning tree.
- `MazeGen`: dead-end selection, key placement and `generateMaze`.
- `Store`: `GameState`, the initial state, `move`, `saveSession`, and the behaviour of sequences of store operations.

## Model

| member | source | states |
|---|---|---|
| `Shuffling.Swap` | frontend/src/lib/maze.ts:22 | The two positions exchange their elements and every other position keeps its element, so the multiset is unchanged |
| `Shuffling.ShuffleDown` | frontend/src/lib/maze.ts:20-23 | Running the swap loop down from any counter, with any fair draws, yields a permutation of the input: same length, same multiset |
| `Shuffling.Shuffle` | frontend/src/lib/maze.ts:19-25 | `shuffle` returns a permutation of its input (same length and multiset), whatever the random draws |
| `Shuffling.PermutationKeepsDistinct` | frontend/src/lib/maze.ts:75-77 | A permutation of a sequence without repeats has no repeats, so shuffled dead ends are still distinct cells |
| `MazeGrid.StepOpposite` | frontend/src/lib/maze.ts:40-45 | Stepping in a direction and then in its opposite `(dir + 2) % 4` returns to the start; the opposite of the opposite is the direction itself |
| `MazeGrid.Blank` | frontend/src/lib/maze.ts:33-35 | The starting grid has `h` rows of `w` cells, and every cell has all four walls, no key and no visited flag |
| `MazeGrid.IsDeadEnd` | frontend/src/lib/maze.ts:27-29 | `isDeadEnd` (three of the four flags are 1) holds exactly when one side is open and the other three are walls |
| `MazeGrid.CellsCount` | frontend/src/lib/maze.ts:33-35 | The grid has exactly `w*h` positions |
| `Carving.Mark` | frontend/src/lib/maze.ts:38 | A visit flags its own cell visited and changes no other cell |
| `Carving.MarkVisits` | frontend/src/lib/maze.ts:38 | After the mark, the visited cells are exactly those before plus the current one |
| `Carving.KnockCells` | frontend/src/lib/maze.ts:55-56 | Knocking clears side `dir` of the current cell and side `(dir + 2) % 4` of the neighbour. It changes no other wall flag, visited flag or key |
| `Carving.Knock` | frontend/src/lib/maze.ts:55-56 | Its own contract states only that the grid keeps its shape; `Carving.KnockCells` states which flags it clears |
| `Carving.KnockVisits` | frontend/src/lib/maze.ts:55-56 | Knocking a wall does not change which cells are visited |
| `Carving.Progress` | frontend/src/lib/maze.ts:38 | Marking an unvisited in-grid cell strictly shrinks the set of unvisited cells, which is the measure the recursion ends on |
| `Carving.Carve` | frontend/src/lib/maze.ts:37-60 | `carve` keeps the grid's shape; afterwards the starting cell and every cell visited before are visited |
| `Carving.CarveDirs` | frontend/src/lib/maze.ts:39-59 | The loop over the shuffled directions keeps the shape and never unvisits a cell |
| `Carving.CarveDir` | frontend/src/lib/maze.ts:46-57 | One direction's step keeps the shape and never unvisits a cell |
| `Carving.CarveAll` | frontend/src/lib/maze.ts:33-62 | `carve(0, 0)` on the fully walled grid yields a grid of the requested shape |
| `CarveProofs.MarkStep` | frontend/src/lib/maze.ts:38 | Marking the current cell keeps the carving invariant and opens no passage |
| `CarveProofs.KnockMirrorAt` | frontend/src/lib/maze.ts:55-56 | After a knock, every in-grid side agrees with the facing side of its neighbour, if this held before |
| `CarveProofs.KnockMirrored` | frontend/src/lib/maze.ts:55-56 | Knocking out both sides of an edge preserves the mirror invariant on the whole grid |
| `CarveProofs.KnockWalled` | frontend/src/lib/maze.ts:48-56 | The bounds test makes the knocked wall face an in-grid neighbour, so every border-facing wall stays up |
| `CarveProofs.KnockPassage` | frontend/src/lib/maze.ts:53-56 | Knocking from a visited cell into an unvisited one opens exactly one new passage |
| `CarveProofs.KnockStep` | frontend/src/lib/maze.ts:53-57 | The knock before the recursive call carries the invariant over to the neighbour, opens the side towards it, and adds one passage |
| `CarveProofs.CarveSound` | frontend/src/lib/maze.ts:37-60 | `carve` keeps walls mirrored and the border closed. It keeps the unvisited part sealed. It opens exactly one passage per newly visited cell besides its own |
| `CarveProofs.CarveDirsSound` | frontend/src/lib/maze.ts:39-59 | The direction loop keeps the invariant and opens exactly one passage per newly visited cell |
| `CarveProofs.CarveDirSound` | frontend/src/lib/maze.ts:46-58 | One direction's step keeps the invariant and opens one passage per newly visited cell |
| `CarveProofs.CarveCloses` | frontend/src/lib/maze.ts:37-60 | When `carve` returns, every cell it visited has all its in-grid neighbours visited |
| `CarveProofs.CarveDirsCloses` | frontend/src/lib/maze.ts:39-59 | After the loop, every in-grid neighbour in a looped direction is visited, and so are the neighbours of every cell the loop visited |
| `CarveProofs.CarveDirCloses` | frontend/src/lib/maze.ts:46-58 | After one direction's step, the neighbour in that direction, if in the grid, is visited |
| `CarveProofs.CarveConnects` | frontend/src/lib/maze.ts:37-60 | Every cell that `carve(x, y)` newly visits is reachable from `(x, y)` through open walls |
| `CarveProofs.CarveDirsConnects` | frontend/src/lib/maze.ts:39-59 | Every cell the direction loop visits is reachable from the loop's cell |
| `CarveProofs.CarveDirConnects` | frontend/src/lib/maze.ts:46-58 | Every cell one direction's step visits is reachable from the current cell |
| `CarveProofs.Covered` | frontend/src/lib/maze.ts:62 | If the start is visited and every visited cell has all its neighbours visited, then every cell of the grid is visited |
| `CarveProofs.BlankStart` | frontend/src/lib/maze.ts:33-35 | The walled starting grid meets the carving invariant, with nothing visited and no passage |
| `CarveProofs.CarvedMazeIsPerfect` | frontend/src/lib/maze.ts:32-62 | The carved grid has mirrored walls and a closed border. Every cell is visited and reachable from `(0, 0)`. It has exactly `w*h - 1` passages (a spanning tree) and no key |
| `MazeGen.Flat` | frontend/src/lib/maze.ts:73 | Flattening lists each of the `w*h` cells exactly once, in row-major order |
| `MazeGen.DeadEnds` | frontend/src/lib/maze.ts:74 | The filter keeps exactly the listed cells that are dead ends, and keeps them distinct |
| `MazeGen.KeysDistinct` | frontend/src/lib/maze.ts:65-71 | The five persona keys are pairwise different |
| `MazeGen.Pick` | frontend/src/lib/maze.ts:73-76 | The selection is `min(5, number of dead ends)` distinct cells, all of them dead ends |
| `MazeGen.Assign` | frontend/src/lib/maze.ts:77 | The `i`-th chosen cell gets the `i`-th key. Cells not chosen keep their key, and no wall or visited flag changes |
| `MazeGen.AssignedCells` | frontend/src/lib/maze.ts:77 | After the assignment, the keyed cells are exactly the chosen ones |
| `MazeGen.AssignedOnce` | frontend/src/lib/maze.ts:77 | No key ends up on two cells |
| `MazeGen.AssignedKey` | frontend/src/lib/maze.ts:65-77 | Key `i` of the fixed list is placed exactly when `i` is below the number of chosen cells: the first keys are the ones placed |
| `MazeGen.KeyIndex` | frontend/src/lib/maze.ts:77 | A keyed cell is the `j`-th chosen cell and carries the `j`-th key |
| `MazeGen.SameWalls` | frontend/src/lib/maze.ts:77 | Placing keys changes no wall, so the mirror invariant, border, visited cells, passages, dead ends and open walls carry over |
| `MazeGen.PlacedKeys` | frontend/src/lib/maze.ts:65-77 | On an unkeyed grid: only dead ends get keys, exactly `min(5, dead ends)` of them, each key on at most one cell, and key `i` is placed iff `i` is below the number placed |
| `MazeGen.PlaceKeys` | frontend/src/lib/maze.ts:64-77 | Its own contract states only that the grid keeps its shape; `MazeGen.PlacedKeys` states where the keys go |
| `MazeGen.GenerateMaze` | frontend/src/lib/maze.ts:32-79 | Its own contract states only that the result has `h` rows of `w` cells; `MazeGen.GeneratedMaze` states that it is a perfect maze with the keys placed |
| `MazeGen.GeneratedMaze` | frontend/src/lib/maze.ts:32-79 | `generateMaze` returns a perfect maze (mirrored, walled, every cell visited and reachable from `(0, 0)`, `w*h - 1` passages) with the keys placed as above |
| `Store.Initial` | frontend/src/store.ts:28-47 | The initial state is well formed. It has a 15 by 15 maze and the player at `(0, 0)`. Nothing is pending, no flag is unlocked and no session exists |
| `Store.ValidMoveDefined` | frontend/src/store.ts:53-56 | In a well-formed state the cells `move` reads exist, for every delta |
| `Store.Move` | frontend/src/store.ts:49-64 | `move` never changes the maze, unlock flags or sessions. An off-board target, or a raised wall on side `DirOf(dx, dy)` of the current cell, leaves the state unchanged. Otherwise the player moves to the target and the pending unlock becomes that cell's key or none. A well-formed state stays well formed |
| `Store.DirOf` | frontend/src/store.ts:55 | For each of the four unit deltas, the wall `move` checks is the side that delta steps through, as `carve` numbers the sides |
| `Store.OnBoard` | frontend/src/store.ts:53 | The early-return test passes exactly when the target lies inside the `width` by `height` board; with an empty maze it never does |
| `Store.MoveInDirection` | frontend/src/store.ts:51-63 | A unit move goes to the neighbour and picks up its key exactly when that side of the current cell is open. Otherwise (wall or border) the state is unchanged |
| `Store.MoveFollowsLinks` | frontend/src/store.ts:56-61 | A unit move that changes the position crosses an open wall between adjacent cells |
| `Store.MoveBack` | frontend/src/store.ts:49-64 | In a mirrored maze, after a successful unit move the opposite unit move returns the player to the start cell (the pending unlock becomes that cell's key, which need not be its earlier value) |
| `Store.CornerMoves` | frontend/src/store.ts:53 | From `(0, 0)`, moving north or west changes nothing |
| `Store.MoveDiagonal` | frontend/src/store.ts:55-61 | For the delta `(1, 1)`, `move` checks only the east wall. When that is open it lands on the diagonal cell, which is not linked to the start |
| `Store.SaveSession` | frontend/src/store.ts:67-68 | After `saveSession` the persona has an entry, and a well-formed state stays well formed |
| `Store.SaveSessionFrame` | frontend/src/store.ts:67-68 | `saveSession(k, id)` sets the entry of `k` to `id` and leaves every other persona's entry and every other field unchanged |
| `Store.SaveSessionLastWins` | frontend/src/store.ts:67-68 | A second save for the same persona replaces the first |
| `Store.SaveSessionIdempotent` | frontend/src/store.ts:67-68 | Saving the same id twice equals saving it once |
| `Store.SaveSessionCommutes` | frontend/src/store.ts:67-68 | Saves for different personas commute |
| `Store.MoveSaveCommute` | frontend/src/store.ts:49-68 | A move and a save touch disjoint fields and commute |
| `Store.Apply` | frontend/src/store.ts:24-25 | Either store operation keeps a well-formed state well formed |
| `Store.Run` | frontend/src/store.ts:49-68 | Any sequence of moves and saves keeps the state well formed, the maze unchanged and the unlock flags unchanged |
| `Store.NeverUnlocked` | frontend/src/store.ts:32-38 | From the initial state, no sequence of store operations sets any unlock flag |
| `Store.Walk` | frontend/src/store.ts:49-64 | Unit moves keep the state well formed and the maze unchanged |
| `Store.WalkReaches` | frontend/src/store.ts:51-61 | Wherever a walk of unit moves ends is reachable from its start through open walls |
| `Store.WalkAlong` | frontend/src/store.ts:51-61 | Every open-wall path from the player's cell can be played as unit moves ending at its last cell |
| `Store.WalkableIffReachable` | frontend/src/store.ts:49-64 | A cell can be reached by unit moves exactly when it is connected to the player's cell through open walls |
| `Store.InitialAllWalkable` | frontend/src/store.ts:28-30 | In the initial state every one of the 15 by 15 cells can be reached with unit moves |

## Left out

- Randomness: `Math.random` is replaced by draw functions given as parameters. The model states facts for every fair draw. It does not claim every permutation is equally likely.
- Key placement uses positions in the row-major order of `grid.flat()`, not the JavaScript cell objects. Writing a key into a shared cell object is modelled as an update of the grid at that position.
- The `visited` flag stays set on every returned cell, as in the code; the model keeps it.
- Call-stack depth: `carve` is modelled as the same recursion, with a termination measure (the number of unvisited cells). Stack exhaustion on large grids is not modelled.
- `generateMaze` with `w` or `h` equal to 0: the model requires both to be positive. With an empty grid the code's `carve(0, 0)` reads a missing cell and throws. The store only calls it with 15 by 15.
- `move` with non-integer or floating-point deltas: deltas are unbounded integers. Every integer delta is handled, including the diagonal and `(0, 0)` cases of the direction table.
- Store.Move: requires the cells it reads to exist once the bounds test passes. In a well-formed state this always holds (`Store.ValidMoveDefined`). The code would throw on a ragged maze, which the store never builds.
- The zustand `set` / `get` plumbing and React subscription: the operations are state-to-state functions.
- `frontend/src/hooks/useKeyboardMovement.ts`: DOM key capture is not modelled. It only motivates the unit-delta lemmas (`Store.MoveInDirection`, `Store.Walk`).
- `frontend/src/components/UnlockModal.tsx`: the asynchronous session request and its guard before calling `saveSession` are I/O and not modelled. `saveSession` overwrites any earlier id (`Store.SaveSessionLastWins`); the store keeps no per-persona pending state.
- Nothing sets `unlocked` to true in the store (`Store.NeverUnlocked`). The completion display of `frontend/src/App.tsx` and all rendering components are not modelled.
- `backend/app.py` (the chat server and its calls to a language model) is not part of this model.
