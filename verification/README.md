# RollerSplat level engine and level progress, in Dafny

This project models the core of a tile-painting puzzle game. A ball rolls
over a rectangular field and paints every ground tile it crosses. A level is
won when every ground piece is painted.

The model has two parts.

- **The level-layout engine** (`LevelCreator`) works on a `w`-by-`h` grid of
  booleans, where true is ground and false is wall. It has these parts:
  - the deterministic cross ("easy") layout;
  - the random layout, which is a random fill followed by a connectivity
    repair that floods out from the centre;
  - the stack-based "maze" carver;
  - the search for the ball's start tile, which scans ever larger squares
    around the centre.
- **The level-progress bookkeeping** (`GameManager` and `GroundPiece`) covers
  the move counter, the star rating, the once-per-level completion latch,
  the paint latch of each ground piece and the order in which scenes follow
  each other.

Modules, one per component:

- `grid.dfy`, module `Grid`: the layout `seq<seq<bool>>` indexed `g[x][y]`,
  cells, neighbours in the engine's order (up, down, left, right), ground
  counts, and ground paths and reachability.
- `cross.dfy`, module `Cross`: `GenerateEasyLevel`.
- `repair.dfy`, module `Repair`: `GenerateGrid` and `EnsureConnectedGrid`.
- `maze.dfy`, module `Maze`: `GenerateMaze`.
- `start.dfy`, module `StartSearch`: `FindSuitableBallPosition`.
- `painting.dfy`, module `Painting`: `GroundPiece.Colored`.
- `progress.dfy`, module `Progress`: the `GameManager` state machine.

Randomness is passed in as explicit streams:

- `value: nat -> real` is the sequence of `Random.value` draws.
- `pick: nat -> nat` is the sequence of `Random.Range(0, n)` draws. The model
  reduces each draw modulo `n`, so any stream gives a legal index.
- The repair loop, which the source does not bound, also takes a `fuel` count
  of iterations.

What the code does, in the places where a reader might expect otherwise:

- **The maze carver opens the whole field.** It steps one tile at a time into
  any adjacent wall, so it keeps carving until no wall is left, and the
  result has no walls and no corridors. `Maze.GenerateMaze` proves that every
  tile ends up ground. It also proves that the loop runs exactly
  `2*w*h - 1` times: `w*h - 1` pushes and `w*h` pops.
- **The repair loop has no bound.** The counter `currentTiles` counts only
  converted walls (LevelCreator.cs:166). A ground neighbour goes back on the
  open list whenever it is not on it (LevelCreator.cs:168).
  `Repair.EnsureConnected` proves that on an all-ground field with at least
  four tiles the loop never reaches its exit condition, whatever the random
  draws are.
- **Each repair call starts from scratch.** The counter starts at 1 on every
  call (LevelCreator.cs:142), whatever ground the grid already has. On a
  field of at least 4 tiles the target is at least 2, so a call on an
  already repaired grid runs its loop again (LevelCreator.cs:144): it may
  convert further walls or, as above, never stop. On a field of 1 to 3
  tiles the target is at most 1 and the loop does not run at all.
- **The start search returns `(0, 0)` when no tile is ground.** There is no
  separate validity flag. `StartSearch.FindStart` proves that its result is
  ground exactly when some tile is ground, so a caller can tell this case
  apart.
- **The start search tries radii up to `max(w, h) - 1`.**
  `StartSearch.RadiusCoversGrid` shows that this covers every tile.
- **A level that is fully painted when it is set up never completes.** This
  includes a level with no ground pieces. The completion check runs only
  after a first-time painting (GroundPiece.cs:56), and no piece is left to
  paint for the first time. `Progress.PaintedLevelNeverCompletes` proves it.

## Model

| member | source | states |
|---|---|---|
| `Grid.Neighbours` | Assets/Scripts/LevelCreator.cs:150-155 | there are four neighbours; each shares an edge with the tile, and every tile sharing an edge with it is among them (the visiting order up, down, left, right comes from the body, not the contract) |
| `Cross.EasyLevel` | Assets/Scripts/LevelCreator.cs:53-63 | the layout is w by h, with a tile ground iff `x == w/2` or `y == h/2`; the start is `(w/2, h/2)` and is ground whenever the field is non-empty |
| `Cross.CrossGroundCount` | Assets/Scripts/LevelCreator.cs:54-61 | the cross has exactly `w + h - 1` ground tiles (9 on a 5-by-5 field) |
| `Repair.FillRandom` | Assets/Scripts/LevelCreator.cs:112-121 | the fill consumes exactly `w*h` draws, column by column; tile `(x, y)` is ground iff draw `x*h + y` exceeds the wall density |
| `Repair.RemoveFirst` | Assets/Scripts/LevelCreator.cs:147 | removing a tile from the open list shortens it by one when the tile is present, keeps only entries it had, and changes nothing when the tile is absent; on a duplicate-free list the result is duplicate-free, lacks the tile and keeps every other entry |
| `Repair.FirstIndex` | Assets/Scripts/LevelCreator.cs:147 | the position `List<T>.Remove` looks for: an index holding the tile with no earlier occurrence of it |
| `Repair.RemoveFirstKeepsOrder` | Assets/Scripts/LevelCreator.cs:146-147 | removal drops exactly the first occurrence of the tile; the entries before and after it keep their order, which the next positional random pick reads |
| `Repair.ConvertKeepsFrontier` | Assets/Scripts/LevelCreator.cs:162-167 | converting an in-bounds wall next to a reached tile and opening it keeps the repair invariant: only growth, distinct in-bounds ground open tiles, and a ground path from the centre for every open or converted tile |
| `Repair.ReopenKeepsFrontier` | Assets/Scripts/LevelCreator.cs:168-171 | re-opening a ground neighbour that is not on the list keeps the repair invariant |
| `Repair.EnsureConnected` | Assets/Scripts/LevelCreator.cs:129-175 | the centre becomes ground; no ground tile is ever lost; every converted tile and every open tile is reachable from the centre over ground; the counter is 1 plus the number of walls converted after the centre; the loop stops on its own exactly when the list is empty or the counter reaches `(3*w*h)/5`; on an all-ground field of at least 4 tiles it never stops on its own |
| `Repair.GenerateGrid` | Assets/Scripts/LevelCreator.cs:110-127 | the random level has a ground centre; every tile the fill made ground stays ground, and every other ground tile is reachable from the centre |
| `Maze.AllWalls` | Assets/Scripts/LevelCreator.cs:180-185 | the carver starts from a w-by-h field with no ground tile |
| `Maze.WallsAmong` | Assets/Scripts/LevelCreator.cs:200-211 | the unvisited-neighbour list holds exactly the in-bounds walls among the given neighbours, none of them twice |
| `Maze.PushKeepsCarving` | Assets/Scripts/LevelCreator.cs:213-218 | carving and pushing an in-bounds wall adjacent to the stack top keeps the stack invariant: ground entries, origin at the bottom, each entry adjacent to the one below, no repeats, and every ground tile off the stack has no wall neighbour |
| `Maze.PopKeepsCarving` | Assets/Scripts/LevelCreator.cs:219-222 | popping a top with no in-bounds wall neighbour keeps the stack invariant |
| `Maze.GenerateMaze` | Assets/Scripts/LevelCreator.cs:177-226 | starting from all walls with the origin carved, the carver ends with every tile ground (`w*h` ground tiles) after exactly `2*w*h - 1` iterations |
| `StartSearch.RadiusCoversGrid` | Assets/Scripts/LevelCreator.cs:239 | every in-bounds tile lies at Chebyshev distance below `max(w, h)` from the centre, so the radii tried cover the field |
| `StartSearch.NearestGroundUnique` | Assets/Scripts/LevelCreator.cs:238-251 | at most one tile is the nearest ground tile with the scan's tie-break, so the search result is fully determined |
| `StartSearch.FindStart` | Assets/Scripts/LevelCreator.cs:228-255 | a ground centre is returned as is; otherwise, when any tile is ground, the result is the ground tile nearest the centre by Chebyshev distance, with ties going to the smallest x and then the smallest y; `(0, 0)` is returned when no tile is ground; the result is ground iff some tile is |
| `Painting.NewPiece` | Assets/Scripts/GroundPiece.cs:7 | a piece starts uncoloured |
| `Painting.Colored` | Assets/Scripts/GroundPiece.cs:32-56 | after painting the piece is coloured; a coloured piece is left exactly as it was with no check requested; an uncoloured one records the colour and requests one completion check |
| `Painting.PaintLatch` | Assets/Scripts/GroundPiece.cs:32-37 | over any run of paint calls the first colour sticks, a coloured piece never changes, and an uncoloured piece requests exactly one completion check |
| `Progress.StarRating` | Assets/Scripts/GameManager.cs:225-239 | the rating is 1, 2 or 3, and it is 3 exactly when the move count is within the perfect count |
| `Progress.StarsCountThresholds` | Assets/Scripts/GameManager.cs:231-238 | for a non-negative move count the rating is one star plus one per threshold met (`moves <= perfect`, `2*moves <= 3*perfect`) |
| `Progress.StarsNonIncreasing` | Assets/Scripts/GameManager.cs:231-238 | more moves never earn more stars |
| `Progress.Finished` | Assets/Scripts/GameManager.cs:134-143 | the in-order scan with early exit reports finished exactly when every piece is coloured |
| `Progress.SetupNewLevel` | Assets/Scripts/GameManager.cs:90-94 | a new level holds the pieces found in the scene, with no moves made and not complete |
| `Progress.IncrementMoveCount` | Assets/Scripts/GameManager.cs:364-367 | the move counter goes up by exactly one and nothing else changes |
| `Progress.OnLevelComplete` | Assets/Scripts/GameManager.cs:151-158 | completion sets the latch and nothing else, reports the star rating for the current move count, and is perfect exactly when that rating is three stars |
| `Progress.CheckComplete` | Assets/Scripts/GameManager.cs:130-149 | a complete level is left untouched with no report; otherwise completion is reported iff every piece is coloured, and the latch is set exactly when it is reported |
| `Progress.PaintPiece` | Assets/Scripts/GroundPiece.cs:32-56 | painting an already coloured piece changes nothing and reports nothing; a first-time painting records the colour on piece i only, leaves the move counter alone, and runs the completion check, which reports completion exactly when the level was not yet complete and every piece is now coloured; the latch is set exactly when completion is reported |
| `Progress.CompletionFiresOnce` | Assets/Scripts/GameManager.cs:130-153 | over any run of moves and paintings, if the latch starts out matching whether the board is finished it keeps matching; completion is announced once if the run sets the latch and never otherwise; coloured pieces stay coloured; the move counter grows by the number of moves |
| `Progress.FreshLevelCompletesOnce` | Assets/Scripts/GameManager.cs:90-94 | a freshly set-up level with an uncoloured piece announces completion exactly once if play paints every piece and never otherwise; its move counter equals the number of moves |
| `Progress.PaintedLevelNeverCompletes` | Assets/Scripts/GroundPiece.cs:34-56 | a level that is not complete but has every piece coloured (for example one with no pieces) stays incomplete and never announces completion, whatever moves and paintings follow |
| `Progress.CompleteLevelStaysQuiet` | Assets/Scripts/GameManager.cs:132 | once complete, a level stays complete and announces nothing more, whatever happens |
| `Progress.NextSceneIndex` | Assets/Scripts/GameManager.cs:302-307 | for a current index in `[0, count)` the next index is `(current + 1) mod count`, and so stays in `[0, count)` |
| `Progress.ScenesCycle` | Assets/Scripts/GameManager.cs:302-307 | k transitions (k at most count) climb to the last scene and wrap to the first; after `count` transitions play is back at the starting scene |

## Left out

- `GenerateSpiralLevel` (LevelCreator.cs:67-96) is left out: it is floating-point numerics (`Atan2`, `Sqrt`, float modulo).
- `BuildLevel`, `ClearLevel`, `CreateLevelContainer`, `SaveCurrentLevel` and the camera placement are left out: they instantiate scene objects and call the engine.
- `GenerateRandomLevel` and `GenerateMazeLevel` (LevelCreator.cs:35-44, 99-108) only chain a generator, the start search and `BuildLevel`. Their generation steps are modelled one by one and are not composed. `GenerateEasyLevel` builds the cross and places the ball at the centre without the start search, and `Cross.EasyLevel` models that whole composition.
- Repair.EnsureConnected: runs at most `fuel` iterations and proves partial correctness only. The source loop has no bound, and on an all-ground field it provably never exits.
- Repair.EnsureConnected and Repair.GenerateGrid: `Random.value` and `Random.Range` come from separate streams. The interleaving of the two kinds of draw inside Unity's single generator is not modelled.
- Repair.MinTiles: `(int)(w*h*0.6f)` is modelled as the exact floor of `3*w*h/5`. The float constant `0.6f` is slightly above 0.6, but the two agree for any realistic field size.
- The repair threshold `0.3f` and the wall density are modelled as exact reals rather than single-precision floats.
- Progress.StarRating: `moveCount <= moveCountForPerfect * 1.5f` is modelled exactly as `2*moveCount <= 3*moveCountForPerfect`. Single-precision rounding for very large counts is not modelled.
- Progress.IncrementMoveCount: `moveCount` is a 32-bit `int` (GameManager.cs:35), and the unchecked `moveCount++` (GameManager.cs:366) wraps from `int.MaxValue` to `int.MinValue`. The model's counter is unbounded, so its `+ 1`, the move total in `Progress.CompletionFiresOnce` and the non-negative count that `Progress.StarsCountThresholds` requires match the source only below 2^31 moves.
- The cross layout and the random fill require `w >= 0` and `h >= 0`: for a negative dimension `new bool[gridWidth, gridHeight]` (LevelCreator.cs:53, 112) throws, and that exception is not modelled.
- The repair, the maze and the start search require `w >= 1` and `h >= 1`. For an empty field the source indexes the centre or the origin and throws. The cross layout accepts empty fields, as the source does.
- The start search assumes the grid has the configured `gridWidth` by `gridHeight` size, which holds for every grid the source builds.
- Coroutines are left out: fades, the colour lerp, the scale pulse, the glow, the star animation, the combo display and the auto-advance delay.
- Particle effects, audio, camera shake, UI lookups by name, level-number text and the `Time.time` completion time are left out.
- The singleton and `DontDestroyOnLoad` lifecycle and `SceneManager` loading are left out. Only the next-scene index arithmetic is modelled.
- `FindObjectsOfType<GroundPiece>()` becomes the `found` parameter of `SetupNewLevel`.
- A painted piece is always one of the level's pieces (`EventsFit`). A piece outside `allGroundPieces` is not modelled.
- `BallController` is left out: physics movement, swipes and the combo timer. No caller of `IncrementMoveCount` appears in the modelled scripts, so the `Move` event stands for whatever caller the game has.
- `totalPieces` in `CalculateStarRating` is computed but unused, so the model drops it.
