# Game of Life control panel — a Dafny model

This project models the simulation core of a Unity ECS Game of Life, found in
`Assets/GameOfLife.cs`. The core has five parts:

- **The `GridData` indexer** maps a grid position `(x, y)` to the cell entity in
  flat slot `Size.x * x + y` of a reference blob. It returns `Entity.Null` only
  when that flat slot lies outside the blob.
- **`CreateGrid`** instantiates `Size.x * Size.y` cell entities and copies them
  into the blob. It then runs `x` over `[0, Size.x)` and, inside that, `y` over
  `[0, Size.y)`. Each iteration writes the coordinates `(x, y)`, a seeded Alive
  flag and the liveness `z` into the entity in slot `x * Size.x + y`.
- **The step pass** counts the `z` of the eight probes around each cell's stored
  coordinates. It then applies the birth/survival rule to the cell's Alive flag.
- **The pointer pass** forces every cell whose unit square strictly contains
  the pressed point alive (left button) or dead (right button).
- **`OnUpdate`** runs these in order:
  - rebuilds on an edge-triggered Clear or Randomize, then resets both flags;
  - applies the pointer pass;
  - runs the step pass when the clock or a queued single step says so;
  - refreshes every cell's `z` from its Alive flag.

Files:

- `grid.dfy` (module `Grid`) — the indexer, and the slot arithmetic of square
  grids (range, injectivity, inverse). It also shows that a probe past a row's
  end lands in the next row, because only the flat slot is checked.
- `cells.dfy` (module `Cells`) — the cell store as a value, `Arena`. It holds
  one sequence per component (`cx`, `cy`, `z`, `alive`), indexed by entity. The
  module also has the refresh pass and the pointer pass as functions.
- `life.dfy` (module `Life`) — the rule, the neighbour count and the step pass
  as functions. It proves:
  - the step result does not depend on the order cells are visited;
  - the count skips the cell's own z in square grids at least 2 wide;
  - the count written as a sum over flat slots;
  - concrete scenarios: a 1-by-1 grid, and a 3-by-3 grid with a lone centre
    cell, a blinker and the row seam.
- `build.dfy` (module `Build`) — `InputData`, the `InputHook` holder, and what
  `CreateGrid` leaves in the store (`Built`). It proves:
  - which sizes can be built;
  - seeding (all dead on Clear without Randomize or on a percentage of 0;
    all alive on a percentage of 1 or more in square and one-wide grids);
  - `z` mirrors Alive;
  - for positive sizes every stored position lies in the grid, so a press
    outside it changes nothing;
  - the square-grid bijection;
  - the slot collision of a grid taller than wide and at least 2 wide, whose
    last entity is never written;
  - that two negative sizes build a grid of unwritten entities.
- `system.dfy` (module `ControlPanel`) — `class GridControlPanelSystem`:
  - the `GridData` singleton (`sizeX`, `sizeY`, `refs`) and the cell components
    (`cx`, `cy`, `z`, `alive` arrays) are fields;
  - the class invariant keeps every stored position inside a grid of positive
    size across updates, so a press outside such a grid changes no cell;
  - `CreateGrid`, the pointer, step and refresh passes, and `Update` (one
    `OnUpdate`) are methods;
  - each method is proved against the functions above.

Entities are modelled as indices into the component arrays. The blob `refs`
holds entity `i` in slot `i`, as the copy loop of `CreateGrid` leaves it.

Each parallel `ForEach` pass is a sequential loop. This is faithful because
every pass writes only the visited cell's own components. The step pass reads
only `z` and writes only Alive. `Life.StepOrderIndependent` proves that any
visiting order gives the same store.

Inputs that the code reads from the engine are parameters:

- the elapsed time;
- the mouse buttons;
- the pressed point, already scaled to grid units, or `None` when the ray
  misses the zero plane;
- the values `NextFloat` returns. Draw `k` is consumed by iteration `k`, that is
  `(x, y)` with `k = x * Size.y + y`, and only when Randomize is set.

## Where the code departs from the intended behaviour

The model follows the code in each of these cases:

- **Bounds check of the indexer.** The indexer is meant to return an empty
  lookup when either coordinate is outside the grid. The code
  (`Assets/GameOfLife.cs:146-152`) checks only the flat slot. So in a square
  grid `(x, -1)` finds the last cell of row `x - 1`, and `(x, Size.x)` finds the
  first cell of row `x + 1`. See `Grid.LookupWrapsRows` and `Life.SeamCountsNextRow`.
- **Step gate comparison.** A step is meant to run once the current time has
  reached the next scheduled time. The code
  (`Assets/GameOfLife.cs:278`) uses a strict `time > _NextSimTime`.
- **Grid size validation.** A non-positive size is meant to be rejected
  before anything is allocated. `CreateGrid`
  (`Assets/GameOfLife.cs:332-376`) validates nothing:
  - a negative `Size.x * Size.y` makes the `NativeArray` constructor throw;
  - a grid wider than tall, at least 2 wide and at least 1 tall writes past
    the entity array (`Build.LastWriteOutOfRange`);
  - a grid taller than wide and at least 2 wide makes writes collide and
    leaves some entities unwritten, its last entity among them
    (`Build.TallGridLastEntityUnwritten`);
  - two negative sizes give a positive entity count, but the loops never run.
    So every entity stays dead at (0, 0), and a press inside (0, 1) by (0, 1)
    edits all of them although the grid has no position at all
    (`Build.NegativeSizesBuildUnwrittenGrid`, `Build.PressEditsNegativeSizedGrid`);
  - a size whose product exceeds the largest 32-bit int wraps around.

  The model admits the sizes whose writes stay in range and whose true
  product is below 2^31. This is `Build.Buildable`. `Build.WritesInRangeIff`
  characterises the first condition, and `Build.SquareBuildable` shows that a
  square grid qualifies exactly when its side is at most 46340.
- **Skipped ticks.** A tick that does not step is meant to leave all state
  untouched. In the code the refresh pass (`z := Alive ? 1 : 0`) runs on
  every update. It is a no-op exactly on a store whose `z` already mirrors
  Alive, which `Cells.RefreshIsNoopIff` proves in both directions.

## Model

| member | source | states |
|---|---|---|
| Grid.Identity | Assets/GameOfLife.cs:350-353 | The blob the copy loop builds has n slots and holds entity i in slot i, each within [0, n). |
| Grid.SlotInRange | Assets/GameOfLife.cs:146-147 | In an n-by-n grid every in-grid position has its flat slot in [0, n*n). |
| Grid.SlotInjective | Assets/GameOfLife.cs:146-147 | In a grid of width n, two positions whose y lies in [0, n) and that share a flat slot are the same position. |
| Grid.SlotInverse | Assets/GameOfLife.cs:146-147 | Every slot s in [0, n*n) is the slot of exactly the in-grid position (s / n, s % n), so the slot map of a square grid is onto. |
| Grid.LookupNullIff | Assets/GameOfLife.cs:142-154 | The indexer returns Entity.Null exactly when the flat slot Size.x * x + y lies outside the blob, and otherwise the entity stored in that slot. |
| Grid.LookupInGrid | Assets/GameOfLife.cs:142-154 | In a square grid with an n*n blob an in-grid probe is never Entity.Null: it finds the entity in its own slot. |
| Grid.LookupWrapsRows | Assets/GameOfLife.cs:146-152 | Because only the flat index is checked, probe (x, y + n) finds what (x + 1, y) finds and probe (x, y - n) what (x - 1, y) finds. |
| Grid.LookupOutsideRows | Assets/GameOfLife.cs:149-150 | In a square grid a probe in a row before the first with y < n, or after the last with y >= 0, returns Entity.Null. |
| Cells.MirroredIsBinary | Assets/GameOfLife.cs:325-329 | A store whose z mirrors Alive holds only 0 and 1 in z. |
| Cells.Refresh | Assets/GameOfLife.cs:325-329 | The refresh pass keeps one entry per entity in every component. |
| Cells.RefreshMirrors | Assets/GameOfLife.cs:325-329 | After the refresh pass every z equals Alive ? 1 : 0, and Alive and the coordinates are unchanged. |
| Cells.RefreshKeepsMirrored | Assets/GameOfLife.cs:325-329 | On a store whose z already mirrors Alive, the refresh pass changes nothing. |
| Cells.RefreshIsNoopIff | Assets/GameOfLife.cs:325-329 | The refresh pass leaves a store unchanged exactly when its z already mirrors Alive. |
| Cells.Pressed | Assets/GameOfLife.cs:246-255 | The pressed point is the ray's hit point when the ray meets the zero plane, and otherwise exactly the origin (0, 0). |
| Cells.Contains | Assets/GameOfLife.cs:259-260 | A cell that strictly contains the pressed point has the floors of the point's coordinates as its coordinates. |
| Cells.ContainsIff | Assets/GameOfLife.cs:259-260 | A cell strictly contains the pressed point exactly when its coordinates are the floors of the point's coordinates and neither coordinate is an integer. |
| Cells.EditCell | Assets/GameOfLife.cs:262-271 | Outside the point, or with no button down, a cell keeps its Alive flag and z. A cell whose z mirrors Alive keeps mirroring it, and a z in {0, 1} stays in {0, 1}. |
| Cells.Edit | Assets/GameOfLife.cs:257-274 | The pointer pass keeps the number of entities and every stored coordinate. |
| Cells.EditEffect | Assets/GameOfLife.cs:259-271 | A cell not containing the point is untouched. A containing cell becomes alive with z = 1 under the left button, which wins, and otherwise dead with z = 0 under the right button. |
| Cells.EditOnGridLineIsNoop | Assets/GameOfLife.cs:246-255 | A point with an integer coordinate, such as the origin used when the ray misses, changes no cell. |
| Cells.EditOutsideGridIsNoop | Assets/GameOfLife.cs:257-274 | When every cell stores a position of a sizeX-by-sizeY grid, a press with x <= 0, x >= sizeX, y <= 0 or y >= sizeY changes no cell. |
| Cells.EditIdempotent | Assets/GameOfLife.cs:257-274 | Applying the pointer pass twice with the same buttons and point gives what applying it once gives. |
| Cells.EditKeepsMirrored | Assets/GameOfLife.cs:262-271 | The pointer pass keeps z equal to Alive ? 1 : 0. |
| Cells.EditKeepsBinary | Assets/GameOfLife.cs:265-270 | The pointer pass keeps z within {0, 1}. |
| Life.NextAlive | Assets/GameOfLife.cs:309-320 | The rule: the next Alive flag is true exactly when the count is 3, or the cell is alive and the count is 2. |
| Life.NextAliveIdempotent | Assets/GameOfLife.cs:309-320 | Applying the rule twice with the same count gives what applying it once gives. |
| Life.ProbeZRange | Assets/GameOfLife.cs:298-307 | A probe that finds Entity.Null adds 0 to the count. Over a z holding only 0 and 1, every probe adds 0 or 1. |
| Life.LiveNeighbours | Assets/GameOfLife.cs:285-307 | The count sums z over the eight probes, with Entity.Null adding nothing. When z holds only 0 and 1 the count lies in [0, 8]. |
| Life.StepCells | Assets/GameOfLife.cs:283-322 | The step pass yields one next Alive flag per entity. |
| Life.Step | Assets/GameOfLife.cs:283-322 | The step pass keeps the number of entities and leaves the coordinates and z as they were: it writes only Alive. |
| Life.StepInOrder | Assets/GameOfLife.cs:283-322 | Visiting cells one by one in any order writes only Alive and leaves z and the coordinates as they were. |
| Life.StepInOrderAt | Assets/GameOfLife.cs:283-322 | After a sequential visit, each visited cell holds its next Alive flag computed from the unchanged z, and each unvisited cell is unchanged. |
| Life.StepOrderIndependent | Assets/GameOfLife.cs:283-322 | Any visiting order that reaches every cell gives exactly the step pass's result, so the parallel pass is race-free. |
| Life.CountIgnoresOwnCell | Assets/GameOfLife.cs:285-294 | In an n-by-n grid with n >= 2, a cell's count does not depend on its own z. |
| Life.CountBySlots | Assets/GameOfLife.cs:285-307 | A cell's count is the sum of z over the flat slots at offsets -n-1, -n, -n+1, -1, +1, n-1, n and n+1 from its own slot, where slots outside the blob add 0. |
| Life.LoneCellInOneByOneSurvives | Assets/GameOfLife.cs:285-320 | In a 1-by-1 grid a lone live cell reaches itself through two probes, counts 2 and survives. |
| Life.CountInThreeByThree | Assets/GameOfLife.cs:285-307 | In a 3-by-3 grid the count of the cell at (x, y) is the sum of z over the flat slots 3x+y-4 .. 3x+y+4, leaving out 3x+y. |
| Life.CountsInThreeByThree | Assets/GameOfLife.cs:285-307 | The count table of a 3-by-3 grid: for each of the nine cells, its count as an explicit sum of the z of the slots within 4 of its own slot, leaving out its own. |
| Life.LoneCentreCounts | Assets/GameOfLife.cs:285-307 | In a 3-by-3 grid whose only live z is the centre's, the centre counts 0 and each of the other eight cells counts 1. |
| Life.LoneCentreDies | Assets/GameOfLife.cs:285-320 | In a 3-by-3 grid a lone live centre cell counts 0, and all nine cells, the centre included, are dead after the step. |
| Life.BlinkerTurns | Assets/GameOfLife.cs:285-320 | In a 3-by-3 grid a vertical blinker turns, stated for all nine cells: the middle row (slots 3, 4, 5) is alive after the step and the six other cells are dead. |
| Life.SeamCountsNextRow | Assets/GameOfLife.cs:146-152 | In a 3-by-3 grid the cell at (0, 2) counts the live cell (1, 0) through its probe (0, 3). |
| Build.InputHook.constructor | Assets/GameOfLife.cs:122-125 | The holder starts with the given command. |
| Build.Fresh | Assets/GameOfLife.cs:342-345 | Newly instantiated entities: n entries per component. |
| Build.Seed | Assets/GameOfLife.cs:365 | An iteration can seed a live cell only when Randomize is set. |
| Build.Write | Assets/GameOfLife.cs:363-370 | One iteration of the nested loops writes one slot and keeps the number of entities. |
| Build.FillRow | Assets/GameOfLife.cs:361-371 | The first y iterations of row x keep the number of entities. |
| Build.FillRows | Assets/GameOfLife.cs:359-372 | The first x rows keep the number of entities. |
| Build.Built | Assets/GameOfLife.cs:339-372 | CreateGrid leaves Size.x * Size.y entities. |
| Build.WritesInRangeIff | Assets/GameOfLife.cs:359-369 | For positive sizes, no write runs past the entity array exactly when Size.x == 1 or Size.y >= Size.x. |
| Build.WriteInRange | Assets/GameOfLife.cs:363 | When Size.x == 1 or Size.y >= Size.x, every in-loop slot lies in [0, Size.x * Size.y). |
| Build.LastWriteOutOfRange | Assets/GameOfLife.cs:363 | When 1 <= Size.y < Size.x, the last iteration's slot is past the end of the entity array. |
| Build.SquareBuildable | Assets/GameOfLife.cs:339-369 | Every square size n >= 0 keeps its writes in range, and it can be built exactly when n <= 46340, beyond which the 32-bit product Size.x * Size.y overflows. |
| Build.WritesOnceFits | Assets/GameOfLife.cs:359-369 | A square or one-wide grid of non-negative size keeps every write inside its Size.x * Size.y entities. |
| Build.FillRowsMirrored | Assets/GameOfLife.cs:364-370 | The rows of the nested loops keep z equal to Alive ? 1 : 0. |
| Build.FillRowMirrored | Assets/GameOfLife.cs:364-370 | One row of the nested loops keeps z equal to Alive ? 1 : 0. |
| Build.BuiltMirrored | Assets/GameOfLife.cs:364-370 | After CreateGrid every cell's z is 1 exactly when it is alive, and z holds only 0 and 1. |
| Build.FillRowsInGrid | Assets/GameOfLife.cs:359-370 | The rows of the nested loops keep every stored position inside the grid. |
| Build.FillRowInGrid | Assets/GameOfLife.cs:361-370 | One row of the nested loops keeps every stored position inside the grid. |
| Build.BuiltInGrid | Assets/GameOfLife.cs:339-370 | For positive sizes every built cell stores a position of the grid: its loop position if written, and the prefab's (0, 0) otherwise. |
| Build.PressOutsideBuiltGridIsNoop | Assets/GameOfLife.cs:244-274 | For positive sizes a press outside the grid's rectangle leaves a freshly built grid unchanged. |
| Build.NegativeSizesBuildUnwrittenGrid | Assets/GameOfLife.cs:339-370 | With both sizes negative the entity count Size.x * Size.y is positive and the range check passes, but no iteration runs: the store is exactly the fresh one, every entity dead at (0, 0). |
| Build.PressEditsNegativeSizedGrid | Assets/GameOfLife.cs:257-274 | With both sizes negative, a left press at (0.5, 0.5) makes every entity alive with z = 1, although the grid has no position. |
| Build.FillRowsDead | Assets/GameOfLife.cs:364-370 | When no iteration seeds a live cell, the rows leave a dead store dead. |
| Build.FillRowDead | Assets/GameOfLife.cs:364-370 | When no iteration seeds a live cell, one row leaves a dead store dead. |
| Build.ClearBuildsDeadGrid | Assets/GameOfLife.cs:365 | Without Randomize every built cell is dead with z = 0, whatever the draws. |
| Build.NoPercentageBuildsDeadGrid | Assets/GameOfLife.cs:365 | With draws in [0, 1) and PercentageAlive <= 0 every built cell is dead with z = 0. |
| Build.FillRowAt | Assets/GameOfLife.cs:361-370 | In a square or one-wide grid, row x's first y iterations write cell (x, y0) for each y0 < y into its own slot and leave every other in-grid slot unchanged. |
| Build.FillRowsAt | Assets/GameOfLife.cs:359-370 | In a square or one-wide grid, the first x rows write every cell (x0, y0) with x0 < x into its own slot and leave the other in-grid slots unchanged. |
| Build.BuiltCellAt | Assets/GameOfLife.cs:359-370 | In a square or one-wide grid slot x * Size.x + y holds coordinates (x, y). It is alive exactly when Randomize is set and draw x * Size.y + y is below PercentageAlive, and its z matches. |
| Build.BuiltSquareSlot | Assets/GameOfLife.cs:359-370 | In a square grid every slot s is written, and holds the seeded cell (s / n, s % n). |
| Build.FullPercentageBuildsLiveGrid | Assets/GameOfLife.cs:365-370 | With draws in [0, 1), Randomize and PercentageAlive >= 1, every cell of a built square or one-wide grid is alive with z = 1. |
| Build.LookupFindsBuiltCell | Assets/GameOfLife.cs:142-154 | In a built square or one-wide grid, looking up any in-grid (x, y) finds an entity whose stored coordinates are (x, y). |
| Build.TallGridCollides | Assets/GameOfLife.cs:359-370 | A 2-by-3 grid can be built whatever the other fields of the input. Slot 2 ends up holding (1, 0), the later of the two writes to it. Slot 5 is never written and keeps the zero components at (0, 0), which duplicates the real cell (0, 0). |
| Build.FillRowSlots | Assets/GameOfLife.cs:361-370 | Whatever the shape, the first y iterations of row x write (x, y0) into slot Size.x * x + y0 for each y0 < y and leave every other slot unchanged. |
| Build.RowsSkipSlot | Assets/GameOfLife.cs:359-370 | A slot lying at least Size.y past the first slot of each of the first x rows keeps its contents through those rows. |
| Build.TallGridLastEntityUnwritten | Assets/GameOfLife.cs:359-370 | In every buildable grid taller than wide and at least 2 wide, the last entity Size.x * Size.y - 1 is never written: it stays dead at (0, 0) with z = 0. |
| Build.TallGridBuildable | Assets/GameOfLife.cs:339-369 | A 2-by-3 grid passes the range check and has 6 entities, although two of its writes share a slot. |
| Build.TallGridSlot | Assets/GameOfLife.cs:359-370 | In a built 2-by-3 grid slot 0 holds (0, 0), slot 2 holds (1, 0), and slot 5 keeps the zero components of a fresh entity. |
| ControlPanel.GridControlPanelSystem.constructor | Assets/GameOfLife.cs:207-214 | The system starts with the given size, an empty blob, no cells in fresh component arrays and a next simulation time of 0. |
| ControlPanel.GridControlPanelSystem.CreateGrid | Assets/GameOfLife.cs:332-376 | CreateGrid sets the size, copies the identity blob and fills fresh component arrays with exactly Built(command, draws). Its result satisfies the class invariant, and the clock fields are unchanged. |
| ControlPanel.GridControlPanelSystem.Allocate | Assets/GameOfLife.cs:342-345 | The instantiated entities get fresh, distinct component arrays with every component zero. |
| ControlPanel.GridControlPanelSystem.SeedRows | Assets/GameOfLife.cs:359-372 | The outer loop leaves the store equal to Built(command, draws). |
| ControlPanel.GridControlPanelSystem.CopyReferences | Assets/GameOfLife.cs:350-353 | The copy loop yields the blob holding entity i in slot i. |
| ControlPanel.GridControlPanelSystem.SeedRow | Assets/GameOfLife.cs:361-371 | The inner loop for row x leaves the store equal to FillRow of the previous store. |
| ControlPanel.GridControlPanelSystem.Edit | Assets/GameOfLife.cs:257-274 | The in-place pointer pass leaves the store equal to Cells.Edit of the previous store and keeps the class invariant. |
| ControlPanel.GridControlPanelSystem.Press | Assets/GameOfLife.cs:244-275 | With a button down, the store becomes Cells.Edit at Cells.Pressed of the hit: the pressed point, or the origin when the ray misses. Otherwise the store is unchanged. In a grid of positive size a press outside the grid's rectangle changes no cell. |
| ControlPanel.GridControlPanelSystem.Step | Assets/GameOfLife.cs:283-322 | The in-place step pass leaves the store equal to Life.Step of the previous store, and writes only Alive. |
| ControlPanel.GridControlPanelSystem.Refresh | Assets/GameOfLife.cs:325-329 | The in-place refresh pass leaves the store equal to Cells.Refresh of the previous store, with z mirroring Alive. |
| ControlPanel.GridControlPanelSystem.Rebuilds | Assets/GameOfLife.cs:226 | The grid is rebuilt when Clear is set or Randomize is set, and not when neither is. |
| ControlPanel.GridControlPanelSystem.Steps | Assets/GameOfLife.cs:278 | A queued single step always runs. Otherwise the step runs only while playing and only once the time is strictly past the next simulation time. |
| ControlPanel.GridControlPanelSystem.Rebuild | Assets/GameOfLife.cs:225-242 | On Clear or Randomize the grid is rebuilt to Built(command, draws) at the command's size, and both flags are reset. Otherwise the size, the blob and the store are unchanged. Playing, QueStep and the clock are kept. |
| ControlPanel.GridControlPanelSystem.Advance | Assets/GameOfLife.cs:277-323 | The step runs iff (time > next && Playing) or QueStep. When it runs, QueStep is cleared, next becomes time + delta and the store becomes Life.Step of the old one. Otherwise nothing changes. |
| ControlPanel.GridControlPanelSystem.Update | Assets/GameOfLife.cs:221-330 | One OnUpdate does the following. The size and blob are rebuilt iff Clear or Randomize, and the component arrays are then fresh; otherwise the same arrays are kept. The input becomes the old one with Clear, Randomize and QueStep false. The clock advances iff the gate fires. The store becomes Refresh(step-if-gated(edit-if-pressed(rebuilt-or-old))). Afterwards z mirrors Alive in every cell, and the class invariant holds. |

## Left out

- Unity conversion and UI wiring (`Convert`, `DeclareReferencedPrefabs`, input-field and button listeners, `TryParse`, `Assets/GameOfLife.cs:37-119`): engine and UI plumbing. The model receives their result as the `InputData` in `InputHook`.
- `SetCellPrefab` (`Assets/GameOfLife.cs:176-199`): removes rendering components from the prefab, with no effect on the simulation.
- Entity destruction and blob disposal on a rebuild (`Assets/GameOfLife.cs:228-231`): ECS resource management. A rebuild is modelled as replacing the component arrays and the blob with fresh ones.
- Camera raycast and scaling (`Assets/GameOfLife.cs:250-254`) and the material vectors and `_Scale` (`Assets/GameOfLife.cs:236-238`): geometry and rendering. The pressed point arrives already scaled to grid units, or as `None` when the ray misses.
- `SetSpeed` (`Assets/GameOfLife.cs:201-205`): a floating-point lerp and reciprocal. The step interval `simDeltaTime` is a given real.
- Random number generation (`Assets/GameOfLife.cs:358`): replaced by the supplied function `draws` of the values `NextFloat` returns.
- `Debug.Log` (`Assets/GameOfLife.cs:340`): logging only.
- `ScheduleParallel` (`Assets/GameOfLife.cs:274, 322, 329`): concurrency. Each pass is a sequential loop, and `Life.StepOrderIndependent` justifies that for the step pass.
- Floating point in the cell components: `float3` coordinates and liveness are modelled as exact integers, which agrees with the source for grids whose coordinates stay below 2^24.
- `ControlPanel.GridControlPanelSystem.Advance`: the step gate compares exact reals. The source rounds the elapsed time to `float` (`Assets/GameOfLife.cs:277`) and rounds `time + _SimDeltaTime` (`Assets/GameOfLife.cs:281`). That rounding is not modelled, so the model can step on a frame where the rounded comparison would not, and the reverse.
- `ControlPanel.GridControlPanelSystem.CreateGrid`: requires `Build.Buildable`, because the source throws rather than returning an error for a negative entity count (the `NativeArray` constructor) and for a write past the entity array (grids wider than tall). Neither exception path is modelled, and the exception would abort `OnUpdate`.
- `Build.Buildable`: 32-bit wrap-around of `Size.x * Size.y` (`Assets/GameOfLife.cs:339`) and of the slot `x * Size.x + y` (`Assets/GameOfLife.cs:363`) is not modelled. Sizes whose true product reaches 2^31 are excluded rather than wrapped, because the wrapped count is either negative (the constructor throws) or smaller than the loops expect. Below that bound every slot the loops write is below the product, so no write wraps.
- `Life.LiveNeighbours`: the probe slot `x * Size.x + y` of the indexer (`Assets/GameOfLife.cs:146`) is computed without 32-bit wrap-around. This agrees with the source whenever the slot stays below 2^31. In a square grid of side at most 46340 it always does, since n * n + n < 2^31. In a tall grid whose entity count is close to 2^31, a probe one row past the end could wrap. Such grids already have coordinates beyond 2^24, where the float components are not exact either.
- `Build.FullPercentageBuildsLiveGrid`: stated for square and one-wide grids of non-negative size only. In a grid taller than wide and at least 2 wide the last entity is never written and stays dead (`Build.TallGridLastEntityUnwritten`), and with two negative sizes no entity is written at all (`Build.NegativeSizesBuildUnwrittenGrid`).
- `Assets/Cell.cs` is not part of this model beyond its two components. `CellData.Value` becomes `cx`, `cy`, `z` and `CellState.Alive` becomes `alive`; the file has no other behaviour.
- `OnCreate` and `OnDestroy` (`Assets/GameOfLife.cs:207-219`): query and plane set-up and disposal. The constructor stands in for the state they leave.
