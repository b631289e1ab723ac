# Falling-sand engine: a verified model

This project models the simulation engine of a falling-sand sandbox: a
rectangular grid of typed particles that is stepped once per frame. It covers
two source files.

- `src/engine/mod.rs` holds the grid and its scheduler. `World` owns a
  row-major vector of `Cell`s, a parallel vector of `Wind`s and a wrapping `u8`
  generation counter. `Api` is the handle a rule receives. It is bound to an
  origin `(x, y)` and reads and writes neighbours by relative offset. Every
  write stamps the slot's `clock` with `generation + 1`. `World::tick` runs a
  wind pass, bumps the generation, sweeps the columns (right to left when the
  bumped generation is even, left to right when it is odd), and bumps the
  generation again. The two bumps keep the parity, so the sweep direction
  never changes from one tick to the next: a world from `World::new` starts at
  generation 0 and sweeps left to right on every tick.
- `src/engine/species.rs` holds the rule table. `Species::update` dispatches on
  the tag to the rules for Dust, Sand, Water, Fire and Smoke.

The files are laid out as follows.

- `engine.dfy`: `Cell`, `EmptyCell`, `Wind`, the byte arithmetic, the row-major
  index, and `Grid`, the value of a world's fields at one moment. It also holds
  the `World` class, whose methods overwrite its `cells` in place, the `Api`
  class, and the wind rule.
- `species.dfy`: `Species`, the random choices a rule consumes (`Roll`), one
  specification function per rule on `Grid`, and one `Update*` method per rule.
  Each method performs the source's reads and writes through `Api` and is
  proved to produce exactly its function's grid.
- `rules.dfy`: what each rule does to a grid: which slots change, what they
  become, and which species counts are kept.
- `schedule.dfy`: the wind pass, the sweep and the tick as functions that
  `World.Tick` is proved against, and the facts about the scan order.

Each method that changes a `World` ensures `State() == F(old(State()))` for a
function `F` on `Grid`. Where `F` can panic, it returns an `Outcome` and the method ensures
`Running(State()) == F(old(State()))`. The properties are lemmas about those
functions.

Randomness is an input. `rand_dir` is a `dir` in {-1, 0, 1}, and `rand_vec_8`
is a `(vx, vy)` among the eight neighbour offsets. Both come in a `Roll`, with
one roll for each slot visited in a sweep. `rand_dir_2` is modelled on its draw
from `[0, 100)`.

Some facts about the code shape the model.

- `Api::get` checks no offset bound, so `Api.Get` accepts any offset. Only
  `Api::set` panics on an offset outside `[-2, 2]`, so only `Api.Set` requires
  `-2 <= dx, dy <= 2`.
- The generation is bumped with `wrapping_add(1)`, so it counts modulo 256.
- The sweep updates every slot it reaches, whatever the slot's clock. The
  clock test exists only in `blow_wind`.
- `World::set` indexes the vector directly, so `World.Set` only requires that
  the slot `x + y * width` exists.
- The rule table has nine species. Gas and Oil reach `todo!()`, a panic.
  `Species.Rule` returns the `Outcome` `Panicked` for them and `Running(grid)`
  for the other seven. The sweep and the tick pass a panic on, so a tick
  panics exactly when its sweep reaches a Gas or Oil cell.

## Model

| member | source | states |
|---|---|---|
| `WrappingAddIsModular` | src/engine/mod.rs:117 | `wrapping_add` on bytes is addition modulo 256 |
| `WrappingSubIsModular` | src/engine/mod.rs:138 | byte subtraction, as the staleness test uses it, is subtraction modulo 256 |
| `RowStartIsProduct` | src/engine/mod.rs:190-192 | the start of row `y` is `y * width` |
| `Grid.IndexIsRowMajor` | src/engine/mod.rs:190-192 | `get_index` is `x + y * width`, in `[0, width * height)` for every coordinate of the grid |
| `IndexInRange` | src/engine/mod.rs:190-192 | an in-grid coordinate indexes a slot of the `width * height` cells |
| `IndexInjective` | src/engine/mod.rs:190-192 | distinct in-grid coordinates have distinct indices |
| `Grid.Index` | src/engine/mod.rs:190-192 | the index is a slot of the grid for every in-grid coordinate |
| `World.GetIndex` | src/engine/mod.rs:190-192 | computes `x + y * width`, which is a slot of the cells when the coordinate is in the grid |
| `Grid.Get` | src/engine/mod.rs:206-211 | `EmptyCell` when `x >= width` or `y >= height`, otherwise the stored cell |
| `World.Get` | src/engine/mod.rs:206-211 | the method returns `EmptyCell` off the grid and the stored cell on it |
| `Grid.GetCell` | src/engine/mod.rs:194-196 | the unchecked accessor agrees with `get` on the grid |
| `Grid.GetWind` | src/engine/mod.rs:132-135 | `get_wind` reads the wind at slot `x + y * width`, the slot whose cell `get_cell` reads |
| `Grid.Set` | src/engine/mod.rs:217-219 | the indexed slot holds the new cell and every other slot is unchanged |
| `Grid.GetAfterSet` | src/engine/mod.rs:206-219 | reading back after `set` gives the cell written, and every other coordinate reads as before |
| `World.Set` | src/engine/mod.rs:217-219 | the world's new state is `Grid.Set` of the old one; only the slot must exist |
| `Grid.IsCellFree` | src/engine/mod.rs:221-226 | free exactly when the coordinate is in the grid and the stored cell is `EmptyCell` |
| `World.IsCellFree` | src/engine/mod.rs:221-226 | true exactly when the coordinate is in the grid and its cell equals `EmptyCell` in every field, so its clock is 0 |
| `Grid.Swap` | src/engine/mod.rs:198-204 | the two slots are exchanged and every other slot is unchanged |
| `Grid.SwapPermutes` | src/engine/mod.rs:198-204 | `swap` keeps the multiset of cells |
| `World.Swap` | src/engine/mod.rs:198-204 | the world's new state is `Grid.Swap` of the two coordinates' indices |
| `Grid.Cleared` | src/engine/mod.rs:230-232 | every one of the cells is `EmptyCell`, with dimensions, winds and generation kept |
| `Grid.ClearedIsFree` | src/engine/mod.rs:221-232 | after `clear` every coordinate of the grid is free |
| `World.Clear` | src/engine/mod.rs:230-232 | the world's new state is `Grid.Cleared` of the old one |
| `World.constructor` | src/engine/mod.rs:180-189 | a new world of the given size has all cells `EmptyCell`, all winds zero and generation 0 |
| `Grid.Read` | src/engine/mod.rs:87-102 | `Api::get` on values: a read of Empty is always on the grid, and off the grid it reads a Wall stamped with the current generation |
| `ReadIsStoredOrWall` | src/engine/mod.rs:87-102 | `Api::get` reads the stored cell on the grid and a Wall with `ra = rb = 0` and `clock = generation` off it; a read of Empty is always on the grid |
| `Api.Get` | src/engine/mod.rs:87-102 | returns `Grid.Read` of the world and changes nothing |
| `Grid.Write` | src/engine/mod.rs:104-118 | a write keeps dimensions, winds and generation |
| `Grid.WriteKeepsImplemented` | src/engine/mod.rs:104-118 | writing a cell of an implemented species into a grid without Gas or Oil leaves none |
| `Grid.WriteThenRead` | src/engine/mod.rs:104-118 | off the grid the write changes nothing; on it the target reads `v` with `clock = generation + 1` (wrapping) and every other offset reads as before |
| `Api.Set` | src/engine/mod.rs:104-118 | requires both offsets in `[-2, 2]` (the `oob set` panic); the new state is `Grid.Write` of the old one |
| `Grid.VacatedIsNotFree` | src/engine/mod.rs:104-118 | a slot emptied through `Api::set` is free again only when the generation is 255, since its stamp is otherwise not 0 |
| `Api.RandDir2` | src/engine/mod.rs:120-127 | `rand_dir_2` yields -1 on an even draw and 1 on an odd one, and nothing else |
| `BlowDirection` | src/engine/mod.rs:141-163 | each component is in {-1, 0, 1}; `dx` is decided by `wind.dx - 126` and `dy` by `wind.dy - 126`, each against a threshold of ±40 |
| `ZeroWindBlowsUpLeft` | src/engine/mod.rs:146-163 | the all-zero wind of a new world blows by (-1, -1) |
| `IsStale` | src/engine/mod.rs:138-140 | `clock - generation == 1` in wrapping bytes holds exactly when the clock is `generation + 1` |
| `EvenClockIsNeverStale` | src/engine/mod.rs:138-140 | an even clock is never stale at an even generation, the case of every wind pass in a world built by `World::new` |
| `BlowRule` | src/engine/mod.rs:137-170 | the wind rule keeps dimensions, winds and generation |
| `BlowRulePermutes` | src/engine/mod.rs:137-170 | the wind rule only rearranges cells: their multiset is unchanged |
| `BlowMovesOnlyIntoFreeCells` | src/engine/mod.rs:137-170 | a changed grid means the cell was not stale, the direction is non-zero, the target was free, and the cell was swapped into the target with every other slot unchanged |
| `CalmWindMovesNothing` | src/engine/mod.rs:149-165 | a wind within the threshold on both axes moves nothing |
| `World.BlowWind` | src/engine/mod.rs:137-170 | `blow_wind` through the mediator produces `BlowRule` of the old state |
| `BlowStep` | src/engine/mod.rs:246-256 | one step of the wind loop, `blow_wind` with the cell `get_cell` and the wind `get_wind` read at `(x, y)`, keeps the layout |
| `BlowStepPermutes` | src/engine/mod.rs:246-256 | one step of the wind loop keeps the multiset of cells |
| `World.BlowAt` | src/engine/mod.rs:246-256 | the wind loop body produces `BlowStep` of the old state |
| `WindColumn` | src/engine/mod.rs:245-257 | blowing rows `[0, rows)` of a column keeps dimensions, winds and generation |
| `AfterBlow` | src/engine/mod.rs:245-257 | blowing a column through row `y` keeps dimensions, winds and generation |
| `WindPass` | src/engine/mod.rs:244-258 | the wind pass keeps dimensions, winds and generation |
| `WindColumnPermutes` | src/engine/mod.rs:245-257 | a column of the wind pass keeps the multiset of cells |
| `WindPassPermutes` | src/engine/mod.rs:244-258 | the wind pass keeps the multiset of cells: no particle is created or lost |
| `PermutationKeepsImplemented` | src/engine/mod.rs:244-258 | rearranging a grid without Gas or Oil, as the wind pass does, brings in none |
| `World.RunWindColumn` | src/engine/mod.rs:245-257 | the inner wind loop produces `WindColumn` of the old state |
| `World.RunWindPass` | src/engine/mod.rs:244-258 | the wind loop nest produces `WindPass` over all columns |
| `CalmWindColumnIsIdentity` | src/engine/mod.rs:245-257 | under calm winds a column of the wind pass changes nothing |
| `CalmWindPassIsIdentity` | src/engine/mod.rs:244-258 | under calm winds the wind pass changes nothing |
| `ScanColumn` | src/engine/mod.rs:261-265 | the physical column `width - 1 - x` on even generations and `x` on odd ones lies in `[0, width)` |
| `DescendingIsPermutation` | src/engine/mod.rs:261-265 | the columns `width - 1, ..., 0` are a permutation of `0, ..., width - 1` |
| `SweepOrder` | src/engine/mod.rs:260-265 | the `scanx` of each step of the sweep: `width` columns in `[0, width)`, `k` at step `k` on odd generations and `width - 1 - k` on even ones |
| `SweepVisitsEachColumnOnce` | src/engine/mod.rs:259-282 | a sweep visits `width` columns, a permutation of `[0, width)`, with no column twice |
| `SweepDirectionRepeats` | src/engine/mod.rs:259-282 | the sweep of the next tick, two bumps later, visits the columns in the same order as this one |
| `TickKeepsParity` | src/engine/mod.rs:259-282 | a completing tick keeps the parity of the generation |
| `EvenTickSweepsLeftToRight` | src/engine/mod.rs:259-265 | a tick that starts at an even generation sweeps at an odd one, left to right, so the `width - (1 + x)` branch is not taken |
| `RuleStep` | src/engine/mod.rs:268-278 | the update of the cell stored at `(x, y)` panics exactly when that cell is Gas or Oil, and otherwise keeps the layout |
| `SweepColumn` | src/engine/mod.rs:267-279 | a column sweep over rows `[0, rows)` that completes keeps the layout |
| `AfterRow` | src/engine/mod.rs:267-279 | a column sweep through row `y` that completes keeps the layout |
| `Sweep` | src/engine/mod.rs:260-280 | a sweep over the first `cols` scanned columns that completes keeps the layout |
| `AfterColumn` | src/engine/mod.rs:260-280 | a sweep through the `k`-th scanned column that completes keeps the layout |
| `SweepColumnPrefixRuns` | src/engine/mod.rs:267-279 | if a column sweep completes, so does every shorter prefix of it |
| `SweepPrefixRuns` | src/engine/mod.rs:260-280 | if a sweep completes, so does every shorter prefix of it |
| `SweepStep` | src/engine/mod.rs:260-280 | a completing sweep through column `k` is the sweep before it followed by the whole column `ScanColumn(k)` |
| `SweepColumnRuns` | src/engine/mod.rs:267-279 | a column sweep of a grid without Gas or Oil never panics and leaves none |
| `SweepRuns` | src/engine/mod.rs:260-280 | a sweep of a grid without Gas or Oil never panics and leaves none |
| `World.UpdateAt` | src/engine/mod.rs:268-278 | the sweep loop body, the update of the cell stored at `(x, y)`, takes the column sweep one row further |
| `World.RunSweepColumn` | src/engine/mod.rs:267-279 | the inner sweep loop produces `SweepColumn` of the old state; it requires that the column does not panic |
| `World.RunSweep` | src/engine/mod.rs:260-280 | the sweep loop produces `Sweep` over all columns and records the columns it visits as `SweepOrder` |
| `TickRule` | src/engine/mod.rs:238-283 | a tick that completes keeps dimensions and winds and advances the generation by exactly 2 (mod 256) |
| `TickRunsWithoutGasOrOil` | src/engine/mod.rs:238-283 | a tick of a grid without Gas or Oil never reaches `todo!()` and leaves no Gas or Oil behind |
| `World.Tick` | src/engine/mod.rs:238-283 | `tick` produces the grid of `TickRule` of the old state and visits the columns in `SweepOrder` of the bumped generation; it keeps the parity of the generation, and from an even generation it visits the columns left to right; it requires that the tick does not panic |
| `InertRuleStepIsIdentity` | src/engine/mod.rs:268-278 | on a grid of only Empty and Wall cells, an update changes nothing |
| `InertSweepColumnIsIdentity` | src/engine/mod.rs:267-279 | on a grid of only Empty and Wall cells, a column sweep changes nothing |
| `InertSweepIsIdentity` | src/engine/mod.rs:260-280 | on a grid of only Empty and Wall cells, the sweep changes nothing |
| `PermutationKeepsInert` | src/engine/mod.rs:244-258 | rearranging a grid of only Empty and Wall cells, as the wind pass does, keeps it so |
| `InertTickIsWindPass` | src/engine/mod.rs:238-283 | under any winds, a tick of a grid of only Empty and Wall cells is its wind pass followed by the two generation bumps |
| `InertCalmTickOnlyAdvancesGeneration` | src/engine/mod.rs:238-283 | under calm winds a grid of only Empty and Wall cells is unchanged by a tick, except for the generation |
| `ZeroWindTickMovesWall` | src/engine/mod.rs:185-283 | under the zero winds of `World::new`, a tick of a 2 by 2 grid moves a Wall from `(1, 1)` to the free slot `(0, 0)`, so the grid is not unchanged |
| `SandFallsTwiceInOneTick` | src/engine/mod.rs:238-283 | the sweep updates a grain again after it fell into a row not yet reached: on a 1 by 3 grid with `dir = 0`, Sand at row 0 ends the tick at row 2 |
| `Species.Rule` | src/engine/species.rs:25-37 | the update panics exactly for Gas and Oil (`todo!()`); Empty and Wall leave the grid unchanged; every other rule keeps the layout |
| `Species.Update` | src/engine/species.rs:25-37 | for every species but Gas and Oil, the dispatch produces the grid of `Species.Rule` of the old state |
| `RuleKeepsImplemented` | src/engine/species.rs:25-37 | the rule of an implemented species never panics and brings no Gas or Oil into a grid without them |
| `Fall` | src/engine/species.rs:46-55 | the fall shared by powder and water, decided on earlier reads, keeps the layout |
| `PowderRule` | src/engine/species.rs:40-73 | the powder rule keeps the layout |
| `MoveKeepsImplemented` | src/engine/species.rs:47-48 | moving a cell of an implemented species and emptying the origin brings in no Gas or Oil |
| `PowderKeepsImplemented` | src/engine/species.rs:40-73 | the powder rules bring no Gas or Oil into a grid without them |
| `WritePairMoves` | src/engine/species.rs:47-48 | `set(dx, dy, cell)` then `set(0, 0, EMPTY_CELL)` moves the cell: the target holds it stamped, the origin holds a stamped empty cell, all else is kept |
| `PowderFallsToFirstEmpty` | src/engine/species.rs:40-56 | the grain moves to the first of `(dir, 1)`, `(dir + 1, 1)`, `(dir - 1, 1)` that reads Empty, and the grid is unchanged when none does |
| `PowderKeepsCensus` | src/engine/species.rs:46-55 | Dust and Sand keep every species count |
| `UpdateDust` | src/engine/species.rs:40-56 | `update_dust` produces `PowderRule` of the old state |
| `UpdateSand` | src/engine/species.rs:57-73 | `update_sand` produces the same `PowderRule`, so Dust and Sand behave identically |
| `WaterLift` | src/engine/species.rs:85-89 | the lift keeps the layout |
| `WaterFlow` | src/engine/species.rs:96-115 | the flow keeps the layout |
| `WaterRule` | src/engine/species.rs:75-117 | the water rule keeps the layout |
| `WaterKeepsImplemented` | src/engine/species.rs:75-117 | the water rule brings no Gas or Oil into a grid without them |
| `WaterFlowsWithoutSandAbove` | src/engine/species.rs:96-115 | with no Sand above, water falls like powder; only when all three cells below read non-Empty does it move right, then left, else it stays |
| `WaterKeepsCensusWithoutSandAbove` | src/engine/species.rs:96-115 | with no Sand above, water keeps every species count |
| `WaterLiftSwapsWithSand` | src/engine/species.rs:85-89 | water under Sand is written above and a fresh Sand cell (`ra = rb = 0`) at the origin, keeping every species count |
| `WaterSwapsWithSandAbove` | src/engine/species.rs:85-115 | blocked water under Sand trades places with it: the water is stamped above, a fresh Sand is at the origin, every other slot is unchanged, and every species count is kept |
| `WaterMoveIsWritePair` | src/engine/species.rs:85-115 | water that has a target moves there with `set(d, cell)` then `set(0, 0, EMPTY_CELL)`, after the lift |
| `LiftThenMove` | src/engine/species.rs:85-115 | a lift over Sand followed by a move leaves the water stamped above and at the target, a stamped Empty at the origin, every other slot as it was, and one Sand traded for one water |
| `WaterLiftThenMoveLosesSand` | src/engine/species.rs:85-115 | water under Sand that still moves on the stale reads, to the first of `(dir, 1)`, `(dir + 1, 1)`, `(dir - 1, 1)`, `(1, 0)`, `(-1, 0)` that read Empty (`WaterMovesTo`), writes itself twice and empties the origin: one Sand is lost, one water gained, and no other slot changes |
| `UpdateWater` | src/engine/species.rs:75-117 | `update_water` produces `WaterRule` of the old state |
| `FlowWater` | src/engine/species.rs:96-115 | the flow half of `update_water` produces `WaterFlow` of the state after the lift |
| `IgnitionFuel` | src/engine/species.rs:140-151 | the ignited fire's fuel is `150 + (vx + vy) * 10`, in `[130, 170]` |
| `FireRule` | src/engine/species.rs:119-167 | the fire rule keeps the layout |
| `FireSettle` | src/engine/species.rs:159-166 | the settling of the origin after the ignition writes keeps the layout |
| `FireKeepsImplemented` | src/engine/species.rs:119-167 | the fire rule writes only Fire, Smoke and Empty cells, so it brings no Gas or Oil into a grid without them |
| `FireOutcome` | src/engine/species.rs:119-167 | only the origin and the sampled neighbour change. The neighbour becomes Fire if it read Empty, Gas or Dust. The origin becomes Smoke if `ra < 5` or the neighbour reads Water; otherwise it is the degraded fire with `ra - (2 + dir)` |
| `FireNeverVacates` | src/engine/species.rs:127-166 | no slot becomes Empty, because the moving branch at line 161 reads the fire just written at line 129 and is never taken |
| `FireBurnsDown` | src/engine/species.rs:120-122 | a fire with `ra >= 5` and no Water beside it stays Fire with its fuel lowered by 1 to 3 |
| `UpdateFire` | src/engine/species.rs:119-167 | `update_fire` produces `FireRule` of the old state |
| `SettleFire` | src/engine/species.rs:159-166 | the last step of `update_fire` produces `FireSettle` of the state after the ignition writes |
| `SmokeRule` | src/engine/species.rs:169-182 | the smoke rule keeps the layout |
| `SmokeKeepsImplemented` | src/engine/species.rs:169-182 | the smoke rule brings no Gas or Oil into a grid without them |
| `SmokeRisesOrExpires` | src/engine/species.rs:169-182 | smoke moves into an Empty `(dir, -1)`. Otherwise it empties its slot when `clock > 100`, and else changes nothing |
| `SmokeCensus` | src/engine/species.rs:169-182 | smoke keeps every species count unless it expires, when one smoke becomes one Empty |
| `UpdateSmoke` | src/engine/species.rs:169-182 | `update_smoke` produces `SmokeRule` of the old state |

## Left out

- Temperature: `Cell` has no such field, so the evaporation test at species.rs:91-94 is dropped. The fire written at species.rs:129 has `ra = rb = clock = 0`.
- `Api::set_fluid` (species.rs:134-157): it is not defined on `Api`. It is an optional turbulence channel and is omitted.
- Random sources: `rand::thread_rng` in `rand_dir_2` and the undefined `rand_dir` and `rand_vec_8` are foreign RNG calls. They become parameters constrained to their ranges.
- Api.Get: offsets are mathematical integers. The source computes `self.x + dx as usize` (mod.rs:89-90, 108-109, 166). In a release build that addition wraps modulo 2^64: it gives `x + dx` when that is not negative, and otherwise a huge value that the `nx > width - 1` test puts outside the grid. The model uses the integer sum, which agrees. A debug build checks overflow instead, so there any negative offset from an origin with `x >= 1` (or `y >= 1`) panics; the model does not capture that panic. The same holds for `Api.Set`, `World.IsCellFree` and the wind rule.
- WrappingSubIsModular: `u8` subtraction in `blow_wind` and `update_fire` is modelled as wrapping. A debug build would panic on underflow instead.
- World.constructor: `defaults::WIDTH` and `defaults::HEIGHT` live in a module that is not part of this model, so width and height are parameters (both positive). `Engine` is a trivial wrapper and is not modelled.
- `World::coord` and `World::is_empty` are unused duplicates of `get_index` and an emptiness test, and are not modelled. `update_cell` is inlined into `World.UpdateAt`.
- Gas and Oil: their updates are `todo!()`. The panic is the `Panicked` outcome. Nothing after it is modelled, and `World.Tick` and the sweep methods require that it does not happen. `TickRunsWithoutGasOrOil` shows that a grid without Gas or Oil never panics.
- InertCalmTickOnlyAdvancesGeneration: it describes winds within the threshold, which the code never produces. `World::new` sets every wind to zero, which blows by (-1, -1), and nothing writes `winds` afterwards. Under those winds a tick moves cells up and to the left (`ZeroWindTickMovesWall`); `InertTickIsWindPass` covers every wind.
- EvenClockIsNeverStale: only the arithmetic step is proved. That the clocks of a world built by `World::new` stay even from tick to tick is argued from the stamps, not proved, so the model does not state that the staleness test of `blow_wind` never fires.
- CalmWindColumnIsIdentity: same reason; calm winds do not occur in a world built by `World::new`.
- CalmWindPassIsIdentity: same reason; calm winds do not occur in a world built by `World::new`.
- The window, drawing, colour mapping, buttons, the element property table and `main` are not part of this model.
