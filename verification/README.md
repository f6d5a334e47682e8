# TF-PDP simulation core in Dafny

This project models the sequential core of TF-PDP, a predator/prey agent
simulation written in C++. Two pieces are modelled.

- **The spatial index** (`SpatialIndex`). It is a 16 × 16 grid of buckets
  over the square map `[-map_size, map_size]²`. Each bucket holds agent ids
  in insertion order. The model covers `chunk_index`, `set`, `remove`,
  `moved` and `close_to`.
- **The agent engine** (`Simulation`). It keeps a structure-of-arrays agent
  table with states, positions, last positions, movements and masses. Each
  agent runs a four-state machine: Incubating, Hunting, Splitting and Dead.
  The model covers the per-state actions, `spawn_agent`, position
  integration with clamping to the map box, and the index updates of one
  `step`.

Each OpenMP `parallel for` is modelled as one legal order: a sequential pass
over ascending ids. Coordinates and masses are reals.

Modules:

- `Vec2f` (`vec2f.dfy`): the `vec2f` type and `squared_length`.
- `Buckets` (`buckets.dfy`): the `std::vector` algorithms one bucket goes
  through. These are `std::find`, single-element `erase`, and `std::remove`
  followed by a single-iterator `erase`.
- `SpatialIndex` (`spatial_index.dfy`): the grid.
  - `chunk_index` keeps the C++ `(int)` cast as truncation toward zero. It
    clamps only from above, as the code does.
  - For in-map positions the shifted quotient is non-negative, so
    truncation equals floor there.
  - The two differ just left of the map, where a split parent can sit
    briefly. There, truncation rounds up to column 0.
  - A reference strip geometry (`InStrip`) proves that `chunk_index`
    partitions the map.
  - Every operation returns `Result`. `OutOfRange(c)` stands for the
    exception `std::vector::at` throws on a bad chunk id. The exception
    ends the program, so an `OutOfRange` result carries no grid.
- `Agents` (`agents.dfy`): the table, the configuration, the state
  transition, the three actions, and `spawn_agent`.
- `Engine` (`engine.dfy`): the whole engine.
  - The constructor's table and grid set-up.
  - The passes `update_states`, `update_positions` and
    `update_spatial_index`, each modelled as recursion over ascending ids.
  - `step`.
  - A proof that a step from a table with no position below the map's
    bottom-left edge never makes the grid throw, and keeps that bound.

Several thresholds are not defined in any modelled file. These are
`hunting_mass`, `incubating_mass`, `splitting_mass`, `move_mass_cost`,
`incubate_mass_reward` and `map_size`. They are fields of `Agents.Config`.

The system's design description differs from the code in several places.
The model follows the code:

- The design says `spawn_agent` advances `last_agent_index` when it claims
  a slot past it. The code never advances it. A clone placed at or beyond
  that bound is never visited by `update_states` or `update_positions`.
- The clone is never registered in the grid.
- The design describes a per-agent `eaten` field and an eaten-resolution
  phase at the start of each step. The code has neither. `respawn_agents`
  is empty, and no agent ever becomes Dead.
- The design says a hunter picks the nearest Incubating neighbour and heads
  toward it, with zero movement when there is none. The code does none of
  this.
  - The search starts from agent 0 at distance 0 with a strict `<` test, so
    it always selects agent 0.
  - It does not filter by state.
  - The heading is the hunter's own position minus agent 0's, which points
    away from the target.
- The grid's `std::scoped_lock(critial_region);` declares a local variable
  and takes no lock. The lock has no counterpart in the model.
- `src/Simulation.h` does not match `src/Simulation.cpp`. For example, it
  declares `is_alive`, `velocities` and `mass`. The model follows the `.cpp`
  file.

## Model

| member | source | states |
|---|---|---|
| Vec2f.SquaredLength | src/vec2f.h:10-12 | the squared length is never negative, and it is zero exactly for the zero vector |
| Vec2f.SquareSign | src/vec2f.h:10-12 | each term `x*x` of the squared length is non-negative, and zero exactly when the coordinate is zero |
| Buckets.Find | src/SpatialIndex.cpp:50-51 | `std::find` returns the first position that holds the id; it returns the end position exactly when the id is absent |
| Buckets.EraseAt | src/SpatialIndex.cpp:56 | single-iterator `erase` shortens the bucket by one; elements before the position stay in place and later ones shift down by one |
| Buckets.EraseAtMultiset | src/SpatialIndex.cpp:56 | `erase` removes exactly the one element at the position from the bucket's contents |
| Buckets.EraseFirstCount | src/SpatialIndex.cpp:49-56 | erasing the found occurrence lowers the id's count by exactly one and keeps every other id's count |
| Buckets.EraseOnlyOccurrence | src/SpatialIndex.cpp:49-56 | an id held once is gone after its found occurrence is erased |
| Buckets.Kept | src/SpatialIndex.cpp:25 | the prefix `std::remove` compacts never contains the removed id and is no longer than the bucket |
| Buckets.KeptCounts | src/SpatialIndex.cpp:25 | that prefix drops every copy of the id and keeps every other id with its multiplicity |
| Buckets.KeptSingle | src/SpatialIndex.cpp:25-31 | for an id held once, dropping all copies equals erasing its first occurrence |
| Buckets.KeptAbsent | src/SpatialIndex.cpp:25-30 | `std::remove` of an absent id keeps the bucket as it was |
| Buckets.RemoveThenEraseOne | src/SpatialIndex.cpp:25-31 | `remove` as written leaves a bucket without the id unchanged; otherwise the bucket shrinks by exactly one, whatever the id's count |
| Buckets.RemoveThenEraseOneSingle | src/SpatialIndex.cpp:25-31 | as written, `remove` of an id held once is the intended erase-all |
| Buckets.RemoveThenEraseOneDuplicates | src/SpatialIndex.cpp:25-31 | as written, `remove` of 7 from `[7, 7, 3]` gives `[3, 3]`: both copies vanish and the other id is duplicated |
| Buckets.RemoveThenEraseOneSurvivor | src/SpatialIndex.cpp:25-31 | as written, `remove` of 7 from `[7, 3, 7]` leaves a 7 in the bucket |
| SpatialIndex.New | src/SpatialIndex.cpp:3-12 | construction gives exactly 256 buckets, all empty, holding no ids in total, with chunk size `2*map_size/16`; the grid is valid for a positive map size |
| SpatialIndex.TotalUpdate | src/SpatialIndex.cpp:17 | replacing one bucket changes the total id count by that bucket's change in size |
| SpatialIndex.Truncate | src/SpatialIndex.cpp:73-74 | the `(int)` cast gives the integer next to its argument on the side toward zero |
| SpatialIndex.Column | src/SpatialIndex.cpp:73-74 | a column or row index never exceeds `D-1 = 15` |
| SpatialIndex.ColumnNonNegative | src/SpatialIndex.cpp:71-74 | a column is non-negative exactly when the coordinate is more than `-map_size - chunk_size` |
| SpatialIndex.ColumnInStrip | src/SpatialIndex.cpp:71-74 | every in-map coordinate lies in the geometric strip of its computed column |
| SpatialIndex.StripUnique | src/SpatialIndex.cpp:71-74 | no coordinate lies in two strips |
| SpatialIndex.StripsOrdered | src/SpatialIndex.cpp:71-74 | a lower column's strip ends before a higher column's strip starts |
| SpatialIndex.ColumnIsStrip | src/SpatialIndex.cpp:71-74 | for an in-map coordinate, a column is the computed one exactly when the coordinate lies in that column's strip |
| SpatialIndex.ColumnAtFarEdge | src/SpatialIndex.cpp:73-74 | the coordinate `+map_size` clamps to column `D-1` |
| SpatialIndex.CellIdInjective | src/SpatialIndex.cpp:75 | `x + y*16` is injective on the 16 × 16 cells |
| SpatialIndex.ChunkIndex | src/SpatialIndex.cpp:69-76 | the upper clamp keeps every chunk id below 256, whatever the position |
| SpatialIndex.ChunkIndexInRange | src/SpatialIndex.cpp:69-76 | positions less than one chunk beyond the left and bottom edges, including the whole map, get both parts in `[0, 15]` and a chunk id in `[0, 256)` |
| SpatialIndex.InMapChunkIndexInRange | src/SpatialIndex.h:27-29 | with `divisions_per_dimension = 16`, every in-map position has a chunk id below 256 |
| SpatialIndex.ChunkIndexIsCell | src/SpatialIndex.cpp:69-76 | an in-map position has chunk id `cx + 16*cy` exactly when its x lies in strip `cx` and its y lies in strip `cy` |
| SpatialIndex.ChunkIndexSameShape | src/SpatialIndex.cpp:69-76 | the chunk id depends only on the map and chunk sizes, never on bucket contents |
| SpatialIndex.Set | src/SpatialIndex.cpp:14-18 | `set` succeeds exactly when the chunk id is in range; it appends the id to the end of that bucket, leaves every other bucket unchanged, and adds one to the total |
| SpatialIndex.Remove | src/SpatialIndex.cpp:20-32 | corrected `remove`: the id is absent from its bucket afterwards; every other id keeps its count; the bucket shrinks by the id's count; other buckets are unchanged; with the id absent, nothing changes |
| SpatialIndex.RemoveAsWritten | src/SpatialIndex.cpp:20-32 | `remove` as written succeeds exactly when the chunk id is in range and changes only that bucket; with the id present the bucket shrinks by one, and with it absent nothing changes |
| SpatialIndex.RemoveAsWrittenAgrees | src/SpatialIndex.cpp:25-31 | when the id occurs at most once in its bucket, `remove` as written and the corrected removal agree |
| SpatialIndex.RemoveAsWrittenDuplicates | src/SpatialIndex.cpp:25-31 | on bucket `[7, 7, 3]`, `remove` as written leaves `[3, 3]` where the corrected removal leaves `[3]` |
| SpatialIndex.Moved | src/SpatialIndex.cpp:34-62 | `moved` between positions in one chunk changes nothing; with the id absent from the old bucket it changes nothing; it fails exactly on an out-of-range old chunk, or on an out-of-range new chunk once the id is found; a cross-chunk move erases the first occurrence of the id from the old bucket, keeping the order of the rest, and appends the id to the new bucket; other buckets and the total are preserved |
| SpatialIndex.CloseTo | src/SpatialIndex.cpp:64-67 | `close_to` succeeds exactly when the position's chunk id is in range |
| SpatialIndex.CloseToIsLocal | src/SpatialIndex.cpp:64-67 | `close_to(p)` returns exactly bucket `chunk_index(p)`; two grids that agree on that bucket answer the same, whatever the neighbouring buckets hold |
| SpatialIndex.SetThenCloseTo | src/SpatialIndex.h:16-25 | after `set(i, p)`, `close_to(p)` contains `i` |
| SpatialIndex.RemoveThenCloseTo | src/SpatialIndex.h:19-25 | after the corrected `remove(i, p)`, `close_to(p)` does not contain `i` |
| SpatialIndex.RemoveAsWrittenThenCloseTo | src/SpatialIndex.cpp:20-32 | after `remove(i, p)` as written of an id held once, `close_to(p)` does not contain `i` |
| SpatialIndex.MovedThenCloseTo | src/SpatialIndex.h:22-25 | after a cross-chunk `moved` of an id held once at the old position, `close_to(new)` contains it and `close_to(old)` does not |
| SpatialIndex.MovedKeepsOthers | src/SpatialIndex.cpp:34-62 | a successful `moved` of one id leaves the count of every other id in every bucket unchanged |
| SpatialIndex.MovedTwice | src/SpatialIndex.cpp:49-55 | repeating a cross-chunk `moved` of an id held once is a no-op, because the second call no longer finds the id |
| Agents.NextState | src/Simulation.cpp:111-147 | Incubating becomes Hunting iff `mass >= hunting_mass`, else stays; Hunting becomes Incubating iff `mass <= incubating_mass`, else Splitting iff `mass >= splitting_mass`, else stays; Splitting always leaves, to Hunting iff `mass >= hunting_mass`, else to Incubating; a state is Dead before iff it is Dead after |
| Agents.SplittingOnlyFromHunting | src/Simulation.cpp:120-129 | only a Hunting agent with at least `splitting_mass` enters Splitting |
| Agents.SimulateIncubating | src/Simulation.cpp:206-212 | the Incubating action stops the agent and raises its mass by exactly `incubate_mass_reward`; nothing else changes |
| Agents.NearestAsWritten | src/Simulation.cpp:182-197 | the target search returns its starting candidate or a neighbour from the bucket that is not the hunter itself |
| Agents.NearestAsWrittenKeepsStart | src/Simulation.cpp:182-199 | the target search never replaces a candidate whose distance is 0 or less, so starting from agent 0 at distance 0 it returns agent 0, whatever the neighbours are |
| Agents.SimulateHunting | src/Simulation.cpp:173-204 | the Hunting action takes its heading from agent 0's position and lowers the mass by exactly `move_mass_cost`; other slots, states and positions do not change |
| Agents.FirstDead | src/Simulation.cpp:275-279 | the scan stops at the lowest-index Dead slot, or past the end when there is none |
| Agents.FirstDeadLiveUpdate | src/Simulation.cpp:275-279 | changing a live slot to another live state does not change which slot the scan finds |
| Agents.SpawnAgent | src/Simulation.cpp:273-288 | `spawn_agent` returns -1 exactly when no slot is Dead, and then changes nothing; otherwise it claims the lowest-index Dead slot and sets its state, position and mass; movements, last positions, other slots and `last_agent_index` are unchanged |
| Agents.SimulateSplitting | src/Simulation.cpp:214-226 | the parent is shifted by `(-1, -1)` and its mass halved, even when the spawn fails; if a Dead slot existed, the first one becomes a Splitting clone at the parent's position plus `(1, 1)`; parent and clone masses sum to the original mass; no live slot dies |
| Engine.LiveCountMonotone | src/Simulation.cpp:97-171 | if no live slot becomes Dead, the number of live slots cannot drop |
| Engine.SetEach | src/Simulation.cpp:29-39 | registering the start agents keeps the grid's shape and adds exactly one id per agent |
| Engine.SetOne | src/Simulation.cpp:34 | registering one in-map start agent appends its id to its position's bucket and changes no other bucket |
| Engine.SetOneMembership | src/Simulation.cpp:34 | one `set` adds the registered id to the bucket of its position and to no other bucket, and moves no position to another chunk |
| Engine.SetEachMembership | src/Simulation.cpp:29-39 | after registration, an id is in bucket `c` iff it was there before, or it is a registered agent whose position falls in `c` |
| Engine.StartTable | src/Simulation.cpp:24-50 | all arrays have capacity `n_max`; slots below `n_start` are Incubating at their start positions, with movement `(0.1, 0.1)` and their start masses; the others are Dead at `(0, 0)` with no movement and mass 0; `last_agent_index = n_start`; exactly `n_start` slots are live |
| Engine.LiveCountOfBlocks | src/Simulation.cpp:29-50 | `n_start` live slots followed by Dead ones make exactly `n_start` live slots |
| Engine.Create | src/Simulation.cpp:4-51 | the constructor yields a table of capacity `n_max` with `last_agent_index = n_start` and exactly `n_start` live agents, and a valid grid over the configured map that holds exactly `n_start` ids |
| Engine.CreateRegistersStarts | src/Simulation.cpp:29-41 | after construction, bucket `c` holds id `i` iff `i < n_start` and agent `i`'s start position has chunk id `c` |
| Engine.UpdateAgent | src/Simulation.cpp:100-170 | one `update_states` iteration records the position as the last position, takes the transition, and applies the new state's action: Incubating stops and gains `incubate_mass_reward`; Hunting heads from agent 0 and pays `move_mass_cost`; Splitting halves the mass and shifts by `(-1, -1)`; Dead does nothing; every other slot keeps its movement and last position; only a clone in a previously Dead slot changes otherwise |
| Engine.UpdateAgentSplits | src/Simulation.cpp:214-226 | when the transition is to Splitting and a Dead slot exists, the first Dead slot before the iteration becomes a Splitting clone at the parent's position plus `(1, 1)`, with half the parent's mass and its own old movement; every slot other than the parent and the clone is unchanged |
| Engine.TransitionedSplitClone | src/Simulation.cpp:150-162 | the same clone, stated for the action taken after the transition: the transition into Splitting does not move the first Dead slot |
| Engine.ApplyAction | src/Simulation.cpp:149-169 | the action switch applies exactly the action of the state the slot holds, and touches no other slot except the clone a split claims; a split's clone takes the first Dead slot, Splitting, at the parent's position plus `(1, 1)` with half the parent's mass |
| Engine.ActedCarries | src/Simulation.cpp:100-170 | an agent acted on at id `i` keeps its result through the rest of the pass, and an agent not yet visited still ends in its acted state |
| Engine.UpdateStatesFrom | src/Simulation.cpp:97-171 | from id `i` on, every live slot below `last_agent_index` ends with its transition taken, its position recorded as last position and its action applied; live slots below `i` keep their result; the shape and liveness are kept; slots at or beyond `last_agent_index` keep their movement and last position, and live ones there are untouched |
| Engine.DeadSlotsFrom | src/Simulation.cpp:97-171 | a pass from id `i` leaves a slot that was Dead either Dead with its position, mass and movement, or live as the clone of a Hunting agent of the pass that split; a clone the pass does not visit afterwards still holds the spawn's state, position, mass and movement |
| Engine.DeadSlotStep | src/Simulation.cpp:99-170 | one iteration followed by the rest of the pass gives a Dead slot one of those two fates |
| Engine.DeadSlotCases | src/Simulation.cpp:99-170 | if the rest of the pass gives a slot that iteration `i` leaves Dead one of those fates, the whole pass from `i` gives the slot one too, whether or not iteration `i` claims it |
| Engine.DeadSlotsDone | src/Simulation.cpp:99-100 | a pass with no ids left leaves a Dead slot as it is |
| Engine.DeadSlotCarried | src/Simulation.cpp:99-170 | a slot left Dead by iteration `i` has the fate the rest of the pass gives it, and a clone parent of the rest of the pass is a parent of the whole pass |
| Engine.DeadSlotClaimed | src/Simulation.cpp:150-162 | a slot that iteration `i` takes from Dead is a clone of agent `i`, which was Hunting and split |
| Engine.UpdateStatesDeadSlots | src/Simulation.cpp:97-171 | after `update_states`, every slot that was Dead is still Dead with its position, mass and movement, or is a clone spawned by a splitting agent of the pass |
| Engine.UpdateStates | src/Simulation.cpp:97-171 | after `update_states`, every live slot below `last_agent_index` has taken its transition and its action exactly once; no live agent dies, so the live count cannot drop; live slots at or beyond `last_agent_index` are untouched |
| Engine.ClampAxis | src/Simulation.cpp:241-257 | the map collision puts each coordinate in `[-map_size, map_size]`; it keeps in-range values and sends the rest to the nearer edge |
| Engine.Integrate | src/Simulation.cpp:237-257 | an integrated position always lies in the map box |
| Engine.AdvanceFrom | src/Simulation.cpp:231-258 | each visited slot gets `position + movement*delta`, clamped; slots at or beyond `last_agent_index` and all other fields are untouched |
| Engine.MoveEach | src/Simulation.cpp:264-271 | a sequence of `moved` calls preserves the grid's shape and total id count, and it succeeds when every position involved is less than one chunk beyond the left and bottom edges |
| Engine.MoveEachKeepsOthers | src/Simulation.cpp:264-271 | a pass of `moved` calls over ids `from ..` leaves every bucket's count of each id outside those ids unchanged |
| Engine.MoveEachPlacesFirst | src/Simulation.cpp:264-271 | the id moved first by the pass ends in its new position's bucket and not in its old one, because later moves leave its counts alone |
| Engine.MoveEachPlaces | src/Simulation.cpp:264-271 | after a pass of `moved` calls, an id held once in the bucket of its old position, whose new position falls in another chunk, is in the new position's bucket and not in the old one |
| Engine.NearMapReachable | src/SpatialIndex.cpp:69-76 | `at()` accepts the chunk id of every position less than one chunk beyond the left and bottom edges |
| Engine.UpdatePositions | src/Simulation.cpp:228-262 | `update_positions` sets every slot below `last_agent_index` to its clamped integrated position; later slots, states, masses, movements and last positions are untouched; the index total is kept; the pass succeeds when the visited positions are near the map |
| Engine.UpdatePositionsPlaces | src/Simulation.cpp:228-262 | `update_positions` moves an agent held once in its old chunk, whose clamped new position is in another chunk, from the old bucket to the new one |
| Engine.UpdatePositionsKeepsOthers | src/Simulation.cpp:228-262 | `update_positions` leaves every bucket's count of each id at or beyond `last_agent_index` unchanged |
| Engine.UpdateSpatialIndex | src/Simulation.cpp:264-271 | `update_spatial_index` changes only the grid and keeps its total; it succeeds when every last and current position is near the map |
| Engine.UpdateSpatialIndexPlaces | src/Simulation.cpp:264-271 | `update_spatial_index` moves a slot held once in its last position's chunk, whose current position is in another chunk, from the old bucket to the new one |
| Engine.Step | src/Simulation.cpp:77-90 | a successful step keeps the table's shape, `last_agent_index`, the grid's total and every live agent alive, so the live count cannot drop |
| Engine.UpdateAgentFloor | src/Simulation.cpp:214-226 | one agent update lowers only the acting slot, by at most the split offset, and places a clone above its parent |
| Engine.PassBeforeFinishes | src/Simulation.cpp:97-171 | the pass, resumed at id `k` from the table it holds there, ends as the whole pass does |
| Engine.PassBeforeFloor | src/Simulation.cpp:97-171 | from a table with no position below a bound, the table the pass holds at id `k` has no position below it from `k` on, positions at most 1 below it elsewhere, and no last position below it |
| Engine.HuntingLookupSucceeds | src/Simulation.cpp:173-180 | a hunter whose position is not below `-map_size` gets a bucket from `close_to`, so the lookup cannot throw |
| Engine.PassLookupsSucceed | src/Simulation.cpp:173-180 | in a step from a table with no position below `-map_size`, the `close_to` lookup made at each visited id succeeds |
| Engine.UpdateStatesFloor | src/Simulation.cpp:97-171 | after `update_states` from a table with no position below `-map_size`, visited slots are at most 1 below that bound and unvisited ones are not below it |
| Engine.UpdatePositionsFloor | src/Simulation.cpp:228-262 | with chunks wider than 1, `update_positions` then succeeds and restores the bound for every position |
| Engine.CreateFloored | src/Simulation.cpp:29-50 | the constructed table has no position or last position below `-map_size` |
| Engine.FlooredIndexUpdates | src/Simulation.cpp:264-271 | from a table with no position or last position below `-map_size`, `update_spatial_index` cannot throw |
| Engine.StepStaysOnGrid | src/Simulation.cpp:77-90 | with chunks wider than 1, a step from a table with no position or last position below `-map_size` never throws, and it leaves the table with that bound again |

## Left out

- Concurrency: the OpenMP `parallel for` pragmas, the atomic state loads, stores and compare-exchange, the grid mutex, and the rendering lock in `run`. Each parallel loop is one ascending sequential pass.
- `run`'s batching of steps into groups of 128, `is_done`, and thread start and join in `main`: these are control flow around `step` and hold no state of the model.
- Randomness: the constructor's random engine and uniform distributions. Start positions and masses are inputs. Positions are required to be in the map. The constructor draws each coordinate from `-map_size + splitting_mass` to `map_size - splitting_mass`; that range lies in the map only when `0 <= splitting_mass <= map_size`. The value of `splitting_mass` is not defined in any modelled file, so the model assumes that condition. With a negative `splitting_mass` the constructor could place agents outside the map, and the model does not cover that case.
- `Engine.Create`: requires `n_start <= n_max`. With more start agents than capacity, the C++ constructor writes past the end of `states`, which is undefined behaviour.
- `length`, which uses `sqrt`, and the `normalize` of the hunting heading: floating-point steps. The heading is the `Steering` parameter, applied to the hunter's position and agent 0's.
- `Agents.SimulateHunting`: the mass part and the choice of agent 0 are modelled. The model does not call `close_to` and does not pass its bucket to the target search. `Agents.NearestAsWrittenKeepsStart` proves the search returns agent 0 whatever bucket it gets. The `close_to` lookup itself cannot throw in a step from a floored table: `Engine.CreateFloored` shows the constructor gives such a table, `Engine.StepStaysOnGrid` shows each step keeps it, and `Engine.PassLookupsSucceed` shows every lookup of the pass succeeds.
- `SpatialIndex.Moved`: an `OutOfRange` result for the new chunk carries no grid. The C++ code has already erased the id from the old bucket at `src/SpatialIndex.cpp:56` when `at()` throws at line 60. The exception escapes the OpenMP region and ends the program, so no later state sees that partial effect.
- `vec2f::operator-`, `squared_distance` and `normalize`, used by `src/Simulation.cpp`, are not declared in `src/vec2f.h`. `squared_distance` is modelled as `Vec2f.SquaredLength` of a `Vec2f.Sub`. The hunting heading's `operator-` and `normalize` are not modelled separately; they are part of the `Steering` parameter.
- The `vec2f` constructor is the datatype constructor `Vec2`, which stores `x` and `y` exactly. It has no contract of its own.
- Single-precision float rounding: coordinates and masses are reals. Overflow of the `(int)` cast in `chunk_index` for huge coordinates is not modelled.
- `divisions_over_two` is computed by the grid constructor and never read.
- `src/Simulation.h`, `src/Settings.*`, `src/Visualization.*`, `src/Profiler.h`, `src/main.cpp` and all `LOG(...)` calls: a stale header, UI, argument parsing and tooling.
- `Engine.StepStaysOnGrid`: requires chunks wider than 1, that is a map half-size above 8. The bound used is that no coordinate is below `-map_size`. A split parent at the edge is shifted to `-map_size - 1` before `update_positions` clamps it. With narrower chunks, that position may leave the grid.

## Findings

| source | as written | input that shows it | evidently intended | confidence | as-written member | corrected member |
|---|---|---|---|---|---|---|
| src/SpatialIndex.cpp:25-31 | `remove` calls `std::remove` and then `erase` with the single returned iterator. This erases one element, not the range up to the end. | Bucket `[7, 7, 3]` and `remove(7, p)`: the bucket becomes `[3, 3]`. Bucket `[7, 3, 7]`: a 7 survives. | The erase-remove idiom `erase(remove_it, end())`, which removes every copy and nothing else. | medium, not executed | SpatialIndex.RemoveAsWritten (exhibited by Buckets.RemoveThenEraseOneDuplicates, Buckets.RemoveThenEraseOneSurvivor, SpatialIndex.RemoveAsWrittenDuplicates) | SpatialIndex.Remove |
