# Hexagonal cellular-automaton snowflakes — a verified model of the core

The snowflake generator grows six-fold symmetric "snowflakes" on a hexagonal
lattice. A rule table maps a cell's state and the sum of its six neighbours'
states to the cell's next state. One automaton generation applies the table
to every cell that is alive or next to a living cell. A run starts from a
random seed that is mirror-symmetric inside one sixth of the disk, copies
that wedge through the six rotations, iterates the automaton, and then
rejects results that fall apart or come out too small or too large. The
genetic part of the program breeds rule tables by per-cell crossover.

This project models that deterministic core in Dafny and proves what the
code promises:

- `vec.dfy` (module `Vec`): cube coordinates `(x, y, z)` with
  component-wise `+`, `-` and scalar `*`.
- `hex_grid.dfy` (module `HexGrid`) covers lattice geometry:
  - the fixed-order neighbour lists, with 6 direct neighbours or 12 with diagonals;
  - hex distance;
  - rotation by sixths of a turn and the horizontal flip, both for cells and for whole grids;
  - the first-wins grid union.
- `hex_region.dfy` (module `Regions`): the disk `hex_region(r)` and the
  wedge `tri_region(r)`, as sequences in the exact order the source's range
  views produce them.
- `draws.dfy` (module `Draws`) and `state_table.dfy` (module `StateTable`):
  the random decisions as explicit, pre-drawn inputs; rule tables, their
  dimensions, crossover of two tables, and random tables.
- `automaton.dfy` (module `Automaton`): `state_at`, neighbour sum and
  count, active cells, one generation (`do_cellular_automata_step`), and
  `Iterate`, the k-th generation.
- `connectivity.dfy` (module `Connectivity`): the stack-based flood fill
  `is_connected`, proved equal to graph connectivity through neighbour paths.
- `fitness.dfy` (module `Fitness`): `max_radius`, the integer counters of
  airiness and cragginess, the reject gates of `score_snowflake`, and the
  driver `generate_snowflake`.
- `seed.dfy` (module `Seed`): `random_initial_grid`, which fills the
  mirror-symmetric wedge and then unions its six rotations. The result is
  proved rotation- and mirror-symmetric.

Two points where the code does something other than the obvious reading:

- `union_` (src/hex_grid.cpp:102-107) inserts `g1` first and then `g2`. An
  insert into an `unordered_map` never overwrites, so on a collision the
  FIRST grid's value survives, although a right-biased merge would be the
  natural reading of a union that takes `g2` last. `HexGrid.Union` is
  first-wins. In the wedge seeding no collision ever carries different
  values anyway (`Seed.SameOrbitSameValue`).
- Rule tables have `6 * num_states + 1` columns (src/snowflake.cpp:221),
  one more block than the largest neighbour sum `6 * (num_states - 1)`
  needs. `StateTable.Columns` follows the code, and every reachable
  neighbour sum is a valid column (`Automaton.StepSafe`).

Modelling choices:

- Coordinate rotation (src/hex_grid.cpp:44-52) permutes the components by
  `n mod 3` and negates them for odd `n`. `HexGrid.Rotate` is defined as
  `n` repetitions of one sixth-turn `Turn`, and
  `HexGrid.RotateAgreesWithFormula` proves it equal to the source's formula
  (`HexGrid.RotateFormula`) for every `n >= 0`. Negative `n` is excluded,
  because C++ `%` is then negative and indexes outside the array; the only
  caller passes 0..5.
- `dimensions` reads `tbl.at(0)`, which throws on an empty table;
  `StateTable.Dimensions` returns `None` there, and `MixStateTables`
  propagates it.
- Every random cell decision is one Bernoulli draw that decides dead or
  live, followed, for a live outcome only, by one
  `random_int(num_states - 1)` draw. In the seed a SUCCESS of
  `random_chance(density)` means live; in `random_state_table` a SUCCESS of
  `random_chance(1.0 - alive_prob)` means dead. A `Draws.CellDraw` holds the
  combined outcome, `Dead` or `Live(pick)`, and the models consume
  sequences of them in the source's order. The crossover coins of
  `mix_state_tables` are plain Bernoulli draws with no `random_int`: a
  `seq<bool>` in row-major order.
- `random_int(0)` builds a distribution over the empty range `0..-1`,
  which is undefined. `Draws.ValidDraw` therefore admits no live draw when
  there is a single state (`StateTable.SingleStateTableIsDead`).
- `hex_region(r)` takes `r >= 0`: for every negative `r` its
  `iota(-r, r + 1)` has its lower bound above its upper bound, which
  breaks the precondition of `iota_view` and is undefined behaviour.
  `tri_region(r)` and the seeding take `r >= -1`. At `r = -1` the wedge's ranges `iota(0, 0)` and `iota(1, 1)`
  are empty, so the wedge and the seed are empty
  (`Regions.TriRegionSmallest`, `Seed.RandomInitialGrid`). The wedge's
  bounds are inverted only from `r = -2` down. The requires on
  `Regions.TriRegion`, `Seed.SeedWedge` and `Seed.RandomInitialGrid`
  therefore exclude exactly the radii for which the source's behaviour is
  undefined.

## Model

| member | source | states |
|---|---|---|
| Vec.EqualIffComponents | src/vec.hpp:74-76 | two coordinates are equal exactly when x, y and z are equal |
| Vec.AddSubInverse | src/vec.hpp:79-95 | `(a + b) - b == a`, and `a - b` is the zero vector exactly when `a == b` |
| Vec.ScaleUnitAndZero | src/vec.hpp:97-104 | `1 * v == v` and `0 * v` is the zero vector |
| Vec.ZeroSumClosed | src/vec.hpp:79-104 | sums, differences and scalar multiples of lattice cells (x+y+z=0) are lattice cells |
| Vec.AddCommutes | src/vec.hpp:79-86 | coordinate addition is commutative |
| Vec.AddAssociates | src/vec.hpp:79-86 | coordinate addition is associative |
| HexGrid.Neighbors | src/hex_grid.hpp:21-43 | 6 neighbours without diagonals, 12 with |
| HexGrid.NeighborsDistinct | src/hex_grid.hpp:21-43 | the listed neighbours are pairwise distinct |
| HexGrid.DirectNeighborsFirst | src/hex_grid.hpp:23-32 | the first six of the 12-list are the direct list, in the same order |
| HexGrid.NeighborDistances | src/hex_grid.hpp:23-32 | entries 0..5 lie at distance 1 and entries 6..11 at distance 2; neighbours of a lattice cell are lattice cells |
| HexGrid.DirectNeighborsAreUnitDistance | src/hex_grid.hpp:23-26 | for lattice cells, c is a direct neighbour of h exactly when their distance is 1 |
| HexGrid.OppositeOffset | src/hex_grid.hpp:23-32 | every offset's negation is also in the same offset list |
| HexGrid.NeighborsSymmetric | src/hex_grid.hpp:21-43 | b is a neighbour of a exactly when a is one of b (either list) |
| HexGrid.DirectNeighborIsNeighbor | src/hex_grid.hpp:23-32 | a direct neighbour is also a neighbour with diagonals |
| HexGrid.RotateAgreesWithFormula | src/hex_grid.cpp:44-52 | the sign-and-cyclic-index formula equals n successive sixth-turns, for every n >= 0 |
| HexGrid.FormulaStep | src/hex_grid.cpp:44-52 | the formula at n is one sixth-turn applied to the formula at n-1 |
| HexGrid.RotateCompose | src/hex_grid.cpp:44-52 | rotating by m and then by n is rotating by m+n |
| HexGrid.RotateFullTurn | src/hex_grid.cpp:44-52 | six sixths are the identity |
| HexGrid.RotateMod6 | src/hex_grid.cpp:44-52 | rotation depends only on n mod 6 |
| HexGrid.RotateSmall | src/hex_grid.cpp:44-52 | rotations by 0..5 are the six signed cyclic permutations of (x, y, z) |
| HexGrid.RotateMatchesTable | src/hex_grid.cpp:44-52 | any rotation is one of those six, selected by n mod 6 |
| HexGrid.TurnPreserves | src/hex_grid.cpp:44-52 | one sixth-turn keeps the lattice and all distances |
| HexGrid.RotateOnLattice | src/hex_grid.cpp:44-52 | rotation maps lattice cells to lattice cells |
| HexGrid.RotateFixesOrigin | src/hex_grid.cpp:44-52 | the origin is fixed by every rotation |
| HexGrid.RotateKeepsDistance | src/hex_grid.cpp:44-52 | rotation is an isometry of hex distance |
| HexGrid.RotatePreserves | src/hex_grid.cpp:44-52 | rotation keeps the lattice, pairwise distances and the distance to the origin |
| HexGrid.RotateUndo | src/hex_grid.cpp:44-52 | rotating by n and then by 6 - n mod 6 returns the cell |
| HexGrid.RotateInjective | src/hex_grid.cpp:44-52 | distinct cells have distinct images under each rotation |
| HexGrid.RotateGridEntries | src/hex_grid.cpp:78-85 | every key moves to its rotated key with the same value, and every key of the result is such an image |
| HexGrid.RotateGridSize | src/hex_grid.cpp:78-85 | grid rotation loses no entries |
| HexGrid.FlipInvolution | src/hex_grid.cpp:87-91 | flipping twice is the identity; the flip keeps the lattice and all distances |
| HexGrid.FlipTable | src/hex_grid.cpp:87-91 | conjugating the m-th rotation by the flip gives rotation 6 - m (table form) |
| HexGrid.FlipRotate | src/hex_grid.cpp:87-91 | flip after rotating by n equals rotating the flipped cell by 6 - n |
| HexGrid.FlipGrid | src/hex_grid.cpp:93-100 | the flipped grid holds each value at the flipped key, and nothing else |
| HexGrid.FlipGridSize | src/hex_grid.cpp:93-100 | flipping a grid loses no entries |
| HexGrid.FlipGridInvolution | src/hex_grid.cpp:93-100 | flipping a grid twice gives it back |
| HexGrid.Union | src/hex_grid.cpp:102-107 | keys are the union of both key sets; keys of g1 keep g1's value (first wins), the rest take g2's |
| HexGrid.UnionIdentity | src/hex_grid.cpp:102-107 | the empty grid is a left and right identity of the union |
| HexGrid.DistanceSelf | src/hex_grid.cpp:109-112 | a cell is at distance 0 from itself |
| HexGrid.DistanceSymmetric | src/hex_grid.cpp:109-112 | distance is symmetric |
| HexGrid.DistanceExact | src/hex_grid.cpp:109-112 | for lattice cells the sum of absolute differences is even, so the halving is exact |
| HexGrid.NormIsTwiceMax | src/hex_grid.cpp:109-112 | for a zero-sum difference the absolute sum is twice the largest absolute component |
| HexGrid.NormTriangle | src/hex_grid.cpp:109-112 | the absolute sum obeys the triangle inequality |
| HexGrid.DistanceTriangle | src/hex_grid.cpp:109-112 | hex distance obeys the triangle inequality on lattice cells |
| HexGrid.DistanceFromOrigin | src/hex_grid.cpp:109-112 | a lattice cell's distance to the origin is its largest absolute coordinate |
| Regions.HexRegionMembers | src/hex_grid.hpp:45-62 | the disk holds exactly the zero-sum triples in [-r, r]^3 |
| Regions.HexRegionIsDisk | src/hex_grid.hpp:45-62 | equivalently, the lattice cells at distance at most r from the origin |
| Regions.HexRegionSorted | src/hex_grid.hpp:45-62 | cells come in the cartesian-product (lexicographic) order, each exactly once |
| Regions.HexRegionSize | src/hex_grid.hpp:45-62 | the disk has 3r^2 + 3r + 1 cells |
| Regions.TriRegionMembers | src/hex_grid.hpp:64-80 | the wedge holds exactly (q, t, -q-t) with 0 <= q <= r, -r <= t <= 0, q + t <= 0 |
| Regions.TriRegionSorted | src/hex_grid.hpp:64-80 | q is the outer and t the inner loop, ascending, each cell once |
| Regions.TriRegionSize | src/hex_grid.hpp:64-80 | the wedge has (r+1)(r+2)/2 cells |
| Regions.TriRegionSmallest | src/hex_grid.hpp:64-80 | the wedge of radius -1 is empty (both ranges are empty) and that of radius 0 is the origin alone |
| Regions.TriInHexRegion | src/hex_grid.hpp:64-80 | the wedge lies inside the disk of the same radius |
| Regions.TriRegionFlipClosed | src/hex_grid.hpp:64-80 | a cell is in the wedge exactly when its horizontal mirror is |
| Draws.DrawnState | src/snowflake.cpp:228-231 | a dead draw gives state 0 and a live draw gives a state in 1..numStates-1 |
| StateTable.EmptyTableDimensions | src/snowflake.cpp:40-42 | the zero table built from a non-empty table's dimensions reports those same dimensions back and is rectangular |
| StateTable.ShapedDimensions | src/snowflake.cpp:23-28 | a well-formed table for n >= 1 states measures 6n+1 columns by n rows and is rectangular |
| StateTable.MixStateTables | src/snowflake.cpp:40-49 | the nested loops build exactly the per-cell crossover; an empty first parent yields no table |
| StateTable.CrossoverEntries | src/snowflake.cpp:40-49 | the child has the first parent's dimensions, and each entry is the first parent's when its coin is true and the second's otherwise |
| StateTable.CrossoverSelf | src/snowflake.cpp:40-49 | crossing a rectangular table with itself returns it, whatever the coins |
| StateTable.CrossoverKeepsShape | src/snowflake.cpp:40-49 | crossing two well-formed tables for n states gives a well-formed table for n states |
| StateTable.RandomRow | src/snowflake.cpp:226-233 | a row has 6n+1 entries, each a state below n |
| StateTable.RandomStateTable | src/snowflake.cpp:220-236 | n rows of 6n+1 entries, each a state in 0..n-1 |
| StateTable.RandomStateTableCells | src/snowflake.cpp:226-233 | entry (r, c) is 0 exactly for a dead draw, and 1 + pick for a live one, read in row-major order |
| StateTable.SingleStateTableIsDead | src/snowflake.cpp:220-236 | with a single state every entry is 0 |
| Automaton.StateAtMeansPresence | src/snowflake.cpp:61-66 | in a grid of states 1..n-1 every cell reads a state in 0..n-1, and reads 0 exactly when it is absent |
| Automaton.ActiveCells | src/snowflake.cpp:51-59 | the active set is empty exactly when the grid is empty |
| Automaton.ActiveIffLiveOrLiveNeighbor | src/snowflake.cpp:51-59 | a cell is active exactly when it is alive or has a living direct neighbour |
| Automaton.NeighborIsActive | src/snowflake.cpp:51-59 | every direct neighbour of a living cell is active |
| Automaton.InactiveIsQuiescent | src/snowflake.cpp:51-78 | an inactive cell is dead and its neighbour sum is 0 |
| Automaton.CountPresentIsCard | src/snowflake.cpp:80-90 | over distinct cells, the fold counts the cells present in the grid |
| Automaton.CountPresentBounds | src/snowflake.cpp:80-90 | the count is between 0 and the number of cells, and 0 exactly when none is present |
| Automaton.NeighborCountRange | src/snowflake.cpp:80-90 | the neighbour count is in 0..6 and counts the living direct neighbours |
| Automaton.SumStatesBounds | src/snowflake.cpp:68-78 | with states in 1..n-1 the sum lies between the live count and (n-1) times the cell count, and is 0 exactly when the count is 0 |
| Automaton.NeighborSumRange | src/snowflake.cpp:68-78 | the neighbour sum is in 0..6(n-1), at least the neighbour count, and 0 exactly when no neighbour lives |
| Automaton.SumOfAbsent | src/snowflake.cpp:68-78 | the sum over absent cells is 0 |
| Automaton.SumSingle | src/snowflake.cpp:68-78 | over distinct cells, a one-cell grid contributes its value once if listed and nothing otherwise |
| Automaton.DoStep | src/snowflake.cpp:238-248 | the loop over active cells builds exactly the next generation |
| Automaton.StepUnique | src/snowflake.cpp:238-248 | any grid whose keys are the active cells with a positive table entry, holding that entry, is the next generation |
| Automaton.StepIsLocalRule | src/snowflake.cpp:238-248 | when the table keeps empty quiet cells empty, a cell lives in the next generation exactly when its table entry is positive |
| Automaton.StepSafe | src/snowflake.cpp:242 | with a well-formed table and states in 1..n-1, every lookup is in bounds and the result again has states in 1..n-1 |
| Automaton.StepEmpty | src/snowflake.cpp:238-248 | the empty grid steps to the empty grid |
| Automaton.SingleCellStep | src/snowflake.cpp:238-248 | a lone cell of state v leaves an empty grid exactly when tbl[v][0] and tbl[0][v] are both 0 |
| Automaton.StepPreservesLattice | src/snowflake.cpp:238-248 | a generation of lattice cells produces lattice cells |
| Automaton.StepKeepsLattice | src/snowflake.cpp:238-248 | the same for a well-formed table and grid, whose step is always defined |
| Automaton.Iterate | src/snowflake.cpp:286-288 | every generation keeps the states in 1..n-1 |
| Automaton.IterateUnfold | src/snowflake.cpp:286-288 | generation k is one step from generation k-1, and that step is defined |
| Automaton.IterateEmpty | src/snowflake.cpp:286-288 | the empty grid stays empty for any number of generations |
| Automaton.IteratePreservesLattice | src/snowflake.cpp:286-288 | all generations stay on the lattice |
| Connectivity.IsConnected | src/snowflake.cpp:92-118 | the flood fill answers true exactly when every pair of cells is joined by a neighbour path inside the set |
| Connectivity.PushNeighbors | src/snowflake.cpp:112-115 | the new stack is the old stack followed by the given neighbours that are in the set, in their listed order (`IsConnected` passes the fixed-order neighbour list); so it holds the old entries and exactly those neighbours |
| Connectivity.FillStart | src/snowflake.cpp:94-103 | the initial stack satisfies the flood-fill invariant |
| Connectivity.FillPop | src/snowflake.cpp:105-109 | popping an already visited cell keeps the invariant |
| Connectivity.FillVisit | src/snowflake.cpp:109-115 | visiting a cell and pushing its neighbours in the set keeps the invariant; visited cells are always cells of the set |
| Connectivity.FillDone | src/snowflake.cpp:117 | with an empty stack, visited has as many cells as the set exactly when the set is connected |
| Connectivity.FillOutcome | src/snowflake.cpp:117 | a closed set of reachable cells containing the start covers everything exactly when the set is connected |
| Connectivity.ReachableSymmetric | src/snowflake.cpp:112-115 | reachability is symmetric, because the neighbour relation is |
| Connectivity.ReachableTrans | src/snowflake.cpp:112-115 | reachability is transitive |
| Connectivity.EmptyIsConnected | src/snowflake.cpp:94 | the empty set is connected |
| Connectivity.SingletonIsConnected | src/snowflake.cpp:92-118 | a single cell is connected |
| Connectivity.DirectImpliesDiagonal | src/snowflake.cpp:92-118 | a directly connected set is connected with diagonals too |
| Connectivity.FarPairNotConnected | src/snowflake.cpp:92-118 | two cells at distance 3 or more are not connected, even with diagonals |
| Fitness.MaxRadius | src/snowflake.cpp:120-130 | 0 for the empty grid, otherwise the largest distance of a key to the origin |
| Fitness.KeysInMaxRadiusRegion | src/snowflake.cpp:120-140 | every key lies in the disk of radius max_radius |
| Fitness.MaxRadiusIsLeast | src/snowflake.cpp:120-140 | no smaller disk holds every key |
| Fitness.AirinessCounts | src/snowflake.cpp:132-138 | the loop counts 3r^2 + 3r + 1 cells, of which `air` are absent from the grid |
| Fitness.AirAtMaxRadius | src/snowflake.cpp:132-140 | at the grid's own max_radius the air count is the disk size minus the number of live cells |
| Fitness.LiveNeighborsCount | src/snowflake.cpp:151-155 | the set of live direct neighbours has as many cells as the neighbour count, at most six |
| Fitness.PeripheryIsDeadBorder | src/snowflake.cpp:145-149 | a cell is in the periphery exactly when it is dead and has at least one live direct neighbour |
| Fitness.CragginessCounts | src/snowflake.cpp:142-160 | counts the periphery cells, and among them those with at least 3 living neighbours that are connected among themselves |
| Fitness.TallyDead | src/snowflake.cpp:149-159 | counting one more dead active cell keeps both tallies exact |
| Fitness.TallyDone | src/snowflake.cpp:142-161 | after the loop the counters equal the sizes of the periphery and of its craggy part |
| Fitness.OutwardNeighbor | src/hex_grid.hpp:23-26 | every lattice cell has a direct neighbour one step farther from the origin |
| Fitness.PeripheryNonEmpty | src/snowflake.cpp:142-161 | the periphery is non-empty exactly when the grid is, so the cragginess ratio divides by zero only for the empty grid |
| Fitness.ScoreGates | src/snowflake.cpp:250-265 | rejects exactly the grids not connected even with diagonals, then exactly those whose max_radius lies outside the bounds; a pass records the radius and whether the grid is directly connected |
| Fitness.FarPairRejected | src/snowflake.cpp:250-260 | a grid with two cells at least three apart is rejected as not connected |
| Fitness.GenerateSnowflake | src/snowflake.cpp:282-290 | the result is generation `num_iterations` (none when it is not positive) and keeps states in 1..n-1; it is rejected exactly when not connected even with diagonals, or else when its max_radius is out of bounds; a pass carries that radius, within the bounds, and the Direct grade exactly when the grid is directly connected |
| Fitness.EmptySeedStaysEmpty | src/snowflake.cpp:282-290 | an empty seed stays empty, passes the connectivity gate and has radius 0 |
| Seed.FillWedge | src/snowflake.cpp:201-212 | walking the cells in order, the i-th cell met that is not yet visited (nor its mirror) opens the i-th mirror pair and is decided by draw i, which its mirror shares; `used` is the number of pairs; the draws decide exactly which cells live and with which state |
| Seed.SeedWedge | src/snowflake.cpp:199-212 | over the wedge in its range order, the i-th mirror pair met is decided by draw i and no draw is shared beyond a pair; a cell lives exactly when its draw is live, with state 1 + pick; the wedge grid is mirror-symmetric, inside the wedge and has states in 1..n-1 |
| Seed.RadiusOneWedgeOrder | src/snowflake.cpp:201-212 | the radius-1 wedge is (0,-1,1), (0,0,0), (1,-1,0); the first two cells open the two pairs and the third is the first one's mirror, so draw 0 decides the outer pair and draw 1 the centre |
| Seed.DeadDrawsEmptyWedge | src/snowflake.cpp:206-209 | if every draw is dead the wedge grid is empty |
| Seed.SymmetrizeWedge | src/snowflake.cpp:213-217 | the loop yields the first-wins union of the six rotations |
| Seed.MergedSource | src/snowflake.cpp:213-217 | each merged cell is a rotation of a wedge cell and carries that cell's value |
| Seed.RotationInMerged | src/snowflake.cpp:213-217 | every rotation of every wedge cell is in the merged grid |
| Seed.RotateKeepsMinAbs | src/hex_grid.cpp:44-52 | rotation keeps the smallest absolute coordinate |
| Seed.SectorOrbit | src/hex_grid.hpp:64-80 | two sector cells in the same rotation orbit are equal or mirror images |
| Seed.SameOrbitSameValue | src/snowflake.cpp:205-215 | wedge cells that rotate onto the same cell carry the same value, so the first-wins merge never has to pick between values |
| Seed.GeneratedIsSymmetric | src/snowflake.cpp:198-218 | the merged grid is invariant under a sixth-turn and under the horizontal flip |
| Seed.GeneratedBounds | src/snowflake.cpp:198-218 | the merged grid has states in 1..n-1, lies on the lattice within the radius, and is empty when the wedge is |
| Seed.RandomInitialGrid | src/snowflake.cpp:198-218 | the seed is six-fold rotation- and mirror-symmetric, on the lattice within the radius, with states in 1..n-1, and empty when every draw is dead or the radius is -1 |

## Left out

- Randomness: the global Mersenne twister, `random_chance`, `random_int`
  and `random_element` are not modelled; their outcomes are inputs
  (`Draws.CellDraw` sequences and boolean coins).
- Floating-point scoring: the airiness and cragginess ratios, spikiness
  (`std::pow`), the weighted sum with the 0.5 diagonal score, and
  `mean_score` are left out; only their integer counters and the integer
  reject gates are modelled.
- The density gate of `score_snowflake` (src/snowflake.cpp:267-271) is left
  out: it reads a `min_density` field that `snowflake_metric_params`
  (src/snowflake.hpp:8-16) does not declare, so it has no well-defined
  behaviour to model.
- The generational driver `do_next_generation` / `grow_snowflakes` is left
  out: it is built on the random generator, a parallel transform, floating
  means and console output.
- I/O: settings loading, printing, the title and the terminal renderer
  (`display`, `to_squ_grid`, the tile tables) are left out.
- `vec2` and the hash helpers are left out: Dafny maps and sets need no
  hash function.
- The seed radius is a `double` that the source truncates to `int` at the
  call site; the model takes an integer radius.
- Fitness.CragginessCounts: the model visits the active cells as a set, in
  no particular order; the source iterates a hash set, whose order is
  unspecified, and only the counts matter.
- Seed.SeedWedge: asks for at least one draw per wedge cell, which
  over-approximates the number of pairs the source consumes; only the first
  `used` draws are read.
- Seed.RandomInitialGrid: states symmetry, bounds and the all-dead case; it
  does not restate the individual draw-to-cell mapping, which
  `Seed.SeedWedge` and `Seed.MergedSource` state.
- Connectivity.IsConnected: the order of the pushes onto the stack is
  modelled (`Connectivity.PushNeighbors`), but not which key `grid.begin()`
  yields. The model starts from an arbitrary
  member, which cannot change the answer.
- Grid rotation and flip are maps from keys to values. If two keys ever
  collided, the source's insert-based rebuild would keep one of them.
  Rotations and the flip are injective (`HexGrid.RotateInjective`,
  `HexGrid.FlipInvolution`), so no collision can occur.
- C++ `int` is 32 bits wide; the model's integers are unbounded. The table
  width `6 * num_states` (src/snowflake.cpp:221), the neighbour sums and
  the airiness and cragginess counters are assumed never to overflow.
