# KGP-struct core in Dafny

A model of the computational core of KGP-struct, a small structural-engineering toolkit. It has three parts.

- **Topology optimisation** (`TopologyOptimizer` in `topology_module/backend.py`).
  - I-section properties: area and second moment of area.
  - The ground structure: a 9 × 4 grid of nodes, joined by every bar whose length lies in (1e-3, 1.6 dx].
  - Left-to-right mirror pairing of the bars.
  - One optimisation iteration on top of the finite-element solver's per-bar results:
    - force extraction and the energy proxy force² · length;
    - energy averaging between active twins;
    - a stable sort by energy and the removal count;
    - the soft kill, which multiplies EA and EI by 1e-6;
    - the display data.
- **Bolted-connection design** (`BoltDesigner` in `connection_module/backend.py`). Grade 4.6 bearing bolts in an Fe410 plate, following IS 800:2007:
  - shear capacity (section 10.3.3) and bearing capacity (section 10.3.4);
  - minimum pitch (section 10.2.2) and minimum end distance (section 10.2.4), rounded up to 5 mm;
  - the bolt count, and which failure mode governs.
- **Plastic-hinge simulation** (`PlasticAnalyzer.run_simulation` in `plastic_hinge_module/backend.py`). A fixed-fixed beam with a central point load is loaded in equal steps. Each step is classified as Elastic, Yielding or Collapse from the closed-form moment P·L/8.

Modules (one file each):

| file | module | role |
|---|---|---|
| `base.dfy` | `Base` | `Option`, `Result`, `Abs`/`Max`/`Min`, a few real-arithmetic facts |
| `geometry.dfy` | `Geometry` | points, squared distance, midpoints |
| `section.dfy` | `Section` | `calculate_i_section_properties` |
| `ground.dfy` | `GroundStructure` | grid nodes, `itertools.combinations`, the length filter, member creation |
| `symmetry.dfy` | `Symmetry` | mirror assignment |
| `arena.dfy` | `Arena` | the member list and the element map (id → EA, EI) with their invariants |
| `energy.dfy` | `Energy` | force extraction, energy proxy, twin averaging |
| `prune.dfy` | `Pruner` | stable ranking, removal count, soft kill |
| `optimizer.dfy` | `Optimizer` | `initialize_structure` and `run_iteration` |
| `bolts.dfy` | `BoltDesign` | `get_shear_capacity`, `get_bearing_capacity`, `design_connection` |
| `plastic.dfy` | `PlasticHinge` | `run_simulation` |

Modelling conventions:

- **Numbers.** Floating-point numbers are `real`s with exact arithmetic. `int(x)` and `math.ceil` are written out as truncation toward zero and ceiling.
- **Members and the element map.** The member list is a sequence in which member id k + 1 sits at position k. The solver's element map becomes a map from member id to `Stiffness(ea, ei)`.
- **Solver input.** The solver is not modelled. Its per-member results (`N`, `Nmin`, `Nmax`) are a parameter: a map from member id to `ElementResult`. An id missing from that map reads as a result with no keys (`Energy.ResultFor`), which gives force 0, as `res.get('N', 0)` does for a missing key.
- **Square roots.** `math.hypot` is a parameter `root`. `GroundStructure.BuildGround` and `Optimizer.Initialize` accept any such function. Only the length lemmas (`FilterBySquares`, `GroundLengths`) require the ghost predicate `IsSqrt(root)`, which says that `root` returns square roots. The mirror tolerance test compares squared distances, which is equivalent to comparing distances.
- **Errors.** A Python exception that ends the call is a `Failure` of a `Result`:
  - `ZeroDivisionError` in the bolt design and in the load increment;
  - `IndexError` when more members are to be removed than are active.

## Model

| member | source | states |
|---|---|---|
| Section.IProperties | topology_module/backend.py:16-28 | the area (two flanges plus the web) equals the outer rectangle B·D minus the two side voids (B − tw)(D − 2tf) |
| Section.InertiaIsSumOfParts | topology_module/backend.py:24-26 | the "outer rectangle minus inner rectangles" Ixx equals the built-up value: the web's own inertia plus both flanges shifted by the parallel-axis term |
| Section.ProperSectionIsPositive | topology_module/backend.py:16-28 | for 0 < tf, 2tf < D and 0 < tw ≤ B, both the area and Ixx are positive |
| Geometry.Midpoint | topology_module/backend.py:78-79 | twice each coordinate of the stored midpoint is the sum of the end nodes' coordinates, so it is the one point halfway between them; it is equidistant from both end nodes |
| GroundStructure.Nodes | topology_module/backend.py:49-57 | the grid has (8 + 1) · (3 + 1) = 36 nodes |
| GroundStructure.NodeAt | topology_module/backend.py:55-57 | node i·4 + j sits at (i·span/8, j·height/3), column by column |
| GroundStructure.NodesDistinct | topology_module/backend.py:49-57 | on a grid of non-zero span and height, no two nodes coincide |
| GroundStructure.Combinations | topology_module/backend.py:66 | every index pair i < j < n occurs, each entry is such a pair, and the pairs come in lexicographic order, as `itertools.combinations` yields them |
| GroundStructure.Kept | topology_module/backend.py:66-70 | a pair survives exactly when it was offered and its length lies in (1e-3, max_dist]; the order is kept |
| GroundStructure.Connect | topology_module/backend.py:70-90 | the k-th member is built from the k-th surviving pair, with id firstId + k, the pair's end nodes, their midpoint and the hypot length |
| GroundStructure.GroundPairs | topology_module/backend.py:59-70 | the ground structure's node pairs are exactly the pairs a < b < 36 whose length lies in (1e-3, 1.6·span/8], in lexicographic order |
| GroundStructure.BuildGround | topology_module/backend.py:48-90 | the ground structure has one member per node pair that passes the length filter (the pairs of `GroundPairs`); `GroundMembers` gives each member's fields |
| GroundStructure.GroundMembers | topology_module/backend.py:73-90 | members are numbered 1, 2, … in creation order, start active with zero energy and no mirror, and carry their end nodes, midpoint and length |
| GroundStructure.FilterBySquares | topology_module/backend.py:67-70 | the filter 1e-3 < hypot ≤ max_dist holds exactly when 1e-6 < squared distance ≤ max_dist² |
| GroundStructure.GroundLengths | topology_module/backend.py:60-70 | every member's length and squared length lie inside the filter window |
| GroundStructure.GroundComplete | topology_module/backend.py:66-90 | every node pair that passes the filter becomes a member with those endpoints |
| GroundStructure.GroundNoDuplicates | topology_module/backend.py:62-66 | for non-zero span and height, no two members join the same unordered pair of nodes, although the source's de-duplication set is never used |
| Arena.TwinIndex | topology_module/backend.py:200-203 | the twin is another member with no mirror of its own, and on an arena with consecutive ids it is the member whose id is the mirror id |
| Arena.TwinIsLookup | topology_module/backend.py:202 | finding the twin by position gives the same member as the source's first-match search by mirror id (`FindById`) |
| Arena.FindById | topology_module/backend.py:202 | `next(...)` returns the first member with the requested id, or nothing when no member has it |
| Arena.FindByIdIsIndex | topology_module/backend.py:240 | with ids 1..n in order, the lookup by id finds position id − 1, and finds nothing for ids outside 1..n |
| Symmetry.FirstCandidate | topology_module/backend.py:107-113 | the chosen candidate is right of the centre line and within 0.1 of the target, and no earlier member qualifies; with no choice, none qualifies |
| Symmetry.AssignMirrors | topology_module/backend.py:92-117 | only mirrors change; a left member's mirror is the first qualifying right member; a left member gets no mirror only when nothing qualifies |
| Symmetry.AssignMirrorsWellFormed | topology_module/backend.py:96-117 | mirror ids are in range, never self-referential, and point at members with no mirror of their own |
| Symmetry.CrossingDiagonalsShareTwin | topology_module/backend.py:107-113 | two crossing left diagonals share a midpoint, so both receive the same right twin |
| Energy.Present | topology_module/backend.py:184 | the kept samples are exactly the non-`None` entries |
| Energy.MaxAbs | topology_module/backend.py:184-185 | the result bounds the magnitude of every present sample and is attained by one of them, or it is 0 |
| Energy.ExtractForce | topology_module/backend.py:172-187 | the force is non-negative, bounds the magnitude of every value the solver reported (`N`, `Nmin`/`Nmax` or list entries) and is attained by one of them, or it is 0 |
| Energy.EnergyProxy | topology_module/backend.py:193-194 | the energy proxy is non-negative on members of non-negative length, and zero for an unloaded member |
| Energy.Measure | topology_module/backend.py:168-196 | an active member gets the extracted force and its energy proxy; an inactive one is untouched; nothing else changes |
| Energy.Evaluate | topology_module/backend.py:163-196 | every member is measured, only readings change, and non-negative energies stay non-negative |
| Energy.ActiveEnergyNonNeg | topology_module/backend.py:165-196 | the total system energy (`ActiveEnergy`, the sum over active members) is non-negative when every active energy is |
| Energy.NoActiveNoEnergy | topology_module/backend.py:163-196 | inactive members contribute nothing to `ActiveEnergy`: with no active member the total is 0 |
| Energy.AverageWithTwin | topology_module/backend.py:199-206 | averaging with an active twin changes only energies, keeps them non-negative and keeps the active total |
| Energy.Symmetrize | topology_module/backend.py:198-206 | the averaging loop over the whole list changes only energies, leaves inactive members untouched and keeps the active total |
| Energy.SymmetrizeFrom | topology_module/backend.py:198-206 | the averaging loop changes only energies, leaves inactive members untouched and keeps energies non-negative |
| Energy.AverageWithTwinPair | topology_module/backend.py:203-206 | when member k and its twin are both active, both end with (e_k + e_twin)/2 |
| Energy.AverageWithTwinFrame | topology_module/backend.py:199-206 | one averaging step changes no member other than the active member and its active twin |
| Energy.SymmetrizeUntouched | topology_module/backend.py:198-206 | a member that is neither an averaging member nor the twin of one keeps its energy |
| Energy.SymmetrizeKeepsTotal | topology_module/backend.py:198-206 | the averaging loop leaves the sum of active energies unchanged |
| Energy.SymmetrizeEqualizesPairs | topology_module/backend.py:198-206 | an active member with an active twin that no other member names ends with the same energy as that twin, the mean of their energies before the loop |
| Energy.SymmetrizePairAtStep | topology_module/backend.py:199-206 | the step at k gives k and its unshared twin their mean, and no later step touches either |
| Energy.SharedTwinLeavesPairUnequal | topology_module/backend.py:198-206 | when two members share a twin, the loop can leave a member and its twin with different energies |
| Pruner.ActiveIndices | topology_module/backend.py:163 | the active list holds exactly the active members, in list order |
| Pruner.SortByEnergy | topology_module/backend.py:210 | the result is a permutation of its input, ordered by energy and then by position |
| Pruner.RankedUnique | topology_module/backend.py:210 | two such orderings of the same members are identical, so the ranking is determined |
| Pruner.RankingIsStableSort | topology_module/backend.py:208-210 | the ranking holds every active member once, with energies non-decreasing and ties in list order, as a stable sort gives |
| Pruner.Trunc | topology_module/backend.py:213 | `int(x)` is the integer between 0 and x that is less than 1 away from x |
| Pruner.RemovalCount | topology_module/backend.py:212-222 | below 15 active members nothing is removed; otherwise at least one member is removed, and int(n·ratio) members when that is more; a ratio in [0, 1] never asks for more than n |
| Pruner.ScaledByAdd | topology_module/backend.py:235-236 | scaling EA and EI by 1e-6 once more adds one to the number of scalings |
| Pruner.Deactivate | topology_module/backend.py:229-236 | the target becomes inactive, its EA and EI are scaled by 1e-6, and nothing else changes |
| Pruner.KillOne | topology_module/backend.py:228-245 | one pass of the kill loop keeps the arena valid and changes only active flags and stiffness; `KillOneEffect` gives the exact effect |
| Pruner.KillFirst | topology_module/backend.py:228-245 | the first p passes keep the arena valid and change only active flags and stiffness; `KillFirstActive` and `KillFirstScaling` give the exact effect |
| Pruner.KillOneEffect | topology_module/backend.py:228-245 | one kill deactivates the target and its twin; stiffness is scaled once for the target and for a still-active twin |
| Pruner.KillFirstActive | topology_module/backend.py:228-245 | after p kills, a member is active exactly when it was active, was not targeted, and is not the twin of a target |
| Pruner.KillFirstStiffness | topology_module/backend.py:228-245 | after p kills, each member's EA and EI are scaled by 1e-6 once per kill that hit it |
| Pruner.ScalingsBounds | topology_module/backend.py:228-245 | a target is scaled once, plus once more at most if it was also an active twin; a member killed only as a twin is scaled exactly once |
| Pruner.KillFirstScaling | topology_module/backend.py:228-245 | final stiffness: a target holds 1e-6 (or 1e-12) of its EA and EI, a member killed only as a twin holds 1e-6, and every other member keeps its stiffness |
| Optimizer.UniformStiffness | topology_module/backend.py:42-45 | every member's element has the same EA and EI |
| Optimizer.ActiveStiffness | topology_module/backend.py:36-43 | EA = E·1e9·area and EI = E·1e9·Ixx, the area being the outer rectangle minus the voids |
| Optimizer.InitialMembers | topology_module/backend.py:48-117 | the initial members are the ground structure with mirrors assigned: ids consecutive, mirrors well formed, all active, longer than 1e-3, and only left members mirrored |
| Optimizer.Initialize | topology_module/backend.py:30-117 | the initial structure is valid and every element carries the active EA and EI |
| Optimizer.MaxActiveForce | topology_module/backend.py:248-253 | `max_f_active` is non-negative, bounds the force of every active member, and is attained by one of them, or it is 0 |
| Optimizer.Bars | topology_module/backend.py:258-265 | one display row per member with its endpoints, flag and force, and every row carries the same `max_force`: the largest active force (`MaxActiveForce`) |
| Optimizer.Measured | topology_module/backend.py:163-196 | measuring changes only readings, keeps mirrors well formed and gives active members non-negative energy |
| Optimizer.TotalEnergy | topology_module/backend.py:165-196 | the total system energy is non-negative |
| Optimizer.Averaged | topology_module/backend.py:158-206 | after measuring and averaging, the structure is still valid, only readings have changed, and the active set is the same |
| Optimizer.Ranking | topology_module/backend.py:208-210 | the ranking lists every active member exactly once, in (energy, position) order |
| Optimizer.Pruned | topology_module/backend.py:224-245 | pruning keeps the structure valid and changes nothing but active flags and stiffness |
| Optimizer.RunIteration | topology_module/backend.py:148-267 | the iteration fails exactly when the removal count exceeds the active count; otherwise the structure stays valid, one display row per member, and the returned count is active − removed |
| Optimizer.RunIterationPrunes | topology_module/backend.py:224-245 | a successful iteration applies the soft kill to exactly the first `count` members of the ranking |
| Optimizer.SelectedAreWeakest | topology_module/backend.py:208-229 | every targeted member ranks strictly below every active member that is not targeted: lower energy, or equal energy and earlier in the list |
| Optimizer.SelectedAreActive | topology_module/backend.py:228-229 | the targets are distinct and were active |
| Optimizer.PrunedActiveFlags | topology_module/backend.py:228-245 | after pruning, a member is active exactly when it was active, is not a target and is not a target's twin; no other field changes |
| Optimizer.SurvivorsBound | topology_module/backend.py:228-245 | after removing c members at most active − c remain active; twins may make it fewer |
| Optimizer.RemainingBoundsActive | topology_module/backend.py:267 | the returned count never undercounts the members left active |
| Optimizer.SmallStructureUnchanged | topology_module/backend.py:220-222 | below 15 active members the iteration succeeds, changes no flag and no stiffness, and returns the active count |
| Optimizer.TotalEnergyIsAveragedTotal | topology_module/backend.py:196-206 | the total energy, summed before averaging, equals the sum of the averaged energies |
| Optimizer.RatioInRangeSucceeds | topology_module/backend.py:212-229 | with a removal ratio in [0, 1] the iteration never fails |
| BoltDesign.ShearIsQuadratic | connection_module/backend.py:17-33 | the shear capacity is a fixed positive multiple of d² |
| BoltDesign.ShearCapacity | connection_module/backend.py:17-33 | the shear capacity is never negative, and it is positive exactly when the diameter is non-zero |
| BoltDesign.ShearMonotone | connection_module/backend.py:17-33 | a larger bolt has a strictly larger shear capacity |
| BoltDesign.Kb | connection_module/backend.py:51-56 | kb is at most each of e/3d0, p/3d0 − 0.25, fub/fu and 1, and equals one of them |
| BoltDesign.BearingCapacity | connection_module/backend.py:35-63 | the bearing capacity is 2.5·kb·d·t·410/1.25 in kN, and a zero hole diameter d + 2 is a division error |
| BoltDesign.Ceil | connection_module/backend.py:89 | `math.ceil` gives the integer in [x, x + 1) |
| BoltDesign.RoundUpTo5 | connection_module/backend.py:78-79 | the rounded value is a multiple of 5 in [x, x + 5) |
| BoltDesign.RoundUpTo5IsLeast | connection_module/backend.py:78-79 | no smaller multiple of 5 lies at or above x |
| BoltDesign.Pitch | connection_module/backend.py:73-78 | the pitch is a multiple of 5 mm, at least 2.5 d and less than 5 mm above it |
| BoltDesign.EndDistance | connection_module/backend.py:74-79 | the end distance is a multiple of 5 mm, at least 1.5 (d + 2) and less than 5 mm above it |
| BoltDesign.BoltCount | connection_module/backend.py:88-89 | with a positive bolt value, n bolts carry the load and n − 1 bolts do not |
| BoltDesign.DesignConnection | connection_module/backend.py:65-101 | the design fails exactly on a division by zero; otherwise the bolt value is the smaller of the two capacities, shear governs exactly when it is the smaller one, and the bolt count is the ceiling of load over bolt value |
| BoltDesign.M20Example | connection_module/backend.py:104-108 | 100 kN on M20 bolts through a 10 mm plate: 50 mm pitch, 35 mm end distance, three bolts, shear governs |
| PlasticHinge.Moment | plastic_hinge_module/backend.py:53 | the moment P·L/8 is non-negative for a non-negative load and span, and zero when either is zero; `CollapseLoad` and `MomentMonotone` relate it to Mp and to the load |
| PlasticHinge.Deflection | plastic_hinge_module/backend.py:71 | the deflection P·L³/(192·5000) is non-negative for a non-negative load and span, and zero when either is zero; `DeflectionFromMoment` ties it to the moment |
| PlasticHinge.CollapseLoad | plastic_hinge_module/backend.py:53-63 | on a positive span the moment P·L/8 reaches Mp exactly when the load reaches the collapse load 8·Mp/L |
| PlasticHinge.DeflectionFromMoment | plastic_hinge_module/backend.py:53-71 | the recorded deflection P·L³/(192·5000) equals M·L²/(24·5000), with M the recorded moment |
| PlasticHinge.Classify | plastic_hinge_module/backend.py:60-65 | Collapse exactly when M ≥ Mp; Yielding exactly when 0.6 Mp ≤ M < Mp; Elastic otherwise |
| PlasticHinge.Step | plastic_hinge_module/backend.py:19-74 | a zero load gives the unloaded elastic record; otherwise the moment, deflection and status follow the formulas, and hinges are listed exactly when the beam has collapsed, at both supports and mid-span |
| PlasticHinge.RunSimulation | plastic_hinge_module/backend.py:14-76 | zero steps is a division error and negative steps give no records; otherwise there are steps + 1 records, record k at load k·max_load/steps |
| PlasticHinge.LoadEndpoints | plastic_hinge_module/backend.py:16-19 | the first load is 0 and the last is exactly max_load |
| PlasticHinge.LoadAtMonotone | plastic_hinge_module/backend.py:16-19 | with a non-negative max load the step loads are non-negative and never decrease |
| PlasticHinge.LoadsNondecreasing | plastic_hinge_module/backend.py:18-19 | the recorded loads never decrease from record to record |
| PlasticHinge.MomentMonotone | plastic_hinge_module/backend.py:53 | on a non-negative span the moment grows with the load |
| PlasticHinge.StatusNeverRecedes | plastic_hinge_module/backend.py:52-65 | a larger load never gives a milder status (Elastic, then Yielding, then Collapse) |
| PlasticHinge.CollapsePersists | plastic_hinge_module/backend.py:18-65 | once a record shows a collapse, every later record shows it too, with the three hinges |
| PlasticHinge.DefaultRun | plastic_hinge_module/backend.py:78-82 | the default run (L = 10, Mp = 150, 200 kN in 20 steps) gives 21 records and ends in "COLLAPSE (Mechanism Formed)" |

## Left out

- Finite-element analysis: the solver is not modelled. This covers building the anastruct system, adding elements, supports and point loads, and `solve()`. Its per-member results are an input of `Optimizer.RunIteration`. In the plastic-hinge module, the solve at each step feeds no reported value and is dropped.
- `get_nid`, support assignment and load placement in `initialize_structure` (`topology_module/backend.py:119-146`): they act only on the solver's model.
- `round(..., 3)` on node coordinates and `round(..., 2)` on the reported capacities: the model keeps exact values. The bolt count is computed from the unrounded bolt value, as in the source.
- `math.hypot`, `math.pi` and `math.sqrt(3)`: hypot is a parameter; the length lemmas assume it returns square roots; π and √3 are written as their double-precision numerals. No floating-point rounding is modelled.
- The set `added_connections` (`topology_module/backend.py:64`) is created but never used. `GroundStructure.GroundNoDuplicates` shows that duplicates cannot arise when span and height are non-zero. With height 0 the four nodes of each column coincide, and the source creates bars with identical endpoints; the model does the same.
- Printing and logging: the iteration log line (`topology_module/backend.py:256`) and the module `__main__` prints. The total energy that line prints is returned in `Outcome.totalEnergy`.
- Partial effects before an `IndexError`: when the removal count exceeds the active count, the source kills members until the index runs out and then raises. The model returns `Failure` with no effects.
- The `grade` argument of `BoltDesigner` is never read; `E_passive` is never read; the literal `"status": "Success"` corresponds to the `Success` constructor.
- The user interfaces and the driver (`ui.py`, `main.py`): they are not part of this model. That includes the driver's stop rule, which stops once the returned count falls below 25 (`topology_module/ui.py:167`).
- Input validation: `calculate_i_section_properties` performs none, so a degenerate section (2·tf ≥ D) still yields an (area, Ixx) pair. The model computes the same pair.
- Nearest-match twin search: twin search takes the first candidate within tolerance in list order and breaks. It is not a nearest match, and the model does the same. `Symmetry.CrossingDiagonalsShareTwin` shows one consequence.
