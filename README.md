# Heroes battle core — a verified model

This project models four algorithms at the core of a turn-based battle game on a 27×21 grid:

- **Army builder** (`GeneratePresetImpl.generate`). It ranks unit templates by attack per point of cost, with ties broken by health per point of cost. It then adds copies of templates greedily, each time taking the first template in ranked order that is below the cap of 11 units and still fits the point budget.
- **Frontline target finder** (`SuitableForAttackUnitsFinderImpl.getSuitableUnits`). For each row, it picks the living unit with the largest y coordinate when the left army is the target, and the one with the smallest otherwise.
- **Path finder** (`UnitTargetPathFinderImpl.getTargetPath`). It runs an 8-directional breadth-first search from the attacker's cell to the target's cell. Cells held by other living units block the search. The path is rebuilt from the parent grid.
- **Battle simulator** (`SimulateBattleImpl.simulate`). While both armies have a living unit, it plays rounds. Within a round, units attack in descending order of base attack. After any attack that leaves the attacker or its target dead, the order is recomputed and starts again from the strongest, so a unit may attack twice in a round and another not at all. Dead units are removed from the armies at the end of each round.

Modules, one per file:

| file | module | contents |
|---|---|---|
| `basics.dfy` | `Basics` | `Option` (a reference that may be null), `Result` (a Java exception), and Java `int` addition with wrap-around |
| `units.dfy` | `Units` | the fields of the external `Unit` class that the algorithms read |
| `ranking.dfy` | `Ranking` | a stable descending sort by a pair of keys, that is, `List.sort` with the two comparators of the source |
| `generate_preset.dfy` | `GeneratePreset` | the army builder |
| `suitable_targets.dfy` | `SuitableTargets` | the frontline target finder |
| `target_path.dfy` | `TargetPath` | the path finder |
| `simulate_battle.dfy` | `SimulateBattle` | the battle simulator |

Each imperative operation of the source is a `method` with loops, arrays or object fields. The method is proved equal to a specification function, or to satisfy a specification predicate, and lemmas prove what the source promises about that function.

- **Army builder.** `Generate` runs the same `while (added)` loop over the same ranked records. Its inner scan is `AddFirstEligible`. `Generate` is proved equal to the function `Generated`, and the budget, the cap, the point sum, the copies and maximality are lemmas about `GenerateDraft`.
- **Target finder.** `GetSuitableUnits` and `ScanRow` refine the functions `SuitableUnits` and `Pick`.
- **Path finder.**
  - `GetTargetPath` uses `array2` grids for `visited` and `parent`, with the queue as a sequence.
  - Ghost maps `dist` and `par` carry the search invariant `BfsInv`. It has four parts. Every visited cell has a depth, and every visited cell except the start has a parent: an adjacent visited cell one level shallower. The queue holds distinct visited cells whose depths are non-decreasing and span at most one level. Every visited cell that has left the queue has had all of its enterable neighbours visited at depth at most one more, and its own depth is at most that of the queue's head. Once the target is visited, it is in the queue.
  - From this, `WalkReach` shows that every cell of a valid route, up to the first one in the queue, is visited at a depth no greater than its position on the route. It follows that the returned path is a shortest valid path, and that an empty result means none exists.
- **Battle.**
  - `Simulate` updates the armies' `units` fields in place and calls the log object.
  - Its ghost output `turns` records every attack made.
  - The predicate `History` states which sequence of attacks the rules allow. It covers who may attack and when, the recompute-and-reset rule, and the cleanup between rounds.
  - The postcondition ties the log, the final armies and the exit condition to that history.

## Model

| member | source | states |
|---|---|---|
| Basics.AddInt32 | src/programs/GeneratePresetImpl.java:68 | Java `int` addition: the exact sum when it fits in 32 bits, and otherwise the sum shifted by 2^32 back into range |
| Ranking.SortSorted | src/programs/GeneratePresetImpl.java:43-49 | the sort's output is non-increasing in the (primary, secondary) key order |
| Ranking.SortPermutes | src/programs/GeneratePresetImpl.java:43-49 | the sort's output is a permutation of its input |
| Ranking.SortStable | src/programs/SimulateBattleImpl.java:116 | the sort is stable: the elements with any one key keep their relative order |
| Ranking.InsertStable | src/programs/SimulateBattleImpl.java:116 | the inserted element precedes every element of equal key, and the elements of each key keep their relative order |
| GeneratePreset.TypeInfo | src/programs/GeneratePresetImpl.java:18-23 | a new record holds its template and count 0; its efficiencies are exactly attack/cost and health/cost |
| GeneratePreset.TypeInfosInOrder | src/programs/GeneratePresetImpl.java:34-39 | there is one record per non-null catalog entry, in catalog order: record `k` is the fresh record of the `k`-th non-null template, so a template listed twice gets two records |
| GeneratePreset.TypeInfosMeaning | src/programs/GeneratePresetImpl.java:34-39 | null catalog entries are skipped; every non-null entry gets a fresh record with count 0, and every record comes from a catalog entry |
| GeneratePreset.RankedOrder | src/programs/GeneratePresetImpl.java:43-49 | the ranked records are a permutation of the records; they are ordered by attack efficiency descending, then health efficiency descending; equal-key records keep their order from the record list, which is catalog order |
| GeneratePreset.ExampleRanked | src/programs/GeneratePresetImpl.java:43-49 | a template with cost 10 and attack 5 ranks before one with cost 5 and attack 1 |
| GeneratePreset.DecimalStringInjective | src/programs/GeneratePresetImpl.java:93 | distinct indices give distinct decimal strings |
| GeneratePreset.CreateUnitCopy | src/programs/GeneratePresetImpl.java:89-106 | the copy has its template's type, health, base attack, cost, attack type and bonus tables, and stands at (0, 0) |
| GeneratePreset.CopyNamesDistinct | src/programs/GeneratePresetImpl.java:93 | copies made at different indices have different names, whatever their templates |
| GeneratePreset.FirstEligible | src/programs/GeneratePresetImpl.java:61-70 | the record the scan takes is the first one below the cap whose cost fits the budget; none is taken only when no record qualifies |
| GeneratePreset.Step | src/programs/GeneratePresetImpl.java:58-80 | one pass adds a unit exactly when some record is eligible, and each addition lowers the remaining capacity under the caps, so the loop terminates |
| GeneratePreset.SlackBump | src/programs/GeneratePresetImpl.java:77 | raising one count below the cap lowers the total room under the caps by one |
| GeneratePreset.DraftOkInitially | src/programs/GeneratePresetImpl.java:51-53 | before the loop the invariant holds: no units, 0 points, every count 0 |
| GeneratePreset.AddUnitKeepsDraftOk | src/programs/GeneratePresetImpl.java:74-78 | adding a unit of an eligible record keeps the invariant: counts match the units taken and stay at most 11, points equal the sum of costs and stay within budget, each unit is the copy made at its index |
| GeneratePreset.GreedyKeepsDraftOk | src/programs/GeneratePresetImpl.java:57-81 | the loop keeps the invariant and ends with no eligible record left |
| GeneratePreset.GenerateDraftOk | src/programs/GeneratePresetImpl.java:51-81 | the greedy loop started on the ranked records ends in a state satisfying the invariant, with no record eligible |
| GeneratePreset.GeneratedWithinLimits | src/programs/GeneratePresetImpl.java:51-84 | the points equal the sum of the added units' costs and never exceed the budget (0 points when nothing fits); no record yields more than 11 units; unit `k` is the copy of its record's template made with index `k` |
| GeneratePreset.GeneratedIsMaximal | src/programs/GeneratePresetImpl.java:57-81 | on return every record is at the cap of 11, or costs more than the budget left |
| GeneratePreset.ExampleFromHeavy | src/programs/GeneratePresetImpl.java:57-80 | from c units of the heavy template with budget 45, the loop goes on to 4 heavy and 1 light unit, 45 points |
| GeneratePreset.GenerateExample | src/programs/GeneratePresetImpl.java:27-85 | templates {cost 10, attack 5} and {cost 5, attack 1} with budget 45 yield 4 and 1 units for 45 points |
| GeneratePreset.FirstEligibleAsWritten | src/programs/GeneratePresetImpl.java:61-70 | the scan with the budget test in 32-bit arithmetic, as written, returns an index of the list or nothing |
| GeneratePreset.StepAsWritten | src/programs/GeneratePresetImpl.java:58-80 | one pass in 32-bit arithmetic keeps the number of records and leaves the points within the `int` range |
| GeneratePreset.BudgetCheckOverflows | src/programs/GeneratePresetImpl.java:67-76 | with budget 2147483647 and one template costing 1073741825, the 32-bit check admits a second unit whose cost sum exceeds the budget, which the exact check rejects |
| GeneratePreset.AddFirstEligible | src/programs/GeneratePresetImpl.java:59-80 | one pass of the inner loop adds a unit exactly when a record is eligible, and the new records, units and points are those of one greedy step |
| GeneratePreset.Generate | src/programs/GeneratePresetImpl.java:27-86 | `generate` returns an army with no units for a null or empty list, and otherwise the units and points of the greedy loop over the ranked records |
| SuitableTargets.Pick | src/programs/SuitableForAttackUnitsFinderImpl.java:27-51 | the chosen entry is a living unit beyond the sentinel; no living unit of the row lies beyond it; every living unit before it lies strictly behind it, so ties go to the first; nothing is chosen exactly when no living unit passes the sentinel |
| SuitableTargets.ScanRow | src/programs/SuitableForAttackUnitsFinderImpl.java:27-51 | the inner loop ends holding the choice `Pick` specifies |
| SuitableTargets.RowChoice | src/programs/SuitableForAttackUnitsFinderImpl.java:18-55 | a row contributes at most one unit |
| SuitableTargets.RowChoiceMeaning | src/programs/SuitableForAttackUnitsFinderImpl.java:18-55 | a null row, empty row or row without a living unit beyond the sentinel contributes nothing; otherwise the contributed unit is alive, in the row, and extremal in y among its living units |
| SuitableTargets.ExampleRow | src/programs/SuitableForAttackUnitsFinderImpl.java:38-50 | in a row with y = 2, 5, 9 the leftward target is the unit at 9 and the rightward one the unit at 2; a row of dead units yields nothing |
| SuitableTargets.GetSuitableUnits | src/programs/SuitableForAttackUnitsFinderImpl.java:12-61 | the method returns exactly the row-by-row selection `SuitableUnits` |
| SuitableTargets.ContributingRowsIncrease | src/programs/SuitableForAttackUnitsFinderImpl.java:17-56 | the rows that contribute are listed in strictly increasing order |
| SuitableTargets.ContributingRowsExact | src/programs/SuitableForAttackUnitsFinderImpl.java:17-56 | a row is listed as contributing exactly when its choice is non-empty |
| SuitableTargets.SuitableUnitsByRow | src/programs/SuitableForAttackUnitsFinderImpl.java:17-56 | output unit `k` is the choice of the `k`-th contributing row, so there is at most one unit per row and the units come in row order |
| SuitableTargets.SuitableUnitsAreLivingMembers | src/programs/SuitableForAttackUnitsFinderImpl.java:31-54 | every output unit is alive and a member of one of the rows |
| TargetPath.AdjacentIsKingMove | src/programs/UnitTargetPathFinderImpl.java:15-16 | the 8 offsets are exactly the moves to a different cell within distance 1 on both axes |
| TargetPath.OccupiedMeaning | src/programs/UnitTargetPathFinderImpl.java:48-57 | a cell is occupied exactly when some non-null living unit other than attacker and target stands on it, on the grid |
| TargetPath.WalkLength | src/programs/UnitTargetPathFinderImpl.java:82-86 | a connected route has more cells than the king-move distance between its ends |
| TargetPath.ShortestPathLength | src/programs/UnitTargetPathFinderImpl.java:72-104 | a shortest path has more cells than the king-move distance from start to target |
| TargetPath.SameCellPath | src/programs/UnitTargetPathFinderImpl.java:72-78 | when attacker and target share a cell, the only shortest path is that single cell |
| TargetPath.StraightLineExample | src/programs/UnitTargetPathFinderImpl.java:72-104 | on an empty grid, (0,0)(1,0)(2,0) is a route from (0,0) to (2,0), and none is shorter |
| TargetPath.BeginExpand | src/programs/UnitTargetPathFinderImpl.java:72-82 | polling a cell other than the target starts its expansion with the search invariant intact |
| TargetPath.ExpandSkip | src/programs/UnitTargetPathFinderImpl.java:86-91 | skipping a neighbour that is off-grid, visited, or occupied and not the target keeps the invariant |
| TargetPath.AddToTree | src/programs/UnitTargetPathFinderImpl.java:93-96 | recording a new neighbour with its parent keeps every reached cell at a valid route of its recorded distance |
| TargetPath.AddToQueue | src/programs/UnitTargetPathFinderImpl.java:94 | appending a neighbour at distance one more keeps the queue's distances non-decreasing and within one of each other |
| TargetPath.ExpandAdd | src/programs/UnitTargetPathFinderImpl.java:82-97 | enqueuing an enterable unvisited neighbour keeps the invariant |
| TargetPath.FinishExpand | src/programs/UnitTargetPathFinderImpl.java:82-98 | after all 8 moves the polled cell is fully expanded and the search invariant holds again |
| TargetPath.WalkReach | src/programs/UnitTargetPathFinderImpl.java:72-99 | every cell of a valid route before it meets the queue is already reached, at no greater distance than its position |
| TargetPath.FoundIsShortest | src/programs/UnitTargetPathFinderImpl.java:76-79 | when the target is polled, no valid route to it has fewer steps than its distance |
| TargetPath.FoundIsOptimal | src/programs/UnitTargetPathFinderImpl.java:76-79 | when the target is polled, it is reached and no valid route is shorter than its distance |
| TargetPath.ExhaustedIsUnreachable | src/programs/UnitTargetPathFinderImpl.java:72-104 | an empty queue without the target means no valid route exists |
| TargetPath.Mark | src/programs/UnitTargetPathFinderImpl.java:95-96 | marking a cell visited and storing its parent keeps the grids in step with the ghost maps |
| TargetPath.TryMove | src/programs/UnitTargetPathFinderImpl.java:83-97 | one move of the neighbour loop keeps the expansion invariant and the grid mirrors, and either reaches a new cell or changes nothing |
| TargetPath.ExpandCell | src/programs/UnitTargetPathFinderImpl.java:82-98 | the neighbour loop re-establishes the search invariant and never un-reaches a cell |
| TargetPath.StartSearch | src/programs/UnitTargetPathFinderImpl.java:61-68 | the fresh grids with only the start cell visited and queued satisfy the search invariant |
| TargetPath.Search | src/programs/UnitTargetPathFinderImpl.java:61-104 | the search ends either with the target reached and no shorter route existing, or with no route existing |
| TargetPath.ChainIsPath | src/programs/UnitTargetPathFinderImpl.java:107-114 | a parent chain from start to target, read forwards, is a valid route without repeated cells |
| TargetPath.Reconstruct | src/programs/UnitTargetPathFinderImpl.java:106-114 | walking the parent grid back from the target gives a route from start to target without repeats, one cell longer than the target's distance |
| TargetPath.GetTargetPath | src/programs/UnitTargetPathFinderImpl.java:31-118 | a null unit or an off-grid cell yields an empty path; otherwise the path is empty exactly when no valid route exists, and a non-empty path is a shortest valid path from the attacker's cell to the target's cell |
| SimulateBattle.BattleLog.PrintBattleLog | src/programs/SimulateBattleImpl.java:64-66 | a call records the attacker and the returned target at the end of the log |
| SimulateBattle.AliveOfMeaning | src/programs/SimulateBattleImpl.java:99-113 | the collected units are exactly the non-null living entries of the list |
| SimulateBattle.AliveOfAppend | src/programs/SimulateBattleImpl.java:99-113 | collecting two lists collects the first, then the second |
| SimulateBattle.HasAliveMeaning | src/programs/SimulateBattleImpl.java:121-131 | an army has a living unit exactly when its collected living units are non-empty |
| SimulateBattle.HasAliveUnits | src/programs/SimulateBattleImpl.java:121-131 | `hasAliveUnits` is false for a null army or null list, and true exactly when some non-null unit is alive |
| SimulateBattle.TurnOrderMembers | src/programs/SimulateBattleImpl.java:96-118 | the turn order is a permutation of the living units of both armies |
| SimulateBattle.TurnOrderSorted | src/programs/SimulateBattleImpl.java:116 | the turn order is non-increasing in base attack, and units of equal attack keep player-then-computer list order |
| SimulateBattle.TurnOrderAlive | src/programs/SimulateBattleImpl.java:96-118 | every unit of the turn order is alive, and the order is empty exactly when neither army has a living unit |
| SimulateBattle.ExampleFighters | src/programs/SimulateBattleImpl.java:99-113 | null entries are skipped and the player's units come before the computer's |
| SimulateBattle.ExampleSort | src/programs/SimulateBattleImpl.java:116 | attacks 5, 9, 5 are ordered 9, 5, 5 with the two 5s in list order |
| SimulateBattle.TurnOrderExample | src/programs/SimulateBattleImpl.java:96-118 | a concrete pair of armies with a null entry gives the turn order [1, 0, 2] |
| SimulateBattle.GetSortedAliveUnits | src/programs/SimulateBattleImpl.java:96-119 | the method returns the turn order: the living units of both armies sorted by descending base attack |
| SimulateBattle.RemoveDeadKeepsLiving | src/programs/SimulateBattleImpl.java:83-88 | the cleaned list is exactly the list's living units, in their original relative order |
| SimulateBattle.RemoveDeadAppend | src/programs/SimulateBattleImpl.java:83-88 | cleanup works entry by entry: cleaning a concatenation cleans each part |
| SimulateBattle.RemoveDeadMembers | src/programs/SimulateBattleImpl.java:83-88 | an entry survives cleanup exactly when it is in the list and a living unit |
| SimulateBattle.RemoveDeadSameAlive | src/programs/SimulateBattleImpl.java:83-88 | cleanup loses no living unit |
| SimulateBattle.RemoveDeadIdempotent | src/programs/SimulateBattleImpl.java:83-88 | cleaning a cleaned list changes nothing |
| SimulateBattle.CleanedTwice | src/programs/SimulateBattleImpl.java:83-88 | cleaning an army's list twice is cleaning it once |
| SimulateBattle.CleanupThrowsOnNullEntry | src/programs/SimulateBattleImpl.java:83-88 | an army with a living unit and a null entry passes the `hasAliveUnits` guard, yet its cleanup throws `NullPointerException` |
| SimulateBattle.HistoryMeaning | src/programs/SimulateBattleImpl.java:23-89 | a history is a sequence of legitimate attacks, each the successor the loops prescribe for the one before |
| SimulateBattle.AttacksOfMeaning | src/programs/SimulateBattleImpl.java:61-66 | the log holds one call per attack, in order, with that attack's attacker and returned target |
| SimulateBattle.TurnStep | src/programs/SimulateBattleImpl.java:35-61 | the attack the inner loop makes is by a living unit at the current index, while both armies have a living unit; it is the attack the rules prescribe after the previous one |
| SimulateBattle.GuardExit | src/programs/SimulateBattleImpl.java:35 | the inner loop leaving at the end of the order ends the round as the rules say |
| SimulateBattle.ArmyDownExit | src/programs/SimulateBattleImpl.java:37-39 | the inner loop leaving because an army has no living unit ends the round as the rules say |
| SimulateBattle.ReorderExit | src/programs/SimulateBattleImpl.java:46-50 | leaving because the recomputed order is too short for the index ends the round as the rules say |
| SimulateBattle.RemoveDeadUnits | src/programs/SimulateBattleImpl.java:83-88 | each army's unit list becomes its cleaned list; a null list stays null |
| SimulateBattle.BattleSimulator.NextAttacker | src/programs/SimulateBattleImpl.java:37-57 | the loop either stops, ending the round as the rules say, or takes the attacker from the old order if alive and from the recomputed order if not, and that attacker is alive while both armies live |
| SimulateBattle.BattleSimulator.MakeAttack | src/programs/SimulateBattleImpl.java:61-78 | the attack extends the history by one legitimate turn, logs it exactly when the log is non-null, lowers total health, and leaves the loop in the state the rules prescribe |
| SimulateBattle.BattleSimulator.PlayRound | src/programs/SimulateBattleImpl.java:26-79 | a round makes at least one attack, each legitimate and logged, and ends when the rules say the round cannot go on |
| SimulateBattle.BattleSimulator.Simulate | src/programs/SimulateBattleImpl.java:16-89 | a null army means no change; otherwise the attacks form a history starting from the initial armies, every attack is logged once when the log is non-null, the armies end cleaned after the last round, and on return at least one army has no living unit |

## Left out

- Java object identity. Units are values in the army builder, the target finder and the path finder. The battle works on unit numbers. The path finder's `unit != attackUnit` compares references and the model compares values. Any unit equal to the attacker or the target stands on the start or target cell, and the search never consults the occupancy of those cells, so the two comparisons give the same result.
- `Unit.isAlive()` and the other getters of the external `Unit` and `Army` classes. They are modelled as fields, with a unit alive while its health is positive.
- The external `Army` constructor and `setPoints`. An army built from a null or empty list is taken to carry 0 points.
- The single external `Army` class. Each module keeps only the fields it uses. The army builder returns a `GeneratedArmy` value holding the units and the points. The battle simulator's `Army` class holds only the unit list, which it mutates.
- Double arithmetic in `UnitTypeInfo`. The efficiencies are exact rationals, and the ranking compares them exactly. Rounding of close ratios into ties is therefore not modelled.
- A template with cost 0, or a negative cost. With cost 0 the source divides by zero into infinity or NaN. `GeneratePreset.Generate` requires every non-null template to have a positive cost.
- The contents of `unitType` and the decimal form of an index. Unit names are modelled as `unitType + "_" + index`, with the index written in decimal.
- The body of `unit.getProgram().attack()`. It is external. It is a caller-supplied function `strike` that maps the healths before the attack and the attacker to the healths after it and the target it returned.
- SimulateBattle.BattleSimulator.Simulate: termination is not unconditional. It requires (`StrikeOk`) that every attack by a living unit lowers the total remaining health. The source's termination rests entirely on the external attack.
- `InterruptedException` and thread interruption in `simulate`.
- The text printed by `PrintBattleLog`. Only the order and arguments of the calls are kept, as an entry list.
- A null `unitsByRow` in the target finder, and a null `existingUnitList` in the path finder. The source throws `NullPointerException` on both. The model takes both as plain sequences.
- The `"x,y"` string keys of the path finder's occupied set. They are modelled as a set of cells.
- The `Cell` node objects with `parent` links. Every cell is enqueued at most once and then gets its parent entry, so the parent grid holds the same links that the nodes do. Reconstruction walks the grid.
- The in-place `List.sort` calls of the army builder and of `getSortedAliveUnits`. They are modelled as a stable sort on sequences. The other loops are modelled in place.
- The `UnitTypeInfo` objects. They are values kept in a sequence; an update to a record's count replaces that element.
- SimulateBattle.BattleSimulator.Simulate: two checks are present in the model without their own branches.
  - The empty-order `break` at `SimulateBattleImpl.java:28-30` can never be taken, because the loop guard has just seen a living unit.
  - The `index++; continue` at lines 53-56 needs a dead unit in a freshly recomputed order, which the order never contains.

## Findings

| source | as written | input that shows it | evidently intended | confidence | as-written member | corrected member |
|---|---|---|---|---|---|---|
| src/programs/GeneratePresetImpl.java:68 | `totalPoints + unitCost > maxPoints` is evaluated in 32-bit `int` arithmetic and can wrap around | `maxPoints` = 2147483647 and one template of cost 1073741825: the second copy's sum wraps negative and passes the check | the exact sum is compared with the budget, so the points never exceed `maxPoints` | not executed | GeneratePreset.BudgetCheckOverflows | GeneratePreset.GeneratedWithinLimits |
| src/programs/SimulateBattleImpl.java:84 | `removeIf(unit -> !unit.isAlive())` dereferences every entry, although the rest of the class skips null entries | a player army whose list is [living unit, null]: it passes `hasAliveUnits`, and cleanup throws `NullPointerException` | cleanup drops the null entries together with the dead units | not executed | SimulateBattle.CleanupThrowsOnNullEntry | SimulateBattle.RemoveDeadKeepsLiving |
