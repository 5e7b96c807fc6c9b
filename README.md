# Atlas swarm-exploration simulator, modelled in Dafny

This project models the core of the Atlas simulator, in which a swarm of robots explores a floorplan. It covers the following parts:

- **Grid exploration engine** (`Atlas.py`, with the differences of its earlier variant `HNOO.py`):
  - reading an ASCII drawing into a 0/1 map and a start cell;
  - the bounded one-hop and two-hop neighbourhoods;
  - the `discoMap` bookkeeping (-1 unexplored, 0 wall, 1 open);
  - the distributed `think` step, with its random-walk and ballistic moves;
  - the centralized breadth-first "rank map" distance cache, with resume;
  - the per-tick KPI accounting of `singleExploration`.
- **Floorplan** (`Floorplan.py`): parsing a drawing into width, height and unit obstacles, and the flood-fill validity check.
- **Orchestrator bookkeeping** (`Orchestrator.py`):
  - the `MapBuilder`: bump dots become axis-aligned walls, which are consolidated, joined and stripped of dots; the builder then checks the walls close into loops;
  - notification filtering by sequence number, and the ballistic movement update;
  - the heatmap counting and the half-cell snapping of `NavigationAtlas`.
- **Priority queue with a membership set** (`Utils.py`, `atlas/datastructures/__init__.py`).
- **Relay-tree enumeration** (`CT.py`).
- **Traversed-cell scan** (`tests/test_algorithms.py` and `NavigationAtlas.markTraversedCells`).

Modules follow the program's structure:

| File | Module | Models |
|---|---|---|
| `seq_util.dfy` | `SeqUtil` | shared sequence helpers |
| `grid.dfy` | `Grid` | cells, offsets, headings |
| `drawing.dfy` | `Drawing` | `genRealMapDrawing` |
| `exploration.dfy` | `Exploration` | the distributed navigation of `Atlas.py` and its KPIs |
| `ranking.dfy` | `Ranking` | `NavigationCentralized._distance` and `_numHigherRankAndUnexploredNeighbors` |
| `hnoo.dfy` | `Hnoo` | where `HNOO.py` differs from `Atlas.py` |
| `floorplan.dfy` | `Floorplan` | `Floorplan.py` |
| `map_lines.dfy` | `MapLines` | dots on lines, consolidation at one reference line |
| `map_builder.dfy` | `Mapping` | the `MapBuilder` class, loop walking, completeness |
| `orchestrator_nav.dfy` | `OrchestratorNav` | `receiveNotification`, the ballistic `_updateMovement`, `_buildHeatmap`, `markTraversedCells` |
| `pqueue.dfy` | `PQueue` | the priority queue and `AstarNode` ordering |
| `relay_tree.dfy` | `RelayTree` | `CT.py` |
| `traversal.dfy` | `Traversal` | `_xy2hCell`, `_hCell2SvgRect`, `markTraversedCells` |

**How the model is shaped**

- Objects whose fields the source updates become classes with `modifies` clauses:
  - `DistributedNavigation` / `Hnoo.Navigation` (its `discoMap` and `robotHeading`);
  - `CentralizedNavigation` (`rankMaps`, `shouldvisits`, `stats`);
  - `MapBuilder`, `BallisticNavigation`, `AtlasNavigation`, `PriorityQueue`.
- Loops become methods with invariants. Each is proved against a specification function or predicate, and the properties of that specification are lemmas.
- Random choices (`random.shuffle`, `random.choice`, `random.random`) are nondeterministic choices (`:|`). Every contract therefore holds for every possible outcome.
- Python floats are exact `real`s.
- Python `round` is half-to-even (`Traversal.RoundHalfEven`).
- Python negative list indices wrap in the floorplan flood fill, as they do in Python.
- `computeCurrentPosition` (trigonometry) is a function parameter of `ReceiveNotification`.
- Exceptions the source raises (`MappingDoneSuccess`, `KeyError`, `IndexError`, `TypeError`, `SystemError`, `AssertionError`, `ExceptionOpenLoop`) are the error or outcome cases of result datatypes.
- Where Python turns a set back into a list, the model keeps first-occurrence order (`SeqUtil.Dedup`).

**Code that `HNOO.py` shares with `Atlas.py`** is modelled once:

- textually identical: `genRealMapDrawing`, `_determineDoneExploring`, `_stats_incr`, `_distance`, `_numHigherRankAndUnexploredNeighbors`;
- the distributed `think` differs in one detail (it returns a 3-tuple and counts no explored cells), so `Hnoo` restates the navigation class, with the ballistic pick it shares with `Atlas.py`.

**`_consolidateMap` aliasing.** At `Orchestrator.py:108-110`, `allDots` is the same list object as `discoMap['dots']`, so each reference line appends every line end to the stored dots. The model does the same: the contract of `MapBuilder.ConsolidatePass` gives the stored dots after a pass exactly (`Grow`: the old dots followed by all line ends once per ref), and each ref's lines are laid from the dots as grown by then (`PassLines`). The contract of `ConsolidateMap` shows this is harmless: after the final de-duplication and removal of dots that lie on lines, the dots are exactly the old dots that lie on no new line. Vertical references are taken from the dots as they have grown by then, as in the source.

## Model

| member | source | states |
|---|---|---|
| Drawing.GenRealMapDrawing | Atlas.py:64-87 | succeeds iff every character of the wall lines (lines starting `#`) is `#`, space or `S` and there is at most one `S`; otherwise the error names a faulty character position; the map is `#`→0, other→1 row by row; the start is the `S` cell (row, column) and absent iff there is no `S` |
| Drawing.ScanRow | Atlas.py:72-86 | one wall row: succeeds iff the stream so far plus this row has only known characters and at most one `S`; cell values and the start cell as above |
| Drawing.FaultSpoils | Atlas.py:78-83 | a faulty position (unknown character or a second `S`) rules out success for any drawing with that prefix |
| Drawing.CountSZero | Atlas.py:78-81 | no `S` counted iff no character is `S` |
| Drawing.WallsAppend | Atlas.py:69-71 | selecting wall lines distributes over concatenation of drawings |
| Drawing.DrawnRow | Atlas.py:72-86 | adding one valid row keeps the row-by-row correspondence between drawing and map |
| Grid.CollectInBounds | Atlas.py:205-218 | the kept offsets are exactly the listed offsets inside the map, in listed order |
| Grid.RingMembers | Atlas.py:205-209 | the eight listed one-hop offsets are exactly the cells adjacent to (x, y) |
| Grid.OneHopListMembers | Atlas.py:203-221 | the in-bounds one-hop list holds exactly the in-bounds adjacent cells, never (x, y), without duplicates, at most 8 |
| Grid.NbrSetMembers | Atlas.py:203-221 | the neighbourhood as a set: exactly the in-bounds adjacent cells |
| Grid.TwoHopRingMembers | Atlas.py:223-245 | the corrected 16 two-hop offsets are exactly the cells at Chebyshev distance 2 |
| Grid.TwoHopNeighborhoodIntended | Atlas.py:223-245 | corrected two-hop neighbourhood: exactly the in-bounds cells at distance 2, never (x, y) |
| Grid.StepCoversRing | Atlas.py:312-328 | the heading→offset table reaches every adjacent cell and only adjacent cells |
| Exploration.Shuffle | Atlas.py:220 | the shuffled list is a permutation of its input |
| Exploration.OneHopNeighborhood | Atlas.py:203-221 | a permutation of the in-bounds one-hop list: exactly the in-bounds adjacent cells, each once |
| Exploration.TwoHopNeighborhood | Atlas.py:223-245 | as written: a permutation of the in-bounds members of the 16 listed offsets, which contains (x, y) when in bounds and never (x, y-2) |
| Exploration.TwoHopAsWrittenDiffers | Atlas.py:226-230 | the listed offsets contain (x, y), which is not two hops away, and omit (x, y-2), which is |
| Exploration.DetermineDoneExploring | Atlas.py:193-201 | reports done (MappingDoneSuccess) iff no `discoMap` cell is -1 |
| Exploration.NotFullKnown | Atlas.py:193-201 | a map that is not done has fewer explored cells than cells |
| Exploration.ScannedSetMembers | Atlas.py:259-272 | the cells scanned in a tick are exactly the in-bounds cells adjacent to some robot |
| Exploration.DistributedNavigation.constructor | Atlas.py:169-188 | `discoMap` starts all unknown; ballistic robots get one heading each |
| Exploration.DistributedNavigation.Scan | Atlas.py:262-279 | each neighbour's `discoMap` becomes its real value and nothing else changes; `explored` counts the neighbours that were -1; the valid moves are exactly the open adjacent cells no lower-index robot claimed |
| Exploration.DistributedNavigation.PickNextPosition | Atlas.py:289-337 | the pick is a valid move; a ballistic robot keeps its heading if that step is valid, otherwise takes a heading whose step is the pick; only its own heading changes |
| Exploration.DistributedNavigation.MoveRobot | Atlas.py:259-285 | one robot's scan and move: the claim rule for its next cell, the `discoMap` update and the explored count |
| Exploration.DistributedNavigation.Think | Atlas.py:249-287 | MappingDoneSuccess iff the map was full, with nothing changed; otherwise one position per robot obeying the claim rule (stay only when no valid move), every scanned cell revealed and all others unchanged, and `numExplored` = number of scanned cells that were -1 |
| Exploration.RevealStep | Atlas.py:264-272 | scanning one more robot extends the revealed set and the explored count additively |
| Exploration.KnownStep | Atlas.py:264-272 | a tick adds exactly its scanned cells to the known ones; the newly explored cells are the scanned cells that were not known, and the known count grows by their number |
| Exploration.ClaimedOpen | Atlas.py:274-285 | when every robot stands on an open cell, so does every robot after a move |
| Exploration.FullyDiscoveredKnown | Atlas.py:193-201 | a map with no -1 knows every cell |
| Exploration.ThinkCounted | Atlas.py:249-287 | on success every cell is known; otherwise the map was not full, the known cells grow by exactly the scanned cells, and `numExplored` is the number of scanned cells that were not known |
| Exploration.ApplyMoves | Atlas.py:893-900 | robots take the new positions; steps = number of changed positions; with a heatmap each cell rises by the number of robots now on it |
| Exploration.HistoryStep | Atlas.py:893-905 | one tick adds its steps, explored count, running profile entry and visits to the totals |
| Exploration.ProfileSums | Atlas.py:903-905 | profile entry k is the explored total after tick k, so the profile never decreases |
| Exploration.TotalExploredGrows | Atlas.py:904-905 | the explored total of a prefix of ticks never exceeds the whole |
| Exploration.ScanCountedAt | Atlas.py:264-266 | under the run's counting, tick k's explored count is the number of cells it scanned that the first k ticks had not scanned |
| Exploration.ScanCountedStep | Atlas.py:264-266 | a tick that counts its newly scanned cells keeps the counting, and adds its scan to the covered cells |
| Exploration.ScanCountedPrefix | Atlas.py:904 | the counting holds for every prefix of the ticks |
| Exploration.ExploredIsCovered | Atlas.py:904 | the explored counts sum to the number of distinct cells scanned |
| Exploration.CoveredCells | Atlas.py:211-218 | every scanned cell lies on the map |
| Exploration.ExploredBound | Atlas.py:904 | the explored total never exceeds the number of cells, and equals it iff every cell has been scanned |
| Exploration.ProfileCovered | Atlas.py:904-905 | profile entry k is the number of distinct cells scanned in the first k + 1 ticks |
| Exploration.NeverFullStep | Atlas.py:883-887 | a tick taken while some cell is unscanned keeps "some cell was unscanned before every tick" |
| Exploration.LoggedStep | Atlas.py:883-905 | a tick that starts where the last ended, follows the claim rule, counts its new cells and is taken on an incomplete map extends the recorded history with all four properties |
| Exploration.RecordTick | Atlas.py:893-905 | one tick keeps the run invariant: the history is chained, every tick follows the claim rule and counts the cells it newly scanned, the map was incomplete before every tick, the covered cells grow by this tick's scan, and the KPIs are the totals over the history |
| Exploration.RunTick | Atlas.py:880-905 | one pass of the loop: either the map is fully scanned and nothing is recorded, or one tick is recorded; the run invariant holds and the known cells are the covered cells |
| Exploration.SingleExploration | Atlas.py:854-920 | `numTicks` = completed ticks; each tick follows the claim rule from the previous positions; each tick's explored count is the number of cells it scanned that no earlier tick had scanned; `numSteps` = total changed positions; profile = running explored sums; success means every cell of the map was scanned, so the counts sum to the number of cells; before every recorded tick some cell was unscanned, so the run stops at the first tick that finds the map full; heatmap = -1 on walls and the visit count on open cells |
| Ranking.WalkOfRank | Atlas.py:389-417 | every ranked cell is reached by a walk over open cells of length rank + 1 |
| Ranking.FrontierCrossing | Atlas.py:392-420 | any walk from the source to an unranked cell passes through a frontier cell whose rank does not exceed its position on the walk |
| Ranking.RankIsShortest | Atlas.py:392-420 | every rank in the map is the shortest walk distance from the source |
| Ranking.CompleteRankMap | Atlas.py:392-427 | once the frontier is empty, exactly the cells reachable from the source are ranked |
| Ranking.ShortestSymmetric | Atlas.py:352-356 | shortest distance is symmetric, which justifies swapping the endpoints |
| Ranking.MinRank | Atlas.py:394-406 | finds a frontier cell of least rank, the first such in frontier order, iff the frontier is non-empty |
| Ranking.VisitNeighbours | Atlas.py:408-420 | visiting the least-ranked frontier cell ranks every open unranked neighbour at rank + 1, and the assertion at line 411 (a ranked neighbour has rank ≤ rank + 1) holds |
| Ranking.SettleStep | Atlas.py:420 | removing a cell whose open neighbours are all ranked keeps the search invariant |
| Ranking.VisitedState | Atlas.py:408-420 | one visit keeps the search invariant |
| Ranking.VisitProgress | Atlas.py:392-420 | each visit ranks a new cell or leaves the map unchanged while the frontier shrinks, so the search ends |
| Ranking.Bfs | Atlas.py:392-425 | the search keeps old ranks, stops early only once the target is ranked, and otherwise runs until the frontier is empty |
| Ranking.Bump | Atlas.py:432-435 | `_stats_incr` adds key k at 0 if absent, raises it by exactly 1, and changes no other key |
| Ranking.StoreSearch | Atlas.py:424-427 | storing a finished or resumable search keeps every cached rank map a valid breadth-first state |
| Ranking.Lookup | Atlas.py:429-430 | the answer exists iff the target is reachable, and then it is the shortest distance; with no target, the map covers exactly the reachable cells |
| Ranking.CentralizedNavigation.constructor | Atlas.py:341-344 | builds the full rank map of the start cell (exactly the reachable cells) and counts one `cache_miss_new` |
| Ranking.CentralizedNavigation.StatsIncr | Atlas.py:432-435 | `stats` is bumped at k; caches unchanged |
| Ranking.CentralizedNavigation.Search | Atlas.py:359-427 | builds or resumes the rank map of p1; it raises KeyError (the `shouldvisits` lookup) iff p1 is cached but has no resumable frontier; existing ranks are kept |
| Ranking.CentralizedNavigation.Query | Atlas.py:359-430 | counts exactly one of cache_hit / cache_miss_resume / cache_miss_new; the result exists iff the target is reachable, and is its shortest distance from p1 |
| Ranking.CentralizedNavigation.Distance | Atlas.py:346-430 | `_distance(p, p)` = 0 with nothing changed; otherwise endpoints are swapped when only pos2 is cached; the answer is the shortest distance and is cached under the chosen endpoint |
| Ranking.NeighbourCountsBound | Atlas.py:834-846 | the two neighbour counts together never exceed the in-bounds neighbour count, at most 8 |
| Ranking.CountNeighbours | Atlas.py:834-846 | KeyError iff some open neighbour (or the centre) has no rank; otherwise the number of open higher-ranked neighbours and the number of unexplored neighbours |
| Ranking.CentralizedNavigation.NumHigherRankAndUnexploredNeighbors | Atlas.py:834-846 | the same counts against the start cell's rank map, KeyError if that map or a needed rank is missing |
| Hnoo.GenRealMapRandom | HNOO.py:57-78 | a NUM_ROWS×NUM_COLS 0/1 map whose centre (rows/2, cols/2) is open and is the start |
| Hnoo.OneHopInOrder | HNOO.py:219-236 | deterministic: the in-bounds cells of the 8 offsets in listed order, exactly the in-bounds adjacent cells, each once |
| Hnoo.EarlyTwoHopNeighborhood | HNOO.py:238-257 | the in-bounds cells of its own 16 offsets; its members that are not two hops away are exactly (x-1, y+1), (x, y), (x+1, y-1), and the two-hop cells it misses are exactly (x-1, y-2), (x, y-2), (x+1, y-2) |
| Hnoo.EarlyTwoHopExtra | HNOO.py:240-245 | the listed offsets that are not two hops away are exactly (x-1, y+1), (x, y), (x+1, y-1) |
| Hnoo.EarlyTwoHopMissing | HNOO.py:240-245 | the two-hop cells not listed are exactly (x-1, y-2), (x, y-2), (x+1, y-2) |
| Hnoo.Navigation.Scan | HNOO.py:273-288 | each neighbour's `discoMap` takes its real value when that value is 0 or 1; valid moves as in Atlas |
| Hnoo.Navigation.PickNextPosition | HNOO.py:298-344 | the ballistic pick is a member of the valid moves, by the fixed heading table |
| Hnoo.Navigation.MoveRobot | HNOO.py:270-294 | one robot's scan and move under the claim rule |
| Hnoo.Navigation.Think | HNOO.py:261-296 | no next positions iff the map was full; otherwise one position per robot by the claim rule and the scanned cells revealed |
| Hnoo.RevealedKnown | HNOO.py:275-281 | on a binary map the known cells grow by exactly the scanned cells; the newly explored cells are the scanned cells that were not known |
| Hnoo.ThinkCounted | HNOO.py:261-296 | on success every cell is known; otherwise the map was not full, the known cells grow by exactly the scanned cells, and the ghost count it returns (this variant's think counts nothing) is the number of scanned cells that were not known |
| Hnoo.MoveAll | HNOO.py:625-629 | robots take the new positions; steps = changed positions |
| Hnoo.RecordTick | HNOO.py:625-632 | one tick keeps the run invariant (chained history, claim rule, each tick counting its newly scanned cells, incomplete map before every tick, `numSteps` total) and adds its scan to the covered cells |
| Hnoo.RunTick | HNOO.py:616-632 | one pass of the loop: either the map is fully scanned and nothing is recorded, or one tick is recorded; the run invariant holds and the known cells are the covered cells |
| Hnoo.SingleExploration | HNOO.py:606-644 | ticks counted, each following the claim rule; the ghost history logs for each tick the number of cells it scanned that no earlier tick had scanned (the source keeps no such count); `numSteps` = total changed positions; success means every cell of the map was scanned, so the counts sum to the number of cells; before every recorded tick some cell was unscanned (the run stops at the first full tick) |
| Floorplan.NonEmpty | Floorplan.py:34 | keeps exactly the non-empty lines |
| Floorplan.MaxLen | Floorplan.py:35 | the width bounds every line and is attained by one |
| Floorplan.RowMajorAppend | Floorplan.py:38-41 | a row's obstacles followed by later rows' stay in row-major order |
| Floorplan.ParseDrawing | Floorplan.py:33-42 | ValueError iff there are no non-empty lines; height = number of non-empty lines, width = longest; obstacles are exactly one unit square per `#` at (column, row), in row-major order |
| Floorplan.StartOf | Floorplan.py:70-74 | finds the first `s` in row-major order, or none iff no line contains `s` |
| Floorplan.FloodWithin | Floorplan.py:79-100 | a flood from `s` stays inside any area closed under stepping to floodable neighbours |
| Floorplan.CheckNext | Floorplan.py:79-100 | one round of the worklist: either an unknown character is met (AssertionError), or the flood invariant holds and the unseen cells or the worklist shrink (termination) |
| Floorplan.FloodDone | Floorplan.py:79-103 | when the worklist empties, the result is True iff the flood from `s` never leaves the drawing |
| Floorplan.IsMapValid | Floorplan.py:44-103 | as written: False without `s`; AssertionError if the flood meets a character other than `#`, `.`, `s`; otherwise True iff the flood never leaves the drawing (Python negative indices wrap) |
| Floorplan.FloodContained | Floorplan.py:79-100 | an area closed under flooding that contains `s` and has no unknown neighbours bounds every flooded cell |
| Floorplan.SealedArea | Floorplan.py:79-103 | such an area with no neighbour outside the drawing means no leak and no unknown character |
| Floorplan.FullBorderValid | tests/test_isMapValid.py:8-19 | the fully bordered drawing is valid |
| Floorplan.OpenBorderInvalid | tests/test_isMapValid.py:22-33 | the drawing with a gap in the border is invalid |
| Floorplan.OpenBorderLeaks | tests/test_isMapValid.py:22-33 | its flood reaches outside the drawing |
| Floorplan.IrregularValid | tests/test_isMapValid.py:36-47 | the irregular closed border is valid |
| Floorplan.NoStartInvalid | tests/test_isMapValid.py:50-75 | the drawings without `s` (one with a `b`) are invalid |
| Floorplan.UnknownCharRaises | Floorplan.py:95-96 | a drawing with `s` next to a `b` raises AssertionError as written, but is invalid as documented |
| Floorplan.UnknownCharMeets | Floorplan.py:95-96 | in that drawing the flood from `s` meets the `b` |
| Floorplan.IsMapValidIntended | Floorplan.py:44-103 | corrected: True iff the as-written check would return True; unknown characters make the map invalid instead of raising |
| Floorplan.Floorplan.constructor | Floorplan.py:10-13 | the object holds exactly the parsed width, height and obstacles |
| Floorplan.NewFloorplan | Floorplan.py:10-31 | construction fails (AssertionError) iff the drawing is not valid; otherwise `getJSON` returns exactly the parsed drawing |
| MapLines.EndsOnLine | Orchestrator.py:191-214 | both end points of an axis-aligned line lie on it |
| MapLines.KeepOffMembers | Orchestrator.py:191-214 | the kept dots are exactly the dots on no line |
| MapLines.KeepOffNoDup | Orchestrator.py:191-214 | keeping dots preserves absence of duplicates |
| MapLines.OnSomeLine | Orchestrator.py:195-211 | true iff the dot lies on some horizontal or vertical line, ends included |
| MapLines.RemoveDotsOnLines | Orchestrator.py:191-214 | the in-place popping loop leaves exactly the input subsequence of dots on no line |
| MapLines.OnSomeAtRef | Orchestrator.py:117-127 | at one reference line, lying on some line means being covered along it |
| MapLines.SortReals | Orchestrator.py:142 | sorted, and a permutation of the input |
| MapLines.SortDistinct | Orchestrator.py:139-142 | de-duplicated and sorted coordinates are strictly increasing with the same elements |
| MapLines.SortByLo | Orchestrator.py:160-163 | sorted by start coordinate, and a permutation of the input |
| MapLines.GapsCover | Orchestrator.py:144-155 | the new segments cover exactly the stretches between consecutive coordinates less than MINFEATURESIZE_M apart |
| MapLines.GapsJoinNeighbours | Orchestrator.py:144-155 | every new segment joins two consecutive coordinates less than MINFEATURESIZE_M apart |
| MapLines.GapsComplete | Orchestrator.py:144-155 | every such close consecutive pair gets its segment |
| MapLines.ConsecutivePairs | Orchestrator.py:144-155 | lying in a gap of consecutive sorted coordinates means lying in a gap of the coordinate set |
| MapLines.JoinCover | Orchestrator.py:164-176 | joining two touching segments covers exactly the same points |
| MapLines.JoinTouching | Orchestrator.py:160-177 | the merge loop's result is the recursive join `JoinFrom` of its input; it leaves sorted segments of which no two consecutive ones touch, covering exactly what the input covered, no more of them than before |
| MapLines.CollectCoordinates | Orchestrator.py:112-136 | the coordinates are those of dots at the reference off every line there, then the ends of those lines |
| MapLines.LaidGapsCover | Orchestrator.py:144-158 | the old lines plus the gap segments cover exactly the old coverage plus the gaps |
| MapLines.ConsolidateRef | Orchestrator.py:105-180 | at one reference line the result is exactly `RefLines` (collect, de-duplicate, sort, lay gaps, join); it is sorted, no two consecutive segments touch, and it covers exactly the old lines there plus the gaps between collected coordinates |
| Mapping.CloseMeans | Orchestrator.py:275-297 | two lines are close iff some end point pair is strictly closer than MINFEATURESIZE_M/2 |
| Mapping.CloseSymmetric | Orchestrator.py:275-297 | closeness is symmetric |
| Mapping.FirstClose | Orchestrator.py:258-263 | the first line close to the last one and not yet in the loop, or none exists |
| Mapping.WalkCloses | Orchestrator.py:252-273 | a returned loop has more than 2 distinct lines, each close to its predecessor, the last close to the first, grown from the start with lines of the list |
| Mapping.WalkStuck | Orchestrator.py:266-269 | ExceptionOpenLoop is raised only when the walk reaches a line with no unused close line |
| Mapping.RemoveAllMultiset | Orchestrator.py:240-241 | removing a loop's lines one occurrence each leaves exactly the remaining multiset |
| Mapping.LoopsPartition | Orchestrator.py:236-244 | a successful decomposition splits the lines into closed loops whose union is exactly the lines |
| Mapping.FindCloseLine | Orchestrator.py:258-263 | the scan finds exactly the first close unused line |
| Mapping.WalkLoop | Orchestrator.py:252-273 | the loop-walking method agrees with the walk; a result is a closed loop starting at the start line |
| Mapping.RemoveLoop | Orchestrator.py:240-241 | removes the loop's lines one occurrence each |
| Mapping.Refs | Orchestrator.py:96-103 | the references are distinct and are exactly the dots' coordinates plus the lines' coordinates across |
| Mapping.LineEnds | Orchestrator.py:108-110 | the first end of every line in list order, then the second end of every line: twice as many dots as lines, and exactly the lines' end points |
| Mapping.Grow | Orchestrator.py:105-110 | after k refs the stored dots hold exactly the old dots and, once k > 0, the line ends |
| Mapping.PassLinesStep | Orchestrator.py:105-180 | the lines of one more ref are appended after those of the earlier refs, laid with the dots grown once more |
| Mapping.MapCover | Orchestrator.py:85-183 | the row pass followed by the column pass covers exactly the old lines plus the new walls |
| Mapping.MapDots | Orchestrator.py:185-189 | the line ends the passes add to the dots all lie on new lines, so the final removal leaves exactly the old dots on no new line |
| Mapping.MapBuilder.constructor | Orchestrator.py:33-52 | no dots, no lines, not complete |
| Mapping.MapBuilder.NotifBump | Orchestrator.py:54-57 | appends exactly (x, y) to the dots and changes nothing else |
| Mapping.MapBuilder.ConsolidatePass | Orchestrator.py:94-180 | one direction: the result is exactly the incoming lines followed by the lines laid at each ref in turn (`PassLines`), the stored dots having grown by all line ends once per ref before that ref (the aliasing); a point is on the result iff it was on an incoming line, on a stored line along the direction, or in a short gap at its ref, the line ends counting as dots |
| Mapping.MapBuilder.ConsolidateMap | Orchestrator.py:85-189 | a point is on a new line iff it was on an old line or lies in a short gap at its row (first pass) or at its column (second pass, refs taken from the grown dots); the dots become duplicate-free and exactly the old dots on no new line; all lines stay axis-aligned |
| Mapping.MapBuilder.HouseKeeping | Orchestrator.py:66-80 | the lines and dots change exactly as in `ConsolidateMap`, and then `complete` is the completeness verdict of the new state |
| Mapping.MapBuilder.IsMapComplete | Orchestrator.py:216-250 | False with no dots and no lines or with any dot left; True only when the lines split into closed loops |
| OrchestratorNav.BallisticNavigation.constructor | Orchestrator.py:304-343 | one robot per id at the initial position, each given a first movement; heartbeat 1, no PDR, an empty map builder |
| OrchestratorNav.BallisticNavigation.UpdateMovement | Orchestrator.py:459-470 | heading in [0, 359], speed 1, `seqNumMovement` raised by 1; nothing else changes |
| OrchestratorNav.BallisticNavigation.ReceiveNotification | Orchestrator.py:345-383 | an unknown robot id raises IndexError with nothing changed; for a known robot the frame's bump flag is stored first, before the heartbeat test, so every known-robot frame sets it; a heartbeat frame then updates only heartbeat and PDR; a repeated sequence number changes nothing; otherwise the position is advanced, the sequence number stored, a new movement set, and a bump adds exactly that position as one dot |
| OrchestratorNav.FirstCount | Orchestrator.py:551-557 | with unique cells, the first listed count of a cell is its count and its pair is found at the cell's index |
| OrchestratorNav.LookupUpdate | Orchestrator.py:555-557 | rewriting a cell's entry changes only that cell's count |
| OrchestratorNav.WithEntry | Orchestrator.py:545-549 | a missing cell is appended with count 0; cells stay unique and counts unchanged |
| OrchestratorNav.RaisedCounts | Orchestrator.py:545-557 | raising one cell keeps cells unique, appends it if new, and adds exactly 1 to its count only |
| OrchestratorNav.AtlasNavigation.constructor | Orchestrator.py:478-515 | the heatmap holds only the initial position at 0; nothing explored; grid origin is the initial position |
| OrchestratorNav.AtlasNavigation.BuildHeatmap | Orchestrator.py:539-561 | cells stay unique, old cells keep their order, the cells are the old ones plus the input's, and every count rises by the cell's number of occurrences in the input |
| OrchestratorNav.AtlasNavigation.MarkTraversedCells | Orchestrator.py:683-711 | the explored set gains exactly the snapped cells of the horizontal then vertical scan, all on the half-cell grid around the origin |
| PQueue.PriorityQueue.constructor | Utils.py:25-27 | empty heap and empty membership set |
| PQueue.PriorityQueue.LengthBound | Utils.py:29-41 | the invariant len(elements) ≥ len(check) |
| PQueue.PriorityQueue.Contains | Utils.py:29-31 | true iff the item is in `check`, iff some heap entry carries it |
| PQueue.PriorityQueue.Empty | Utils.py:33-35 | true iff `elements` is empty, iff `check` is empty |
| PQueue.PriorityQueue.Put | Utils.py:37-41 | an item already present leaves the queue unchanged; otherwise exactly the entry (priority, item) is added and the item joins `check` |
| PQueue.PriorityQueue.Get | Utils.py:43-46 | an empty queue raises IndexError; otherwise returns the item of a least (priority, item) entry, removes that entry and the item, and keeps the rest |
| PQueue.PutThenGet | atlas/datastructures/__init__.py:16-25 | on a fresh queue, getting after putting an item returns that item and leaves the queue empty |
| PQueue.MinIndex | atlas/datastructures/__init__.py:22-25 | the heap's minimum: an entry no greater than any other in lexicographic order |
| PQueue.RemoveAtItems | atlas/datastructures/__init__.py:22-25 | removing an entry removes exactly its item from the item set and keeps items distinct |
| PQueue.ItemSetBound | atlas/datastructures/__init__.py:8-20 | there are never more distinct items than entries |
| PQueue.NodeOrder | Utils.py:58-59 | `AstarNode` order compares fCost only: irreflexive, transitive, nodes of equal fCost are unordered, others are ordered |
| RelayTree.AddRootBranches | CT.py:46-52 | one branch [root, n] per new node, in order |
| RelayTree.ChainNoDup | CT.py:31-40 | a grown branch starting with the root and a non-root node repeats no node |
| RelayTree.ChainLength | CT.py:31-40 | a grown branch is at most len(all_nodes) + 2 long |
| RelayTree.WeightDecreases | CT.py:31-42 | the worklist only grows by one-node extensions, so a weighted measure falls each round and the loop ends |
| RelayTree.GrowStep | CT.py:31-42 | one worklist entry keeps the growth invariant and lowers the measure |
| RelayTree.GrownResult | CT.py:31-44 | at the end, the returned branches are exactly the full-length chains grown at least once; each starts with the root, has length len(all_nodes) + 1 and repeats no node when the root is not a new node |
| RelayTree.ChainReached | CT.py:31-42 | every chain from the root branches appears in the worklist |
| RelayTree.GrowEntry | CT.py:31-40 | the worklist gains exactly the children of entry i, one per node of all_nodes not on it, in node order; the collected list gains those children with len(all_nodes) + 1 nodes |
| RelayTree.KidsExtend | CT.py:32-38 | each child extends its parent by one node of all_nodes not already on it, and every such node gives a child |
| RelayTree.KidsNoDup | CT.py:32-38 | distinct nodes give distinct children |
| RelayTree.LongNoDup | CT.py:36-37 | selecting the full-length children keeps them distinct |
| RelayTree.DistinctStep | CT.py:31-42 | growing one entry keeps the worklist and the collected list free of repeats, since no child of an entry is already queued |
| RelayTree.ExtendBranches | CT.py:21-44 | as written: TypeError iff existing branches are given without new nodes; all_nodes replace new_nodes when none exist; the result is exactly the full chains of length ≥ 3, so with one non-root node it is empty; when the node lists have no repeats, neither does the result list |
| RelayTree.TwoNodeTreeLost | CT.py:28-40 | with the root and one node n, [root, n] has the full length yet is not returned |
| RelayTree.ExtendBranchesIntended | CT.py:21-44 | corrected: exactly the chains of length len(all_nodes) + 1, including the one-hop ones, and no branch listed twice when the node lists have no repeats |
| RelayTree.ShapedClose | CT.py:60-69 | closing a branch records one entry per edge ending at each of its nodes |
| RelayTree.AddBranch | CT.py:60-69 | KeyError iff some edge of the branch has no link; otherwise one entry is appended for each edge end |
| RelayTree.UpdateNodesPDR | CT.py:54-70 | IndexError on an empty tree; KeyError iff a link is missing; otherwise the root has one entry and every node one entry per branch edge ending at it |
| RelayTree.ComputeSuccess | CT.py:3-15 | pops the first node as root; errors as above; the tree is exactly the full chains from it; with at most two nodes it always fails |
| Traversal.RoundHalfEven | tests/test_algorithms.py:3 | Python `round`: within 1/2, ties go to the even integer |
| Traversal.SnapNear | tests/test_algorithms.py:2-8 | `_xy2hCell` lands on the half-cell grid around the origin, within a quarter cell |
| Traversal.SnapIdempotent | tests/test_algorithms.py:2-8 | snapping a snapped point changes nothing |
| Traversal.SnapInside | Orchestrator.py:713-720 | a point strictly within a quarter cell of a grid point snaps to it |
| Traversal.RoundInteger | tests/test_algorithms.py:3 | rounding an integer gives it back |
| Traversal.HCell2SvgRect | Orchestrator.py:722-729 | the rectangle is a square of side 0.5 |
| Traversal.RectOfCell | Orchestrator.py:713-729 | the rectangle of a cell contains every point that snaps to it, and every point strictly inside it snaps to it |
| Traversal.StepsExact | tests/test_algorithms.py:18-22 | the scan runs step j iff the j-th half step has not passed the stop |
| Traversal.StepsTowardStop | tests/test_algorithms.py:18-24 | whenever a scan step runs, stop ≠ start, so the division at line 24 (36) is never by zero |
| Traversal.StepsCount | tests/test_algorithms.py:13-22 | with the correct sign the scan takes ⌊2·distance⌋ steps |
| Traversal.StepsBetween | tests/test_algorithms.py:18-24 | every scanned coordinate lies between start (excluded) and stop (included) |
| Traversal.ScanOnGrid | tests/test_algorithms.py:26-39 | every scanned point is on the half-cell grid |
| Traversal.ScanX | tests/test_algorithms.py:18-27 | the horizontal loop produces the specified horizontal scan |
| Traversal.ScanY | tests/test_algorithms.py:30-39 | the vertical loop produces the specified vertical scan |
| Traversal.ScanCells | tests/test_algorithms.py:18-39 | both loops together produce the horizontal then vertical scan |
| Traversal.ScanLength | tests/test_algorithms.py:18-39 | the scan has one point per step of each loop |
| Traversal.MarkTraversedCells | tests/test_algorithms.py:10-44 | as written (y sign from `startY < stopX`): duplicate-free, with exactly the points of that scan, all on the grid |
| Traversal.WrongSignSkipsRows | tests/test_algorithms.py:14 | when the written y sign differs from the true one, the vertical loop runs no step |
| Traversal.VerticalMoveMarksNothing | tests/test_algorithms.py:14 | from (1, 1) to (1, 3) the written sign marks nothing, the correct sign marks 4 points |
| Traversal.ExploredCells | Orchestrator.py:683-711 | corrected scan (y sign from `startY < stopY`): on the grid, ⌊2·dx⌋ + ⌊2·dy⌋ points |

## Left out

- `printDiscoMap`, the `main` drivers and `getStats`: console rendering, timing and JSON file writing.
- `random` as a generator: every random draw is a nondeterministic choice, so no distribution is modelled. `ControlledRandom.py` is left out for the same reason.
- `NavigationRamaithitima`, `NavigationRamaithitima2` and `NavigationAtlas.think` (`Atlas.py:437-832`, `HNOO.py:353-493`): centralized frontier heuristics outside this model. Their `_distance`, `_stats_incr` and `_numHigherRankAndUnexploredNeighbors` are modelled. `MappingDoneIncomplete` is raised only there, so `singleExploration` is modelled over the distributed strategies.
- Exploration.SingleExploration: the source loops until `MappingDoneSuccess`. The model adds a tick bound `maxTicks` and reports `OutOfTicks` when it is reached, because termination depends on the random choices.
- Hnoo.SingleExploration: the same tick bound.
- Exploration.DistributedNavigation.constructor, Hnoo.Navigation.constructor, Ranking.CentralizedNavigation.constructor, Exploration.SingleExploration and Hnoo.SingleExploration require a rectangular 0/1 real map (`IsGrid`, `Binary`). The source does not check this: a ragged drawing gives rows of different lengths, on which it may raise IndexError or skip cells. Ragged maps are not modelled. An empty map is excluded too; on it the source raises IndexError at `len(self.realMap[0])` (`Atlas.py:178`).
- Drawing.GenRealMapDrawing, Floorplan.ParseDrawing, Floorplan.IsMapValid: the drawing arrives already split into lines. Python's `splitlines` also breaks lines at `\r`, `\v`, `\f`, `\x1c`-`\x1e`, `\x85` and the Unicode line and paragraph separators; that splitting is not modelled.
- Exploration.Shuffle: only the permutation is specified, because the shuffle order is random. The body keeps the listed order.
- Ranking.CentralizedNavigation.Query: the source bumps the miss counter before the `shouldvisits` lookup that may raise KeyError. The model bumps it in the same order, but from `Query` rather than inside the search.
- `DotBot.py`: trigonometric bump geometry and simulation-engine callbacks.
- `Utils.distance` (numpy norm) and `Utils.computeCurrentPosition` (trigonometry): the first is modelled as exact squared distance, the second is a function parameter. `setLoggerUname` (logging configuration) is left out.
- The float values in `CT.py`: `round(..,4)`, the numpy product and `_findSuccessProbability`. Only the structure of the per-node lists is modelled; each entry is an unspecified `real`. `computeSuccess.py` and `collisionPoint.py` (float clipping) are left out.
- The heap layout of `heapq`: the queue is modelled as a multiset of (priority, item) entries, whose minimum `get` returns.
- `NavigationAtlas._updateMovement`, `getExploredCells`, `_notifyDotBotMoved` and `scheduleCheckForTargets`: these depend on `Map`, `AStar`, `AtlasTargets` and `Recovery`, which are not part of this model. `map.explore_cell` is modelled as insertion into a set of explored cells.
- `MapBuilder.getMap`, `get_explored`, `Navigation.getEvaluatedPositions`, `getMovements` and the other getters: read-only views.
- The `Orchestrator` class, `_sendDownstreamCommands` (undefined constants) and the `Wireless` plumbing.
- The `MapBuilder` lock and the `_houseKeeping` timer: the model is single-threaded, and `HouseKeeping` is one consolidation plus a completeness check.
- `DataCollector.py`, `DataCollecter.py`, `Logging.py`: threads with file writes.
- `SimUI.py`, `static/dotbotsim.js`, `Connector.py`, `RunSim.py`, `RunOneSim.py`, `Wireless.py`, `SimEngine.py`, `atlas/config.py`, `AtlasLogging.py`, `atlas/algorithms/planning.py`: UI, network, drivers, configuration and stubs.
- Tests of methods that are not in the source shown, such as `_computeCellsExplored` and `_getPDR`: no properties are drawn from them.
- Mapping.MapBuilder.ConsolidatePass, Mapping.MapBuilder.HouseKeeping: the source walks the refs of `set(refs)` (`Orchestrator.py:103-105`) and the de-duplicated lines of `list(set(theselines))` (`Orchestrator.py:158`) in Python's set iteration order, which the program does not fix. The model takes first-occurrence order for both. So the exact line list of `ConsolidatePass` is one admissible order: the stable sort by start coordinate (`Orchestrator.py:161-164`) keeps lines with equal starts in that order, and the neighbour-only join sees them that way. The completeness verdict of `HouseKeeping` runs the greedy loop walk (`Orchestrator.py:239, 258-263`) over this order. The cover that `ConsolidateMap` and `HouseKeeping` ensure does not depend on the order.
- MapLines.RemoveDotsOnLines: the source pops from the list it receives and returns that same list. The model returns the resulting sequence, so the aliasing of that one list with the caller's is not captured.
- OrchestratorNav.BallisticNavigation.constructor: the source leaves the `bump` attribute unset until the first frame. The model starts it at false, and every frame sets it.
- Mapping.CloseMeans: `distance < MINFEATURESIZE_M/2` in `_areLinesClose` is stated as squared distance < 0.25, the same test for exact reals without a square root.
- OrchestratorNav.AtlasNavigation.BuildHeatmap: the source never calls `_buildHeatmap`. The model takes its list-of-pairs heatmap as written, including the `index((cell, counts[0]))` lookup.

## Findings

| source | as written | input that shows it | evidently intended | confidence | as-written member | corrected member |
|---|---|---|---|---|---|---|
| Atlas.py:226-230 | the 16 two-hop offsets list `(x, y)` where `(x, y-2)` belongs | any in-bounds (x, y): the result contains (x, y) and never (x, y-2) | exactly the cells at distance 2 | high; not executed | Exploration.TwoHopNeighborhood, Exploration.TwoHopAsWrittenDiffers | Grid.TwoHopNeighborhoodIntended |
| HNOO.py:240-245 | three offsets are wrong: `(x-1, y+1)`, `(x, y)`, `(x+1, y-1)` in place of `(x-1, y-2)`, `(x, y-2)`, `(x+1, y-2)` | any in-bounds (x, y) far from the border | exactly the cells at distance 2 | high; not executed | Hnoo.EarlyTwoHopNeighborhood, Hnoo.EarlyTwoHopExtra, Hnoo.EarlyTwoHopMissing | Grid.TwoHopNeighborhoodIntended |
| tests/test_algorithms.py:14 | `y_sign` compares `startY < stopX` | (1, 1) to (1, 3): no cell is marked, while the corrected scan marks 4 | `startY < stopY`, as in `Orchestrator.py:686` | high; not executed | Traversal.MarkTraversedCells, Traversal.VerticalMoveMarksNothing, Traversal.WrongSignSkipsRows | Traversal.ExploredCells |
| Floorplan.py:95-96 | a character other than `#`, `.`, `s` met by the flood fails an `assert` (AssertionError) | `["#####", "#s.b#", "#####"]` | return False, as the docstring and `tests/test_isMapValid.py:64-75` say | medium; not executed | Floorplan.IsMapValid, Floorplan.UnknownCharRaises | Floorplan.IsMapValidIntended (used by Floorplan.NewFloorplan) |
| CT.py:28-40 | the root branches `[root, n]` are never length-checked | all_nodes = [root, n]: the tree is empty, so `_updateNodesPDR` fails on `tree[0]` | the one branch [root, n] of length len(all_nodes) + 1 | medium; not executed | RelayTree.ExtendBranches, RelayTree.TwoNodeTreeLost | RelayTree.ExtendBranchesIntended |
