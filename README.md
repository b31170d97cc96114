# Seeded run-map generator

This project models the core of the game's run-map generator as Dafny code and proves properties of it. Given a seed, `MapManager` builds one act per chapter. Each act is built in three stages:

1. Node topology. Each row gets a random node count from its row class.
2. Path wiring. Each pair of adjacent rows is wired without crossings, by splitting the larger row into contiguous chunks and linking each node of the smaller row to one chunk. The node also gets an optional extra link to the head of the next chunk.
3. Node typing. The fixed rows get their types (first row Enemy, the second-to-last Rest, the last Boss). The remaining default nodes are shuffled and greedily promoted to EliteEnemy or Rest. A promotion must respect the caps, the disabled rows and the no-consecutive rule.

All randomness comes from `SeededRandom`, a Park–Miller (Lehmer) generator.

The model has two layers:

- Specification functions thread the generator state through every draw.
  - `Topology`, `SplitArraySpec`, `WireRows`, `ConnectFrom`, `AssignTypes`, `GenerateAct`, `GenerateActs`, `InitialMap`.
- The classes `SeededRandom` and `MapManager` follow the source's step-by-step code.
  - They use loops and fields that are updated in place.
  - Each method is proved to return exactly what its specification function computes from the old generator state.

The lemmas then prove what the design promises of that specification:

- shuffling is a permutation;
- split points give non-empty chunks that flatten back to the row;
- every pair of adjacent rows is wired mirrored, in range, without crossings, and with every node linked both ways;
- fixed rows hold their types;
- promoted nodes lie in allowed rows, and no two linked nodes share a type that forbids repetition;
- the type counter is exact, and caps are never exceeded by the greedy pass;
- for the shipped configuration: 16 rows, a single Boss, at most 5 EliteEnemy and at most 10 Rest nodes, and no EliteEnemy in rows 0–3.

Nodes live in an arena, `seq<seq<MapNode>>`. A node's `prevConnectedNodes` and `nextConnectedNodes` hold column indices into the adjacent row, instead of references to shared node objects.

Modules, one per file:

| file | module | models |
|---|---|---|
| `wrappers.dfy` | `Wrappers` | `Option` |
| `random.dfy` | `SeedRandom` | `SeededRandom` and the generator's state sequence |
| `map_config.dfy` | `MapConfig` | `NodeType`, `MAP_CONFIG` and the shape of a configuration |
| `map_graph.dfy` | `MapGraph` | `MapNode`, `ActMap`, `GameMap`, wiring predicates, type counts |
| `map_topology.dfy` | `MapTopology` | stage 1 |
| `map_split.dfy` | `MapSplit` | `splitArray` |
| `map_paths.dfy` | `MapPaths` | stage 2 |
| `map_node_types.dfy` | `MapNodeTypes` | stage 3 |
| `map_generation.dfy` | `MapGeneration` | a whole act, the whole map, and the theorems about them |
| `map_manager.dfy` | `MapManager` | the `MapManager` class |

## Model

| member | source | states |
|---|---|---|
| SeedRandom.JsRem | assets/scripts/common/utils/SeedRandom.ts:8 | JavaScript's `%` truncates toward zero: the remainder lies strictly between -m and m, equals the Euclidean remainder for a non-negative dividend, and is the negated remainder of the magnitude for a negative one |
| SeedRandom.PositiveSeedState | assets/scripts/common/utils/SeedRandom.ts:7-10 | a positive seed gives a state in [1, 2147483646]: the seed modulo 2147483647, or 2147483646 when that is 0 |
| SeedRandom.InitialState | assets/scripts/common/utils/SeedRandom.ts:7-10 | the constructor maps every integer seed to a generator state in [0, 2147483646] |
| SeedRandom.Step | assets/scripts/common/utils/SeedRandom.ts:17 | one `next` step keeps the state in [0, 2147483646] |
| SeedRandom.ZeroStateSeeds | assets/scripts/common/utils/SeedRandom.ts:8-9 | the constructor yields state 0 exactly for negative seeds congruent to -2147483646, and from state 0 the generator never leaves 0 |
| SeedRandom.StepKeepsNonZero | assets/scripts/common/utils/SeedRandom.ts:17 | one `next` step maps a non-zero state to a non-zero state below the modulus |
| SeedRandom.AdvanceKeepsNonZero | assets/scripts/common/utils/SeedRandom.ts:16-18 | any number of steps from a non-zero state stays non-zero |
| SeedRandom.SeedOneSequence | assets/scripts/common/utils/SeedRandom.ts:7-18 | seed 1 produces the states 1, 16807, 282475249 |
| SeedRandom.ScaleInRange | assets/scripts/common/utils/SeedRandom.ts:26-28 | `nextInt(min, max)` lies in [min, max] whenever min <= max |
| SeedRandom.DrawIntInRange | assets/scripts/common/utils/SeedRandom.ts:26-28 | a `nextInt(min, max)` draw from any generator state lies in [min, max] when min <= max |
| SeedRandom.FloorOfScaledState | assets/scripts/common/utils/SeedRandom.ts:27 | flooring (state / 2147483647) * n equals the integer quotient state * n div 2147483647 |
| SeedRandom.Swap | assets/scripts/common/utils/SeedRandom.ts:48 | the destructuring swap exchanges positions i and j and keeps every other position |
| SeedRandom.SwapPermutes | assets/scripts/common/utils/SeedRandom.ts:48 | a swap keeps the multiset of elements |
| SeedRandom.FisherYatesStep | assets/scripts/common/utils/SeedRandom.ts:46-49 | one round draws j in [0, i], swaps positions i and j, then continues from i - 1 with the next state |
| SeedRandom.FisherYatesDraws | assets/scripts/common/utils/SeedRandom.ts:46-47 | the loop from index i consumes exactly i draws |
| SeedRandom.FisherYatesPermutes | assets/scripts/common/utils/SeedRandom.ts:46-49 | the loop leaves a permutation of its input |
| SeedRandom.ShuffledIsPermutation | assets/scripts/common/utils/SeedRandom.ts:44-51 | `shuffle` returns a permutation of its argument of the same length, after length - 1 draws (none for fewer than two elements) |
| SeedRandom.Shuffled | assets/scripts/common/utils/SeedRandom.ts:44-51 | `shuffle` returns an array of the same length and leaves a valid generator state; `ShuffledIsPermutation` proves it a permutation |
| SeedRandom.SeededRandom.constructor | assets/scripts/common/utils/SeedRandom.ts:7-10 | the state is the normalised seed |
| SeedRandom.SeededRandom.Next | assets/scripts/common/utils/SeedRandom.ts:16-18 | advances the state by one Lehmer step and returns state / 2147483647, which lies in [0, 1) and is positive from a non-zero state |
| SeedRandom.SeededRandom.NextInt | assets/scripts/common/utils/SeedRandom.ts:26-28 | one step, then floor(x * (max - min + 1)) + min, which lies in [min, max] when min <= max |
| SeedRandom.SeededRandom.Pick | assets/scripts/common/utils/SeedRandom.ts:35-37 | one step; returns the element at the index `nextInt(0, length - 1)` draws, which is an element of the array |
| SeedRandom.SeededRandom.Shuffle | assets/scripts/common/utils/SeedRandom.ts:44-51 | the result and the new state are those of the Fisher–Yates specification, a permutation by `ShuffledIsPermutation` |
| MapConfig.FixedTypeOf | assets/scripts/common/constants/map.ts:27-31 | a row has a forced type exactly when `specialRowNodeLimit` lists it, and the type returned is the listed one |
| MapConfig.MapConfigWellFormed | assets/scripts/common/constants/map.ts:16-70 | the shipped configuration is well formed: each row class range has 1 <= min <= max, and the fixed rows lie inside the map, each listed once, in ascending order |
| MapConfig.MapConfigShape | assets/scripts/common/constants/map.ts:17-26 | 3 acts, row indices 0..15, first row 2–4 nodes, middle rows 1–6, last row exactly 1 |
| MapConfig.MapConfigFixedRows | assets/scripts/common/constants/map.ts:27-31 | row 0 is forced to Enemy, row 14 to Rest, row 15 to Boss, and no other row is forced |
| MapConfig.MapConfigLimits | assets/scripts/common/constants/map.ts:32-52 | the caps, disabled rows and no-consecutive flags of the four node types |
| MapGraph.TypesPartition | assets/scripts/global/MapManager.ts:133-134 | every node has exactly one type: the four type counts sum to the flattened node count |
| MapGraph.SameGraphConnected | assets/scripts/global/MapManager.ts:130-144 | retyping nodes (same ids, positions and links) keeps a correctly wired map correctly wired |
| MapTopology.Topology | assets/scripts/global/MapManager.ts:83-118 | the topology pass leaves a valid generator state; `TopologyClosedForm` and `TopologyShape` state its rows |
| MapTopology.TopologyClosedForm | assets/scripts/global/MapManager.ts:86-117 | the topology loop from row `row` appends one row per index up to `maxRowIndex`; row i has `nextInt` of its row class from the i-th state nodes, and the loop consumes exactly one draw per row |
| MapTopology.TopologyShape | assets/scripts/global/MapManager.ts:83-118 | a well-formed configuration gives maxRowIndex + 1 rows, each with a node count inside its row class's range; every node knows its act, row and column and starts as an unlinked, untyped Enemy |
| MapTopology.TopologyNonEmpty | assets/scripts/global/MapManager.ts:91-103 | every row has at least one node |
| MapTopology.ShippedTopologySizes | assets/scripts/common/constants/map.ts:18-26 | with the shipped configuration: 16 rows, 2–4 nodes in row 0, exactly 1 in row 15, 1–6 in rows 1–14 |
| MapSplit.DrawSplitPoints | assets/scripts/global/MapManager.ts:259-266 | the retry loop only extends the points drawn so far and stops with at least count - 1 of them |
| MapSplit.DrawSplitPointsValid | assets/scripts/global/MapManager.ts:259-266 | when 1 <= count <= length, the loop stops with exactly count - 1 distinct points in [1, length - 1], and draws nothing once it has them |
| MapSplit.DistinctWithinBound | assets/scripts/global/MapManager.ts:259-266 | distinct points in [1, n] number at most n, so the loop can only finish when count - 1 <= length - 1 |
| MapSplit.SplitNeverEnds | assets/scripts/global/MapManager.ts:259-266 | with more chunks asked for than a row of at least two nodes has, the loop never finishes |
| MapSplit.Insert | assets/scripts/global/MapManager.ts:268 | inserting into a sorted list keeps it sorted and adds exactly one element |
| MapSplit.SortAsc | assets/scripts/global/MapManager.ts:268 | `sort((a, b) => a - b)` returns an ascending permutation |
| MapSplit.SortedDistinct | assets/scripts/global/MapManager.ts:268 | sorting distinct points gives a strictly increasing list |
| MapSplit.CutsFromPoints | assets/scripts/global/MapManager.ts:268-269 | [0] + the sorted points + [length] starts at 0, ends at length and strictly increases |
| MapSplit.SplitBoundsValid | assets/scripts/global/MapManager.ts:259-269 | when 1 <= count <= length, `fullSplitPoints` has count + 1 strictly increasing entries from 0 to length |
| MapSplit.SplitBoundsNeverEnd | assets/scripts/global/MapManager.ts:259-266 | with more chunks asked for than a row of at least two nodes has, no split is produced |
| MapSplit.SplitBoundsNoDraw | assets/scripts/global/MapManager.ts:259-269 | with count <= 1 nothing is drawn and the bounds are [0, length] |
| MapSplit.JsSliceInRange | assets/scripts/global/MapManager.ts:274 | `slice(start, end)` with 0 <= start <= end <= length is the subsequence [start, end) |
| MapSplit.FlattenChunks | assets/scripts/global/MapManager.ts:270-276 | the chunks cut at non-decreasing bounds from 0 concatenate to the prefix up to the last bound |
| MapSplit.SplitArraySpec | assets/scripts/global/MapManager.ts:254-278 | `splitArray` fails to return exactly when drawing its split points does not finish, and otherwise leaves a valid generator state |
| MapSplit.SplitArrayChunks | assets/scripts/global/MapManager.ts:254-278 | for 1 <= count <= length, `splitArray` returns count non-empty chunks that concatenate back to the array in order |
| MapSplit.SplitArrayNeverEnds | assets/scripts/global/MapManager.ts:254-266 | `splitArray` of a row of at least two nodes into more chunks than it has never returns |
| MapPaths.WireRows | assets/scripts/global/MapManager.ts:280-305 | wiring two rows, when it completes, keeps both row sizes and leaves a valid generator state |
| MapPaths.WireRowsSides | assets/scripts/global/MapManager.ts:280-305 | wiring two rows splits the larger one into as many chunks as the smaller has nodes (swapping the roles when the upper row is larger); the smaller row's nodes gain their targets and the larger's their sources on the matching side; one coin is drawn per chunk boundary |
| MapPaths.ChunksOfRange | assets/scripts/global/MapManager.ts:287 | the chunks of the larger row are the column ranges between consecutive split bounds |
| MapPaths.SmallSideStep | assets/scripts/global/MapManager.ts:298-303 | node i of the smaller row gains its chunk, then the head of chunk i + 1 exactly when the coin came up |
| MapPaths.SmallSideRound | assets/scripts/global/MapManager.ts:288-303 | one loop round turns node i into its final form and leaves the nodes after it untouched |
| MapPaths.LargeSideStep | assets/scripts/global/MapManager.ts:298-303 | one loop round adds i to the links of every node of chunk i, and to the head of chunk i + 1 when the coin came up |
| MapPaths.LargeSideStart | assets/scripts/global/MapManager.ts:287-288 | before the first round the larger row is unchanged |
| MapPaths.TargetsLinked | assets/scripts/global/MapManager.ts:298-303 | the columns pushed onto small node i are exactly those it is linked to |
| MapPaths.SourcesLinked | assets/scripts/global/MapManager.ts:299-302 | the nodes pushed onto large node j are exactly the small nodes linked to it |
| MapPaths.LinkedBounds | assets/scripts/global/MapManager.ts:292-302 | a linked column lies in the node's chunk or is the head of the next chunk |
| MapPaths.PairForward | assets/scripts/global/MapManager.ts:280-305 | when the upper row is no larger: every link is in range, successors and predecessors mirror each other, links never cross, and every node of both rows has a link |
| MapPaths.PairReverse | assets/scripts/global/MapManager.ts:281-305 | the same four properties when the upper row is larger and the roles are swapped |
| MapPaths.ForwardSides | assets/scripts/global/MapManager.ts:284-303 | in the unswapped call only `nextConnectedNodes` of the upper row and `prevConnectedNodes` of the lower row change, and the pair is wired correctly |
| MapPaths.ReverseSides | assets/scripts/global/MapManager.ts:282-303 | in the swapped call the fields are exchanged, only the facing lists change, and the pair is wired correctly |
| MapPaths.ConnectPairOk | assets/scripts/global/MapManager.ts:121-126 | wiring rows r and r + 1 of a map with unlinked facing sides wires that pair correctly and changes only its facing lists |
| MapPaths.PairOkKept | assets/scripts/global/MapManager.ts:121-126 | wiring the next pair does not disturb a pair already wired |
| MapPaths.WiredStep | assets/scripts/global/MapManager.ts:121-126 | after a round of the loop every pair up to row r + 1 is wired and no list further down has been written |
| MapPaths.ConnectFrom | assets/scripts/global/MapManager.ts:121-127 | the loop over adjacent pairs, when it completes, keeps every row size and leaves a valid generator state |
| MapPaths.ConnectFromConnected | assets/scripts/global/MapManager.ts:121-127 | the loop from row r, when it completes, leaves every adjacent pair wired and keeps the nodes' ids, positions and types |
| MapPaths.WiringConnects | assets/scripts/global/MapManager.ts:121-127 | `generateValidPaths` on unlinked non-empty rows, when it completes, gives a connected map: every pair wired, nodes otherwise unchanged |
| MapNodeTypes.InitialCounter | assets/scripts/global/MapManager.ts:131-135 | the counter has an entry for every node type |
| MapNodeTypes.InitialCounterCounts | assets/scripts/global/MapManager.ts:133-135 | on an all-Enemy map the initial counter (all nodes Enemy, others 0) is the exact count of each type |
| MapNodeTypes.CountsSum | assets/scripts/global/MapManager.ts:133-135 | an exact counter sums to the number of nodes |
| MapNodeTypes.ShiftByValue | assets/scripts/global/MapManager.ts:154-155 | forcing n nodes to t adds n to t's count and removes n from Enemy's |
| MapNodeTypes.ForcePrefixStep | assets/scripts/global/MapManager.ts:151-156 | forcing the first n + 1 nodes of a row is forcing the first n and then node n |
| MapNodeTypes.ForceRowCounts | assets/scripts/global/MapManager.ts:151-156 | forcing a whole all-Enemy row to t keeps the counter exact |
| MapNodeTypes.ApplyFixed | assets/scripts/global/MapManager.ts:148-158 | forcing the fixed rows keeps the row sizes and a total counter |
| MapNodeTypes.ApplyFixedOk | assets/scripts/global/MapManager.ts:148-158 | forcing distinct default rows keeps the counter exact, gives each listed row its type and instance, touches no other row, and keeps the wiring |
| MapNodeTypes.ApplyFixedCounts | assets/scripts/global/MapManager.ts:150-156 | the counter stays exact through the forEach over the fixed rows |
| MapNodeTypes.ApplyFixedRows | assets/scripts/global/MapManager.ts:150-153 | each listed row is forced, other rows are kept, wiring is unchanged |
| MapNodeTypes.FixedStage | assets/scripts/global/MapManager.ts:137 | after the fixed rows are set on a freshly wired map, they hold their types, the other rows are untouched, and two linked nodes share a type that forbids repetition only when both lie in fixed rows |
| MapNodeTypes.EnemyColsSpec | assets/scripts/global/MapManager.ts:169-173 | a row contributes exactly its Enemy nodes, each once |
| MapNodeTypes.EditableInSpec | assets/scripts/global/MapManager.ts:164-175 | the collected nodes are exactly the Enemy nodes of rows without a forced type, each once |
| MapNodeTypes.EditableNodes | assets/scripts/global/MapManager.ts:164-175 | the list holds exactly the editable positions, the Enemy nodes of rows without a forced type, each once |
| MapNodeTypes.EditableValid | assets/scripts/global/MapManager.ts:164-175 | every collected position names a node of the map |
| MapNodeTypes.ShuffledValid | assets/scripts/global/MapManager.ts:177 | the shuffled list still names nodes of the map |
| MapNodeTypes.ShuffledOrderGood | assets/scripts/global/MapManager.ts:164-178 | the shuffled editable list has valid, distinct, Enemy-typed positions outside the fixed rows |
| MapNodeTypes.IsNodeTypeConsecutive | assets/scripts/global/MapManager.ts:218-227 | a type that allows linked repeats is never reported consecutive |
| MapNodeTypes.AnyOfTypeIn | assets/scripts/global/MapManager.ts:222-224 | `some` over a neighbour list is true exactly when a listed neighbour in range has the type |
| MapNodeTypes.ConsecutiveNeighbours | assets/scripts/global/MapManager.ts:218-227 | a node is reported consecutive for t exactly when t forbids linked repeats and some predecessor or successor of the node has type t |
| MapNodeTypes.NonDefault | assets/scripts/global/MapManager.ts:187-189 | the filter keeps exactly the types other than Enemy and Boss |
| MapNodeTypes.SpecialTypesOrder | assets/scripts/global/MapManager.ts:187-189 | the special types are tried in the order EliteEnemy, then Rest |
| MapNodeTypes.ChoicePriority | assets/scripts/global/MapManager.ts:194-207 | a node becomes EliteEnemy if that is allowed, otherwise Rest if that is allowed, otherwise stays as it is |
| MapNodeTypes.FirstAllowed | assets/scripts/global/MapManager.ts:194-207 | the chosen type is listed and allowed (below its cap, row not disabled, no linked neighbour of that type when it forbids repetition); no choice means no listed type is allowed |
| MapNodeTypes.FirstAllowedStep | assets/scripts/global/MapManager.ts:194-207 | the inner loop breaks at the first allowed type and otherwise moves on to the next |
| MapNodeTypes.AssignWith | assets/scripts/global/MapManager.ts:193-209 | the greedy pass keeps the row sizes and a total counter |
| MapNodeTypes.AssignWithTaken | assets/scripts/global/MapManager.ts:196-206 | a node that gets type t is retyped, t's count rises by one and Enemy's drops by one, then the pass continues with the next node |
| MapNodeTypes.AssignWithSkipped | assets/scripts/global/MapManager.ts:194-208 | a node with no allowed type is left alone and the pass continues |
| MapNodeTypes.RetypeCounts | assets/scripts/global/MapManager.ts:202-205 | retyping an Enemy node keeps the counter exact |
| MapNodeTypes.RetypeNoClash | assets/scripts/global/MapManager.ts:196-203 | a retyping that passed the no-consecutive check creates no linked pair of the same forbidding type |
| MapNodeTypes.RetypeSettled | assets/scripts/global/MapManager.ts:196-203 | a retyped node lies outside the fixed rows, in a row its type allows, and carries its type's instance |
| MapNodeTypes.RetypeOrder | assets/scripts/global/MapManager.ts:193 | the rest of the shuffled list remains valid, distinct and Enemy-typed after a node is retyped |
| MapNodeTypes.RetypeStep | assets/scripts/global/MapManager.ts:196-206 | one promotion keeps the wiring, creates no clash and keeps the rest of the list usable |
| MapNodeTypes.AssignWithCounts | assets/scripts/global/MapManager.ts:196-205 | through the greedy pass the counter stays exact and no type rises above its cap (or above where it started) |
| MapNodeTypes.AssignWithShape | assets/scripts/global/MapManager.ts:193-209 | through the greedy pass every change is an allowed promotion, wiring is kept, and no clash arises |
| MapNodeTypes.AssignWithOk | assets/scripts/global/MapManager.ts:193-209 | the greedy pass over special types keeps an exact counter within caps, promotes only allowed nodes, keeps the wiring and creates no clash |
| MapNodeTypes.AssignSpecial | assets/scripts/global/MapManager.ts:184-210 | the greedy pass keeps the row sizes and a total counter |
| MapNodeTypes.AssignSpecialOk | assets/scripts/global/MapManager.ts:184-210 | the same for `assignSpecialNodeTypes` with its filtered type list |
| MapNodeTypes.TypedAfterGreedy | assets/scripts/global/MapManager.ts:130-144 | after both typing steps the fixed rows hold their types and every other node is a plain Enemy or an allowed special node |
| MapNodeTypes.ForcedCount | assets/scripts/global/MapManager.ts:130-144 | after fixing, each non-Enemy type's count equals its count in the fixed rows of the final map |
| MapNodeTypes.AssignTypes | assets/scripts/global/MapManager.ts:130-144 | typing leaves a valid generator state; `AssignTypesOk` states the typed rows and counter |
| MapNodeTypes.AssignTypesOk | assets/scripts/global/MapManager.ts:130-144 | `assignNodeTypes` on a freshly wired map leaves an exact counter, the same wiring, forced fixed rows, allowed types elsewhere, no clash and every cap kept (unless the fixed rows alone exceed it) |
| MapGeneration.Skeleton | assets/scripts/global/MapManager.ts:71-75 | stages 1 and 2, when they complete, give maxRowIndex + 1 rows |
| MapGeneration.SkeletonOk | assets/scripts/global/MapManager.ts:71-75 | stages 1 and 2 give rows of the configured sizes, laid out by act, row and column, wired correctly, and untyped |
| MapGeneration.GenerateAct | assets/scripts/global/MapManager.ts:65-80 | building an act, when it completes, leaves a valid generator state |
| MapGeneration.GenerateActOk | assets/scripts/global/MapManager.ts:65-80 | a generated act carries its id and satisfies every structural and typing rule |
| MapGeneration.GenerateActs | assets/scripts/global/MapManager.ts:55-58 | the loop makes at most actCount acts, numbered consecutively from the first id |
| MapGeneration.GenerateActsStep | assets/scripts/global/MapManager.ts:55-58 | one loop round appends the next act to those already stored |
| MapGeneration.GenerateActsOk | assets/scripts/global/MapManager.ts:55-58 | every act the loop makes is numbered in sequence and satisfies every rule |
| MapGeneration.ActsEnd | assets/scripts/global/MapManager.ts:55-58 | the generator state after n acts, or none when some act does not finish; any state it gives is valid |
| MapGeneration.GenerateActsComplete | assets/scripts/global/MapManager.ts:55-58 | the loop makes exactly actCount acts if and only if every act finishes |
| MapGeneration.ConstructorSeed | assets/scripts/global/MapManager.ts:40-42 | `seed \|\| 12345`: a missing or zero seed becomes 12345 and any other seed is kept |
| MapGeneration.InitialMap | assets/scripts/global/MapManager.ts:49-60 | the map records its seed and has at most actCount acts, numbered from 1 |
| MapGeneration.InitialMapOk | assets/scripts/global/MapManager.ts:49-60 | the map records its seed, has at most actCount acts numbered from 1, exactly actCount when every act finishes, and each act satisfies every rule |
| MapGeneration.ShippedRowTypes | assets/scripts/common/constants/map.ts:27-52 | with the shipped configuration: row 0 is all Enemy, row 14 all Rest, Boss appears in row 15 and nowhere else, and EliteEnemy appears neither in rows 0–3 nor in fixed rows |
| MapGeneration.ShippedCounts | assets/scripts/common/constants/map.ts:32-52 | a finished shipped act has exactly one Boss, at most 5 EliteEnemy and at most 10 Rest nodes |
| MapGeneration.ShippedActOk | assets/scripts/global/MapManager.ts:65-80 | every shipped act has 16 rows, an all-Enemy first row, an all-Rest row 14, a single-node Boss row 15, one Boss, at most 5 EliteEnemy, at most 10 Rest and no EliteEnemy in rows 0–3 |
| MapGeneration.ShippedMapOk | assets/scripts/global/MapManager.ts:49-60 | for any seed the shipped map has at most 3 acts, exactly 3 when every act finishes, numbered from 1, each satisfying every rule |
| MapGeneration.ShippedNoRepeats | assets/scripts/common/constants/map.ts:32-52 | in a finished shipped act every link is in range and two linked nodes share a type only when it is Enemy: no Rest, EliteEnemy or Boss pair |
| MapManager.MapManager.constructor | assets/scripts/global/MapManager.ts:40-43 | the map is the one `initMap(seed \|\| 12345)` builds |
| MapManager.MapManager.InitMap | assets/scripts/global/MapManager.ts:49-60 | records the seed, makes a fresh generator from it, and stores and returns the acts of the specification |
| MapManager.MapManager.GenerateSingleAct | assets/scripts/global/MapManager.ts:65-80 | returns the specification's act and leaves the generator in its final state |
| MapManager.MapManager.GenerateTopologyNodes | assets/scripts/global/MapManager.ts:83-118 | builds the rows of `Topology` for the shipped configuration, with the generator advanced one step per row |
| MapManager.MapManager.TopologyRows | assets/scripts/global/MapManager.ts:86-117 | the row loop builds the rows of `Topology` for a configuration |
| MapManager.MapManager.DrawRowCount | assets/scripts/global/MapManager.ts:90-100 | one `nextInt` over the row's class range |
| MapManager.MapManager.CreateRowNodes | assets/scripts/global/MapManager.ts:103-114 | the column loop creates nodeCount fresh Enemy nodes with their ids and no links |
| MapManager.MapManager.GenerateValidPaths | assets/scripts/global/MapManager.ts:121-127 | wires every adjacent pair of rows exactly as `ConnectFrom` does, or reports that a split would still be drawing |
| MapManager.MapManager.GenerateValidPathForTwoRows | assets/scripts/global/MapManager.ts:280-305 | wires two rows exactly as `WireRows` does, including the swapped call |
| MapManager.MapManager.LinkChunks | assets/scripts/global/MapManager.ts:288-304 | the chunk loop leaves the smaller row with its targets and the larger with its sources, after one coin per chunk boundary |
| MapManager.MapManager.LinkRound | assets/scripts/global/MapManager.ts:289-303 | one round completes node i of the smaller row and its links into the larger row |
| MapManager.MapManager.LinkNextHead | assets/scripts/global/MapManager.ts:292-303 | links the head of the next chunk exactly when it exists and `pick([true, false])` yields true; draws only when the head exists |
| MapManager.MapManager.LinkChunk | assets/scripts/global/MapManager.ts:298-299 | every node of the chunk gains the current node on its facing side, and no other node changes |
| MapManager.MapManager.SplitArray | assets/scripts/global/MapManager.ts:254-278 | returns `SplitArraySpec`'s chunks and state, or nothing when the retry loop would not finish |
| MapManager.MapManager.DrawSplitPositions | assets/scripts/global/MapManager.ts:259-266 | the retry loop returns the points `DrawSplitPoints` draws |
| MapManager.MapManager.SliceChunks | assets/scripts/global/MapManager.ts:269-277 | the slicing loop returns the chunks between consecutive bounds |
| MapManager.MapManager.AssignNodeTypes | assets/scripts/global/MapManager.ts:130-144 | returns `AssignTypes`'s rows and counter, after the shuffle's draws |
| MapManager.MapManager.SetFixedTypeNodes | assets/scripts/global/MapManager.ts:148-158 | forces the shipped fixed rows as `ApplyFixed` does |
| MapManager.MapManager.ForceRows | assets/scripts/global/MapManager.ts:149-157 | the loop over the fixed-row entries, as `ApplyFixed` |
| MapManager.MapManager.ForceRow | assets/scripts/global/MapManager.ts:151-156 | forces every node of the row and moves the row's size from Enemy's count to the type's |
| MapManager.MapManager.CollectEditableNodes | assets/scripts/global/MapManager.ts:164-178 | returns the shuffled editable nodes and the generator state after the shuffle |
| MapManager.MapManager.PushEnemies | assets/scripts/global/MapManager.ts:169-173 | appends the row's Enemy nodes in column order |
| MapManager.MapManager.AssignSpecialNodeTypes | assets/scripts/global/MapManager.ts:184-210 | runs the greedy pass as `AssignSpecial` does |
| MapManager.MapManager.AssignInOrder | assets/scripts/global/MapManager.ts:193-209 | the outer loop over the shuffled nodes, as `AssignWith` |
| MapManager.MapManager.AssignNode | assets/scripts/global/MapManager.ts:194-208 | one node's turn: the remaining pass from the next node gives the same result as the pass from this node |
| MapManager.MapManager.FirstAllowedType | assets/scripts/global/MapManager.ts:194-200 | the inner loop returns the first type passing the cap, disabled-row and consecutive checks |
| MapManager.MapManager.GetGameMap | assets/scripts/global/MapManager.ts:308-310 | returns the stored map |
| MapManager.MapManager.RegenerateMap | assets/scripts/global/MapManager.ts:312-314 | rebuilds the map from a new seed, as `initMap` |

## Left out

- Node instances (`createNodeInstance`, assets/scripts/global/MapManager.ts:232-252) are tags. The enemy, node and mouse classes they construct are not part of this model.
- `nodeId` is the triple (act, row, column), not the formatted string.
- The `MapManagerInstance` singleton (MapManager.ts:317) is left out: it only calls the constructor with no seed.
- The `console.log` in `assignSpecialNodeTypes` is left out: it is I/O.
- Nodes in the source are shared objects linked by reference. The model keeps them in an arena of rows, with links as column indices into the adjacent row. Aliasing is therefore not modelled, and methods return the updated rows instead of mutating them in place.
- Several methods are loop bodies extracted as helper methods, so that each proof stays small. The source inlines them.
  - `DrawRowCount`, `CreateRowNodes`, `LinkChunks`, `LinkRound`, `LinkNextHead`, `LinkChunk`, `DrawSplitPositions`, `SliceChunks`, `ForceRows`, `ForceRow`, `PushEnemies`, `AssignInOrder`, `AssignNode`, `FirstAllowedType`.
  - `TopologyRows`, `ForceRows` and `AssignInOrder` take the configuration (or one of its fields) as a parameter. Their wrappers pass `MAP_CONFIG`.
- `flattenDeep(actMap.rows).length` is `TotalNodes`.
- Seeds are integers. A fractional or NaN seed is not modelled: NaN would reach the `|| 12345` default in the source.
- SeedRandom.SeededRandom.Next uses an exact real quotient instead of a rounded double.
  - This does not change `nextInt`: state × n is never a multiple of the prime 2147483647, so the exact product lies at least 1/2147483647 from an integer. Double rounding error is far smaller than that margin. This argument is not proved in Dafny.
- MapSplit.DrawSplitPoints bounds the source's unbounded retry loop with fuel. The bound is `SPLIT_DRAW_LIMIT`, 2147483646 draws, the generator's period. When the fuel runs out, the result is `None`.
  - `SplitNeverEnds` proves the loop cannot finish when more chunks are asked for than the row allows.
  - That every finishing case finishes within the bound is not proved.
- MapManager.MapManager.SplitArray, GenerateValidPathForTwoRows, GenerateValidPaths and GenerateSingleAct report `None`/`false` where the source would loop forever inside `splitArray`.
- MapManager.MapManager.InitMap stops making acts at such an act, where the source never returns. With the shipped row ranges, the smaller row is split into at most as many chunks as the larger row has nodes. So `SplitArrayNeverEnds` cannot apply to the shipped configuration.
- MapGeneration.GenerateActs gives fewer than actCount acts when an act does not finish, where the source never returns. `GenerateActsComplete` proves the count is exact if and only if `ActsEnd` is present. That every act finishes within the split-draw bound is not proved.
- MapGeneration.InitialMapOk states exactly actCount acts only under the same condition, for the same reason.
- MapGeneration.ShippedMapOk states exactly 3 acts only under the same condition, for the same reason.
- The seed normalisation is modelled as written. A seed of -2147483646, or any negative seed congruent to it, gives state 0, from which every draw is the minimum (`ZeroStateSeeds`). This is recorded as a property, not corrected.
- Rows that are empty would make the source dereference `undefined`. The model's wiring requires non-empty rows, which `TopologyNonEmpty` guarantees for every well-formed configuration.
- MapManager.MapManager.GetGameMap returns the stored map value. Callers of the source receive a reference they could mutate; that is not modelled.
