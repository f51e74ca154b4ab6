# goobereats delivery core, modelled in Dafny

goobereats plans food deliveries over a street map. This project models its core:

- **ExpandableHashMap**: a separate-chaining hash table that doubles its bucket count when the load factor goes above its maximum.
- **StreetMap**: an index from each coordinate to the street segments that start there. Every street record is stored in both directions.
- **PointToPointRouter**: a greedy best-first search from one coordinate to another. Nodes are queued by straight-line distance to the goal, and the route is rebuilt from a predecessor map.
- **DeliveryOptimizer**: a swap-and-keep-best walk over delivery orders, scored by crow-flies tour length, with a cooling temperature.
- **DeliveryPlanner**: orders the deliveries, routes every leg including the return to the depot, and turns the routed segments into proceed, turn and deliver commands.

The modules follow the source files:

| module | file | models |
|---|---|---|
| `Geo` | geo.dfy | coordinates, segments, delivery requests and results, and the two `hasher` overloads |
| `BucketTables` | bucket_tables.dfy | the pure layer under the hash map: tables of buckets, what `find` / `associate` / `expand` compute, and lemmas that rehashing loses or duplicates nothing |
| `ExpandableHashMaps` | expandable_hash_map.dfy | the `ExpandableHashMap` class: the bucket table is a field the methods reassign, with a ghost `Contents` map tied to it by `Valid()` |
| `StreetMaps` | street_map.dfy | `load` and `addToMap` as pure functions on the index (`AddSegment`, `AddRecord`, `LoadAll`), plus the `StreetMap` class wrapping a hash map |
| `Router` | router.dfy | `generatePointToPointRoute` as methods over the two hash-map objects, with the search proved sound (a found route is a route) and complete (`NO_ROUTE` only when no route exists) |
| `Optimizer` | optimizer.dfy | `optimizeDeliveryOrder` and `calculateProbability` |
| `Planner` | planner.dfy | `getProceedAngle` and `generateDeliveryPlan`. Command assembly is specified by functions (`RunLeg`, `RunPlan`, `AssemblePlan`) that follow the nested loop, and the method `AssembleCommands` is proved equal to them |

Outside inputs become parameters of the model:

- The string hash (`std::hash<string>`) is `strHash`.
- The earth distance and the two angle functions are `dist`, `angleOfLine` and `angleBetween`.
- The k-th call of `rand()` is `rand(k)`.
- `exp` is a parameter.
- Opening the map file and parsing it become the parameters of `Load`: whether the file opened, and the parsed records.

Where the code does something other than it seems to, the model keeps what the code does:

- **Acceptance.** A candidate order is accepted when `calculateProbability(...) > rand() % 2`. This looks like a Metropolis test, but the score lies in (0, 1], so the test accepts exactly when `rand() % 2` is 0, whether the candidate is better or worse. `Optimizer.AcceptIffEvenDraw` states this.
- **Crow distances.** `oldCrowDistance` is added onto the caller's value, and the planner passes an uninitialised `d`. So the returned `newCrowDistance` equals the recomputed cost of the returned order only when that value is 0 or some swap improved the tour (`Optimizer.OptimizeDeliveryOrder`).
- **The planner's results:**
  - The return leg's routing result is ignored. If that leg fails, the stale `d` from the previous leg is still added to the total.
  - A plan succeeds when, and only when, some routed segment ends at the depot.
  - With no deliveries, the result is `NO_ROUTE` plus one deliver command for the return leg's empty item.
  - The caller's `commands` are appended to and never cleared.

## Model

| member | source | states |
|---|---|---|
| Geo.EdgeHashIgnoresEnd | PointToPointRouter.cpp:36-39 | two edges leaving the same coordinate always hash alike, whatever their ends |
| Geo.CoordHashIgnoresSplit | StreetMap.cpp:10-13 | coordinates whose latitude and longitude texts concatenate alike always hash alike |
| BucketTables.BucketIndex | ExpandableHashMap.h:160-166 | the bucket of a key is below the bucket count |
| BucketTables.FindIn | ExpandableHashMap.h:148-157 | the scan finds nothing exactly when no pair of the bucket has the key; what it finds is stored with the key |
| BucketTables.FindInDistinct | ExpandableHashMap.h:148-157 | in a bucket with distinct keys, the scan returns v for k exactly when the pair (k, v) is stored |
| BucketTables.FindInOverwrite | ExpandableHashMap.h:100-110 | after the overwrite loop, k maps to the new value if it was present and stays absent otherwise; every other key is unchanged |
| BucketTables.PushLookup | ExpandableHashMap.h:94-99 | a push_back makes a new key visible with its value and leaves every other key as it was |
| BucketTables.PushAllLookup | ExpandableHashMap.h:128-137 | after rehashing pairs in order, each key keeps its value or gets its first value among the pairs |
| BucketTables.RehashPreserves | ExpandableHashMap.h:117-138 | rehashing into n buckets keeps placement, distinct keys, the count and every lookup |
| BucketTables.RepresentsLookup | ExpandableHashMap.h:140-158 | in a well-formed table, looking a key up in its bucket gives exactly the abstract map's entry, or none |
| BucketTables.KeysUnique | ExpandableHashMap.h:88-115 | in a well-formed table no key is stored twice, in any buckets |
| BucketTables.InsertRepresents | ExpandableHashMap.h:94-99 | appending a new key's pair to its bucket gives a table for the map extended by that key |
| BucketTables.OverwriteRepresents | ExpandableHashMap.h:100-110 | overwriting a present key in its bucket gives a table for the updated map |
| BucketTables.RehashRepresents | ExpandableHashMap.h:117-138 | a rehashed table stands for the same map: no association lost, none duplicated |
| ExpandableHashMaps.ExpandableHashMap.constructor | ExpandableHashMap.h:49-55 | a new map has 8 empty buckets, no associations and the given maximum load factor |
| ExpandableHashMaps.ExpandableHashMap.Reset | ExpandableHashMap.h:67-78 | reset empties the map and returns it to 8 empty buckets |
| ExpandableHashMaps.ExpandableHashMap.Size | ExpandableHashMap.h:80-86 | size is the number of keys of the map and of pairs in the table |
| ExpandableHashMaps.ExpandableHashMap.GetBucket | ExpandableHashMap.h:160-166 | every pair with the key sits in the bucket getBucket returns |
| ExpandableHashMaps.ExpandableHashMap.Find | ExpandableHashMap.h:140-158 | find returns the value associated with the key, and nothing exactly when the key is absent |
| ExpandableHashMaps.ExpandableHashMap.Associate | ExpandableHashMap.h:88-115 | afterwards the key maps to the value and every other association is kept; the count grows only for a new key; the buckets double exactly when the load factor went above the maximum; the invariant, including the load bound, is kept |
| ExpandableHashMaps.ExpandableHashMap.Store | ExpandableHashMap.h:89-110 | the insert-or-overwrite half: the map is updated at the key and the count grows only for a new key |
| ExpandableHashMaps.ExpandableHashMap.OverwriteBucket | ExpandableHashMap.h:102-109 | the loop gives every pair with the key the new value and leaves the other pairs alone |
| ExpandableHashMaps.ExpandableHashMap.Expand | ExpandableHashMap.h:117-138 | expand doubles the buckets, keeps the map and the count, and leaves the table rehashed |
| ExpandableHashMaps.ExpandableHashMap.Rebuild | ExpandableHashMap.h:120-137 | the nested loop pushes every old pair, bucket by bucket, into n fresh buckets |
| ExpandableHashMaps.InsertKeepsInv | ExpandableHashMap.h:94-99 | inserting a new key keeps the table invariant, with one more association |
| ExpandableHashMaps.OverwriteKeepsInv | ExpandableHashMap.h:100-110 | overwriting a present key keeps the table invariant and the count |
| ExpandableHashMaps.ExpandKeepsInv | ExpandableHashMap.h:117-138 | rehashing into twice the buckets keeps the invariant, the map and the count |
| ExpandableHashMaps.LoadAfterExpand | ExpandableHashMap.h:111-114 | when one insert pushes the load above a maximum of at least 1/8, one doubling brings it back within the maximum |
| StreetMaps.AddSegmentEffect | StreetMap.cpp:35-55 | addToMap stores a one-segment list under an unknown coordinate, appends under a known one, and changes no other entry |
| StreetMaps.AddSegmentExtends | StreetMap.cpp:35-55 | addToMap only extends lists: every old list is a prefix of its new one |
| StreetMaps.AddRecordEffect | StreetMap.cpp:75-83 | a record stores its forward segment under its start and its backward segment under its end, and adds nothing else |
| StreetMaps.AddRecordStartsAtKey | StreetMap.cpp:75-83 | after a record, every segment stored under a coordinate still starts there |
| StreetMaps.AddRecordBidirectional | StreetMap.cpp:75-83 | after a record, every stored segment's reverse is still stored under its end |
| StreetMaps.LoadAllExtends | StreetMap.cpp:64-86 | loading only appends to lists |
| StreetMaps.LoadAllStartsAtKey | StreetMap.cpp:64-86 | after loading, every stored segment starts at its key |
| StreetMaps.LoadAllBidirectional | StreetMap.cpp:64-86 | after loading, every street can be walked both ways |
| StreetMaps.LoadAllStoresRecords | StreetMap.cpp:64-86 | every record's two directed segments are stored after loading |
| StreetMaps.LoadAllOnlyRecords | StreetMap.cpp:64-86 | nothing is stored after loading but what was there and the records' segments |
| StreetMaps.StreetMap.constructor | StreetMap.cpp:27-29 | a new street map is valid and empty |
| StreetMaps.StreetMap.AddToMap | StreetMap.cpp:35-55 | the hash map's contents become addToMap's effect on the index |
| StreetMaps.StreetMap.AddStreetRecord | StreetMap.cpp:73-83 | one pass of the record loop stores both directed segments of the record |
| StreetMaps.StreetMap.Load | StreetMap.cpp:57-88 | load fails, changing nothing, when the file did not open; otherwise it stores every record in order and succeeds |
| StreetMaps.StreetMap.GetSegmentsThatStartWith | StreetMap.cpp:90-105 | false and the output untouched for an unknown coordinate; otherwise true and exactly the stored list, each segment starting at the coordinate with its reverse stored at its end |
| Router.MinExists | PointToPointRouter.cpp:66-70 | a non-empty queue has an entry of least key for top() to return |
| Router.RouteIsChain | PointToPointRouter.cpp:72-89 | a route starts at the start, ends at the goal, uses stored segments and is connected end to start |
| Router.NoEscape | PointToPointRouter.cpp:66-112 | no route leaves a set of coordinates closed under successors |
| Router.SearchStarts | PointToPointRouter.cpp:64 | the search state holds with only the start queued at key 0 |
| Router.ExhaustedMeansNoRoute | PointToPointRouter.cpp:66-112 | once the queue is empty no route from start to goal exists, so NO_ROUTE is correct |
| Router.ExpandNeighbours | PointToPointRouter.cpp:95-109 | the neighbour loop closes and queues exactly the neighbour ends not yet closed. m_path becomes its old contents plus the popped coordinate as predecessor of each of them. m_pathNames becomes its old contents plus, for each, the edge from the popped coordinate named after the first neighbour ending there. Nothing else changes |
| Router.NeighbourStep | PointToPointRouter.cpp:97-108 | one pass of the neighbour loop: a closed end changes nothing; an open end is closed, queued and recorded as above |
| Router.FirstNameIsFirst | PointToPointRouter.cpp:97-102 | the recorded edge name is that of the segment at the first index ending at the coordinate |
| Router.RecordedNewEntry | PointToPointRouter.cpp:101-103 | after the loop, each coordinate it closed has the popped coordinate as predecessor, and its edge name is that of the first of the neighbours seen so far that ends there |
| Router.RecordedKeptEntries | PointToPointRouter.cpp:97-103 | after the loop, predecessors of coordinates it did not close are unchanged. So are the names of edges into such coordinates |
| Router.FirstNameAt | PointToPointRouter.cpp:97-102 | when neighbour k is the first to end at a coordinate, the recorded name is neighbour k's |
| Router.RecordedGrows | PointToPointRouter.cpp:101-103 | recording a neighbour whose end no earlier neighbour reached extends the recorded maps by exactly its two entries |
| Router.ExpandingSkip | PointToPointRouter.cpp:97-100 | a neighbour whose end is already closed changes nothing |
| Router.ExpandingGrows | PointToPointRouter.cpp:101-108 | recording, closing and queueing an unclosed neighbour keeps the search tree and the loop state |
| Router.PushedEntries | PointToPointRouter.cpp:107-108 | each pushed entry is a newly closed coordinate keyed by its distance to the goal, and each such coordinate is pushed |
| Router.RecordEdge | PointToPointRouter.cpp:101-102 | the two associations record the segment's start as the end's predecessor and the segment's name for the edge |
| Router.TreeGrows | PointToPointRouter.cpp:101-103 | closing a new coordinate, reached by a stored segment from the start or a closed coordinate, keeps the predecessor tree well founded and its edges stored |
| Router.Retrace | PointToPointRouter.cpp:75-87 | retracing from the goal yields a route of stored segments from start to goal, with its length as the total, and is empty when start is the goal |
| Router.RetraceStarts | PointToPointRouter.cpp:75-76 | the retrace state holds at the goal with an empty route and total 0 |
| Router.RecordedEdge | PointToPointRouter.cpp:80-83 | the two lookups give the predecessor and the recorded name of the edge into the retracer |
| Router.RetraceHasEdge | PointToPointRouter.cpp:80-82 | every coordinate met while retracing, other than the start, has a recorded predecessor and edge name |
| Router.RetraceStep | PointToPointRouter.cpp:80-86 | prefixing the recorded edge keeps the retrace state and moves strictly closer to the start |
| Router.GeneratePointToPointRoute | PointToPointRouter.cpp:41-113 | BAD_COORD exactly when the start or the goal has no segments; a successful route is a route of stored segments with its length as the total; NO_ROUTE only when no route exists; on failure the route is empty and the total untouched; start equal to goal gives the empty route with total 0 |
| Router.BestFirst | PointToPointRouter.cpp:64-112 | the search loop finds a route with its length, or reports that none exists |
| Router.Search | PointToPointRouter.cpp:66-110 | one iteration either rebuilds a route from the popped goal or keeps the search state while strictly decreasing the open coordinates or the queue |
| Router.Expand | PointToPointRouter.cpp:91-109 | an expansion keeps the tree and the frontier, and shrinks the set of open coordinates or leaves everything but the popped entry as it was |
| Router.Expanded | PointToPointRouter.cpp:91-109 | after the neighbour loop the tree and the frontier hold again, with the popped coordinate expanded |
| Router.Discover | PointToPointRouter.cpp:91-109 | the neighbour loop leaves the street map unchanged and the loop state complete |
| Router.ExpandKeepsFrontier | PointToPointRouter.cpp:91-109 | after one pop and one expansion every closed coordinate not yet expanded is queued and only closed coordinates are queued |
| Optimizer.WalkLengthNonNegative | DeliveryOptimizer.cpp:56-62 | with no negative leg, a crow tour has no negative length |
| Optimizer.TourCostEmpty | DeliveryOptimizer.cpp:56-62 | with no stops the tour cost is the depot-to-depot distance |
| Optimizer.CrowDistance | DeliveryOptimizer.cpp:56-62 | the distance loop adds exactly the crow tour cost (depot, each stop in order, depot) to its starting value |
| Optimizer.CalculateProbability | DeliveryOptimizer.cpp:30-37 | a strictly shorter candidate scores 1; an equal one scores exp(0); for an exp that decays on non-positive arguments the score lies in (0, 1] |
| Optimizer.AcceptIffEvenDraw | DeliveryOptimizer.cpp:92-98 | the test `score > rand() % 2` accepts exactly when the draw is even, whatever the candidate's cost |
| Optimizer.Temperature | DeliveryOptimizer.cpp:49-108 | the temperature stays positive through every cooling step |
| Optimizer.Swapped | DeliveryOptimizer.cpp:70-77 | the swap exchanges the two positions, leaves the others alone and keeps the multiset of deliveries |
| Optimizer.AnnealingStep | DeliveryOptimizer.cpp:94-105 | accepting or refusing a candidate and then keeping the better of it and the best keeps both orders permutations of the original and the best distance a true cost at or below the start |
| Optimizer.OptimizeDeliveryOrder | DeliveryOptimizer.cpp:39-113 | the result is a permutation of the input; oldCrow is the incoming value plus the tour cost; newCrow is at most oldCrow, and is either oldCrow for the unchanged order or the true cost of a strictly better order; orders of length at most 1 are unchanged |
| Planner.GetProceedAngle | DeliveryPlanner.cpp:23-45 | the result is one of the eight compass words; a negative bearing gives northeast and one from 337.5 gives east |
| Planner.ProceedAngleBySector | DeliveryPlanner.cpp:23-45 | on bearings in [0, 360) the word is that of the 45-degree band centred nearest the bearing |
| Planner.TurnCommand | DeliveryPlanner.cpp:150-176 | a turn is made exactly when the angle lies in [1, 359] and the street changes; left below 180 degrees, right otherwise, onto the next street |
| Planner.AddProceed | DeliveryPlanner.cpp:107-130 | the pop, extend and push gives the proceed step: the last command extended or a new proceed command appended |
| Planner.AssembleCommands | DeliveryPlanner.cpp:100-188 | the nested assembly loop, with its break and continues, computes exactly AssemblePlan |
| Planner.ProceedStepFacts | DeliveryPlanner.cpp:107-130 | each segment's proceed step adds its length to the proceed miles, adds no deliver command and leaves a proceed command last |
| Planner.RunLegFacts | DeliveryPlanner.cpp:105-178 | the segment loop stops early exactly when a segment ends at the depot, covers the length of the segments up to it, and delivers nothing |
| Planner.RunLegKeeps | DeliveryPlanner.cpp:105-178 | the segment loop never touches the commands it started from |
| Planner.RunPlanKeeps | DeliveryPlanner.cpp:101-187 | the leg loop keeps the caller's commands as a prefix |
| Planner.RunPlanOutcome | DeliveryPlanner.cpp:101-188 | the leg loop returns DELIVERY_SUCCESS exactly when some later leg reaches the depot, NO_ROUTE otherwise |
| Planner.RunPlanFacts | DeliveryPlanner.cpp:101-188 | the leg loop delivers the items of the legs it completes and its proceed commands cover the segments it looks at |
| Planner.AssemblePlanFacts | DeliveryPlanner.cpp:100-188 | assembly only appends to the commands; it succeeds exactly when some routed segment ends at the depot; it delivers, in order, the items of the legs completed before that; its proceed miles are the length of the segments it looked at |
| Planner.CompletePlan | DeliveryPlanner.cpp:100-188 | when only the return leg reaches the depot, and only at its last segment, assembly succeeds, delivers each delivery's item in plan order, and its proceed miles equal the routed length of all legs |
| Planner.NoDeliveries | DeliveryPlanner.cpp:94-188 | with no deliveries, the only leg is empty, and assembly gives NO_ROUTE after one deliver command with an empty item |
| Planner.RoutedLegsEach | DeliveryPlanner.cpp:80-92 | each routed leg k goes from the depot or stop k-1 to stop k along stored segments |
| Planner.RouteDeliveries | DeliveryPlanner.cpp:80-92 | each leg is routed from the previous stop; the loop stops at the first leg whose routing fails, with that result, and the total is the routed length of the legs before it |
| Planner.ReturnAndAssemble | DeliveryPlanner.cpp:94-188 | the return leg has an empty item and is a route back to the depot, or empty with the stale distance added; the commands are the assembly of all legs appended to the caller's |
| Planner.ReturnedTotal | DeliveryPlanner.cpp:78-98 | the delivery legs' total plus the return leg's distance is the routed length of all legs, plus the stale distance when the return leg failed |
| Planner.GenerateDeliveryPlan | DeliveryPlanner.cpp:56-189 | the order is a permutation of the deliveries; either a delivery leg failed and the commands are untouched with that result, or all legs were routed and the commands and result are the assembly of the plan; with no deliveries the result is NO_ROUTE after one deliver command |

## Left out

- File reading in `load` is left out: `Load` receives whether the file opened and the parsed records. Line splitting, `>>` extraction and a malformed count are not modelled.
- Floating point is left out; doubles are exact reals.
  - There is no NaN. `GetProceedAngle`'s empty-string branch is therefore unreachable in the model.
  - `distanceEarthMiles`, `angleOfLine` and `angleBetween2Lines` are uninterpreted parameters.
  - `exp` is a parameter.
- Optimizer.AcceptIffEvenDraw: holds in exact arithmetic. In doubles, `exp` of a large negative argument underflows to 0. Once the temperature is small next to a cost increase, a worse candidate is then refused whatever the coin.
- Optimizer.OptimizeDeliveryOrder: the temperature is an exact real and stays positive. In doubles, 10000 * 0.8^i underflows to 0 after about 3,300 iterations. The loop bound `pow(n, 3)` converted to `int` overflows for n >= 1291; the model uses n * n * n.
- Optimizer.CalculateProbability: requires a positive temperature. The source divides by it unchecked; in exact arithmetic every temperature it passes is positive (see the underflow above).
- `time(NULL)`, `srand` and `rand()` are modelled by the oracle `rand`; `rand(3i)`, `rand(3i+1)` and `rand(3i+2)` are the three calls of iteration i.
- `std::hash<string>` is the parameter `strHash`, and its 32-bit `unsigned int` result is a `nat`. The bucket index is taken modulo the bucket count, so the width does not matter beyond collisions.
- ExpandableHashMaps.ExpandableHashMap.Associate: the load bound holds only for a maximum load factor of at least 1/8. Below that, one doubling from 8 buckets need not restore it, and the source doubles only once.
- ExpandableHashMaps.ExpandableHashMap.constructor: the source never initialises `m_nAssociations` (a double). The model starts it at 0.
- `m_nAssociations / m_nBuckets` is computed in doubles; the model divides exactly.
- The mutable `find` overload (ExpandableHashMap.h:27-30) only casts the const `find`, so it is not modelled separately. The destructor and the deleted copy operations are not modelled.
- Router.Search: the queue is a multiset, and any entry of least key is popped. `std::priority_queue` over pairs breaks ties by the coordinate's `operator<`, which is in provided.h. provided.h is not part of this model, so the exact tie-break (and with it which of several routes is found) is not modelled.
- Router.GeneratePointToPointRoute: the total is an in/out parameter. As in the source, it is written only on success.
- The pimpl wrappers (`StreetMap`, `PointToPointRouter`, `DeliveryOptimizer`, `DeliveryPlanner`), which only delegate, and their constructors are not modelled separately.
- provided.h is not part of this model. The `DeliveryCommand` class is the datatype `DeliveryCommand`, and the street name of a deliver command is taken as "". `Planner.AssemblePlanFacts` and its helpers show that this name is never consulted, because after a deliver command the flag `justTurnedOrDelivered` is set.
- The planner's uninitialised `d` is the parameter `dInit`.
