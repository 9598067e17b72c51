# tortoise-extended: a verified model

This project models, in Dafny, the algorithmic core of tortoise-extended, a library of
PostgreSQL and Redis extensions for the Tortoise ORM, and proves what that core promises:

- **Graph queries written as recursive SQL** (`Cte`, `TwoKeys`, `Graphs`, `PathQuery`,
  `Pathfinding`, `Cycles`, `Traversal`, `VectorSearch`, `EdgeTypes`). `WITH RECURSIVE ... UNION` is the working-table
  loop of section 7.8.2 (Recursive Queries) of the PostgreSQL manual: a result, a working
  table, one round per pass, rows already in the result dropped. Every step condition is
  written out as the SQL has it, and each query is then measured against walks, simple
  walks, distances and simple cycles of a directed multigraph.
- **Materialised-path hierarchies** (`LTree`, `Hierarchy`, `HierarchyQueries`). Paths are
  text; the theorems read them as label sequences and compare the path queries with walks
  along `parent_id`.
- **Adjacency-list nodes** (`NodeCounters`, `NodeWalks`): the denormalised `child_count`,
  the breadth-first `subtree` and the loop of `path_to_root`.
- **Single flight** (`SingleFlight`, `CallHistory`): the claim map as a class, and the protocol of the
  `cached` and `cached_method` wrappers as a transition system whose tasks interleave at
  every `await`.
- **Cache keys and coherence** (`Texts`, `CacheKeys`, `Json`, `QSignature`, `CallSignature`,
  `TupleArguments`, `Cacheable`) and the **soft-delete queryset** (`SoftDelete`).

Objects that the library updates in place are classes here, and their loops are loops;
each such method is tied to a function of the old state, and the theorems are about that
function. Queries and printers are functions. Ids are integers: any totally ordered key
type behaves the same. `dafny verify dfyconfig.toml` checks everything.

## Where the code and its documentation, or two of its functions, disagree

The model follows the code. Each point below is proved, with the exact condition under
which the two sides agree.

- `get_descendants` is documented as shallowest first; it orders by `path`. The order is
  shallowest first iff no node below this one that has a child is ordered before one of its
  siblings (`HierarchyQueries.DescendantsShallowestFirstIff`); a table of four rows where it is
  not is `HierarchyQueries.DescendantsNotShallowestFirst`.
- The limit of `subtree` reads the `depth` column, which defaults to 0 and which nothing in the
  class maintains. A limit of at least 1 is honoured iff that column decides for each node met
  as its link distance would; a limit of 0, which still returns direct children, iff there are
  none (`NodeWalks.LimitHonouredIff`, on every table). In a chain of three nodes with the
  default depth, `subtree(max_depth=1)` on the first returns the third
  (`NodeWalks.DefaultDepthsBreakLimit`).
- `path_to_root` is documented as running from the root to the node. It sorts by `depth`, so it
  does iff depths strictly descend along the parents (`NodeWalks.RootFirstIffDepthsDescend`); a
  root and its child, both with the default depth, come back child first
  (`NodeWalks.DefaultDepthsListChildFirst`).
- `GraphTraversal.ancestors` is documented as root first and lists the nearest first. The
  farthest comes first iff all ancestors are equally far (`Traversal.AncestorsRootFirstIff`,
  `Traversal.RootComesLast`).
- Neither the schema nor `move_to` keeps paths unique, and a move to a taken name makes two
  rows share one (`Hierarchy.MoveKeepsUniqueIffNameFree`). The path queries of a consistent table
  agree with the parent links iff paths are unique (`HierarchyQueries.QueriesFollowLinksIffUnique`).
  Moving one of two such rows takes the other's path along but not its parent: an accepted
  move keeps the table consistent iff it changes no path or no other row has the path that is
  moved (`Hierarchy.MoveKeepsConsistentIff`). A run of two accepted moves that breaks a
  consistent table with unique paths is `Hierarchy.TwoMovesBreakConsistency`.
- `has_cycle` reads no node rows. From depth 1 on it agrees with `find_cycles` iff closed
  walks through ids without a node row, if there are any within the bound, are accompanied by
  one over stored nodes (`Traversal.HasCycleAgreesIff`, `Traversal.MissingEndpointDisagrees`).
  Below depth 1 it sees self-loops, `find_cycles` nothing (`Traversal.BelowDepthOne`).
- `GraphVectorSearch` walks through ids without a node row, `neighbors` does not
  (`VectorSearch.AgreementIffNoShortcut`, `VectorSearch.MissingNodeDisagrees`).
- Cancelling one task that waits on a shared future cancels that future, so other waiters
  see the cancellation instead of the owner's result (`SingleFlight.CancellationSpreads`). A
  waiter that is not cancelled ends as its owner iff the future was settled, or the owner was
  cancelled too (`SingleFlight.WaiterOutcomeInGeneral`).
- A decorated function that awaits a call with its own key, directly or through other calls,
  waits for itself. In each reachable state some run finishes every task iff no tasks wait for
  each other in a circle (`SingleFlight.CanAllFinishIffNoCycle`); the deadlock of one function
  calling with its own key is `SingleFlight.SelfWaitDeadlocks`.
- `limit(0)` shares its cache key with no limit (`QSignature.ZeroLimitSharesKey`); apart from
  zero limits and offsets only the same queries share one (`QSignature.KeyDataIffSameQuery`).
- The signature of call arguments is documented as independent of the order of a set. It is
  iff no two members of the set print alike: a set of the number 1 and the text "1" has two
  signatures (`CallSignature.OrderHiddenIff`, `CallSignature.MixedSetHasTwoSignatures`). A set
  also shares its signature with a list, iff that lists its members in the order of their
  texts (`CallSignature.SetSharesKeyWithList`); where members of a set print differently
  nothing else is confused (`CallSignature.SignatureIffAgree`).
- Nested containers are documented as canonicalized, but normalizing stops at a tuple. A set
  inside one is printed by `str`: two orders of it share a signature iff `str` shows them
  alike (`TupleArguments.SetInTupleIff`).
- `only_deleted().hard_delete()` also purges live rows (`SoftDelete.HardDeleteDropsMode`).
- `restore()` undoes `delete()` on the same queryset iff each row under the conditions is live
  and still meets them with the marker set (`SoftDelete.RestoreUndoesDeleteIff`). So it revives
  rows that had been deleted before (`SoftDelete.RestoreUndoesPlainDeleteIff`), and nothing of what
  `filter(deleted_at__isnull=True)` deleted (`SoftDelete.FilterOnMarkerIsNotRestored`).
- A full save of a stale instance writes its stale `child_count`, a repeated delete
  decrements twice, and `save(update_fields=[])` inserts or reparents a node without moving
  any counter, because the ORM reads an empty list like a missing one and the counter code
  does not (`NodeCounters.OperationKeepsCountedIffCareful`,
  `NodeCounters.DoubleDeleteUndercounts`, `NodeCounters.EmptyFieldsUndercount`).
- `get_cached` by primary key caches under the text the caller passed, writes invalidate the
  text that the key prints. Reads by a text are current after every run iff the text is the
  one that its key prints (`Cacheable.AlwaysCurrentIffCanonical`); the failing run is
  `Cacheable.OtherSpellingGoesStale`.
- With `_cache_ttl <= 0`, `get_cached` raises `DoesNotExist` for a missing row instead of
  returning `None` (`Cacheable.CachingOffReadsTable`).

## Model

| member | source | states |
|---|---|---|
| Cte.WithRecursiveIsAllLevels | src/tortoise_extended/expressions/pathfinding.py:94-124 | `UNION`'s dropping of known rows loses nothing: the working-table loop returns exactly the rows derivable in some number of rounds |
| Cte.OrderByLimit | src/tortoise_extended/expressions/pathfinding.py:250-257 | `ORDER BY ... LIMIT`: distinct rows in ascending order, as many as the limit allows, and no row left out sorts before one returned |
| TwoKeys.OrderByTwo | src/tortoise_extended/expressions/graph_traversal.py:207 | The same for an order by two keys, the second deciding among equal first ones |
| Cte.UnlimitedReturnsAll | src/tortoise_extended/expressions/pathfinding.py:305-307 | Without a limit every row is returned |
| PathQuery.PathRowsAreSimpleWalks | src/tortoise_extended/expressions/pathfinding.py:95-123 | The shared recursion holds one row for each revisit-free walk from the anchor within the hop bound, and no other row |
| PathQuery.GuardBoundsDepth | src/tortoise_extended/expressions/pathfinding.py:120-121 | The revisit guard alone ends the recursion: beyond the number of nodes a larger hop bound adds no row |
| PathQuery.MinHopsIsDistance | src/tortoise_extended/expressions/graph_traversal.py:203-207 | `MIN(hops)` per node over the revisit-free walks is the true shortest distance, for each row in both directions of the equivalence |
| Graphs.Shorten | src/tortoise_extended/expressions/pathfinding.py:121 | Every walk can be shortened to a simple walk between the same ends, so rejecting revisits loses no destination |
| Graphs.DistanceExists | src/tortoise_extended/expressions/pathfinding.py:187-194 | A reachable node has a distance, attained by a simple walk |
| Graphs.DistanceFlip | src/tortoise_extended/expressions/graph_traversal.py:137-144 | Distances against the edges, bidirectional ones included, are distances along them read from the other end |
| Pathfinding.PathsTableRows | src/tortoise_extended/expressions/pathfinding.py:94-124 | The rows `shortest_path` and `all_paths` select are exactly the simple paths between the two nodes within the hop bound |
| Pathfinding.ShortestPath | src/tortoise_extended/expressions/pathfinding.py:143-201 | A path is returned iff some walk within the hop bound exists; it revisits no node, carries the stored names, and its length is the distance |
| Pathfinding.AllPaths | src/tortoise_extended/expressions/pathfinding.py:204-263 | Exactly the simple paths within the bound, without duplicates, shortest first; a path is missing only if the limit is used up by paths no longer than it |
| Cycles.ClosedWalkHasCycle | src/tortoise_extended/expressions/pathfinding.py:275-280 | Every closed walk contains a vertex-simple cycle that is no longer |
| Cycles.LeastRotationUnique | src/tortoise_extended/expressions/pathfinding.py:347-350 | Two cycles written from their least id are rotations of each other only if they are equal |
| Cycles.ClosedRowsAreCycles | src/tortoise_extended/expressions/pathfinding.py:312-355 | The rows selected from the walk table are exactly the simple cycles of at most `max_depth` edges, written from their least id and closed |
| Cycles.RowOfCycle | src/tortoise_extended/expressions/pathfinding.py:347-355 | Any simple cycle within the bound, wherever it is started, has a row that reports one of its rotations |
| Cycles.FindCycles | src/tortoise_extended/expressions/pathfinding.py:266-368 | Sound, no two results rotations of each other, shortest first, and complete: a simple cycle is missing only if the limit is used up by cycles no longer than it |
| Cycles.ReportedExactlyOnce | src/tortoise_extended/expressions/pathfinding.py:278-280 | With `max_cycles=None` each simple cycle within the bound is reported by exactly one result |
| Traversal.DescendantsAreHits | src/tortoise_extended/expressions/graph_traversal.py:179-208 | The grouped rows are exactly the nodes at distance 1..max_depth along the edges, with that distance, although the node join is looser than the edge relation |
| Traversal.AncestorsAreHits | src/tortoise_extended/expressions/graph_traversal.py:125-154 | The same against the edges |
| Traversal.NeighborsAreHits | src/tortoise_extended/expressions/graph_traversal.py:240-290 | The same for each of the three directions |
| Traversal.Descendants | src/tortoise_extended/expressions/graph_traversal.py:161-213 | The returned list holds every such node once, nearest first and by name among equally near ones, for any collation |
| Traversal.Ancestors | src/tortoise_extended/expressions/graph_traversal.py:107-159 | The returned list holds every node that reaches the start within the bound once, nearest first and then by name |
| Traversal.AncestorsRootFirstIff | src/tortoise_extended/expressions/graph_traversal.py:120-153 | Such a list has the farthest ancestors first, as documented, iff all ancestors within the bound are equally far |
| Traversal.RootComesLast | src/tortoise_extended/expressions/graph_traversal.py:120-153 | On a chain of three nodes the list of ancestors is not root first |
| Traversal.Neighbors | src/tortoise_extended/expressions/graph_traversal.py:215-295 | An error for every text that is no direction; otherwise every node within the bound in that direction once, nearest first and then by name |
| Traversal.DescendantsDualToAncestors | src/tortoise_extended/expressions/graph_traversal.py:125-154 | y is a descendant of x at depth d iff x is an ancestor of y at depth d |
| Traversal.NeighborsAgree | src/tortoise_extended/expressions/graph_traversal.py:240-257 | Outgoing neighbors are the descendants and incoming neighbors the ancestors, depth for depth |
| Traversal.HasCycleIffClosedWalk | src/tortoise_extended/expressions/graph_traversal.py:315-340 | The search that starts only along edge direction and keeps no path is true iff a closed walk of at most max(1, max_depth) edges exists |
| Traversal.FindCyclesIffClosedWalk | src/tortoise_extended/expressions/pathfinding.py:312-358 | `find_cycles` has something to report iff a closed walk over stored nodes exists within the bound |
| Traversal.HasCycleAgreesWithFindCycles | src/tortoise_extended/expressions/graph_traversal.py:297-345 | With every endpoint stored and max_depth at least 1, `has_cycle` is true iff `find_cycles` is not empty |
| Traversal.HasCycleAgreesIff | src/tortoise_extended/expressions/graph_traversal.py:297-345 | For any tables and max_depth at least 1, `has_cycle` agrees with `find_cycles` iff a closed walk through a missing node, if there is one within the bound, is accompanied by one over stored nodes |
| Traversal.StoredOrThroughMissing | src/tortoise_extended/expressions/graph_traversal.py:317-335 | What `has_cycle` may find is a closed walk over stored nodes or one through an id with no node row |
| Traversal.HasCycleIsFindCyclesOnceStored | src/tortoise_extended/expressions/graph_traversal.py:315-340 | For any tables and max_depth at least 1, `has_cycle` is what `find_cycles` would say once every endpoint had a node row |
| Traversal.BelowDepthOne | src/tortoise_extended/expressions/graph_traversal.py:317-321 | Below depth 1 `find_cycles` is empty while `has_cycle` is true iff a self-loop exists |
| Traversal.MissingEndpointDisagrees | src/tortoise_extended/expressions/graph_traversal.py:317-335 | A concrete graph where a missing node row makes the two functions disagree |
| VectorSearch.MaskedTable | src/tortoise_extended/expressions/graph_vector_search.py:206-216 | Without an `is_bidirectional` column the recursion is that of a graph whose edges are all one-way |
| VectorSearch.SearchFindsDistances | src/tortoise_extended/expressions/graph_vector_search.py:281-311 | Before the limit, a node is a hit with h hops iff it is stored, passes the vector predicate and lies at distance h within the bound in the graph of all ids that edges mention; the seed is at 0 |
| VectorSearch.BestHits | src/tortoise_extended/expressions/graph_vector_search.py:298-310 | The returned hits are ordered by distance and then by primary key, as many as `max_results` allows, and every hit left out is strictly behind every one returned |
| VectorSearch.RankingUnique | src/tortoise_extended/expressions/graph_vector_search.py:309-310 | Order and limit leave exactly one possible list |
| VectorSearch.AgreementIffNoShortcut | src/tortoise_extended/expressions/graph_vector_search.py:290-303 | The hop counts agree with `neighbors` plus the seed, for every seed and bound, iff no walk through missing nodes is shorter than all walks over stored ones |
| VectorSearch.ClosedGraphAgrees | src/tortoise_extended/expressions/graph_vector_search.py:290-303 | They agree whenever every edge endpoint has a node row |
| VectorSearch.MissingNodeDisagrees | src/tortoise_extended/expressions/graph_vector_search.py:290-297 | A concrete graph where the search crosses a missing node and `neighbors` does not |
| EdgeTypes.FilteredGraph | src/tortoise_extended/expressions/_edge_filter.py:23 | Walks, distances and cycles under an edge-type filter are those of the graph that has only the edges of that type |
| EdgeTypes.FilteredPaths | src/tortoise_extended/expressions/pathfinding.py:122 | `shortest_path` and `all_paths` with a filter choose from the rows of the unfiltered query on that graph |
| EdgeTypes.FilteredCycles | src/tortoise_extended/expressions/pathfinding.py:343 | `find_cycles` with a filter reports the cycles of that graph |
| EdgeTypes.FilteredTraversals | src/tortoise_extended/expressions/graph_traversal.py:145-199 | `descendants` and `ancestors` with a filter find the hits of that graph |
| EdgeTypes.FilteredNeighbors | src/tortoise_extended/expressions/graph_traversal.py:282 | So does `neighbors`, in each direction |
| EdgeTypes.FilteredHasCycle | src/tortoise_extended/expressions/graph_traversal.py:317-336 | `has_cycle` with a filter answers as on that graph, although ids that only other edges mention are gone from it |
| EdgeTypes.FilteredSearch | src/tortoise_extended/expressions/graph_vector_search.py:290-303 | The graph vector search with a filter finds the nodes and hop counts of that graph |
| SingleFlight.FutureCell.SettleOnce | src/tortoise_extended/cache/decorators.py:183-190 | Settling a done future leaves it as it is |
| SingleFlight.Flights.Claim | src/tortoise_extended/cache/base.py:306-320 | The first caller for a key owns a new pending future, later callers get that same future |
| SingleFlight.Flights.Release | src/tortoise_extended/cache/base.py:322-325 | Only the claim that still belongs to this future is removed; no other key changes |
| SingleFlight.Flights.Finish | src/tortoise_extended/cache/decorators.py:183-193 | The owner's exit settles its future at most once and removes only its own claim |
| SingleFlight.NextKeepsInv | src/tortoise_extended/cache/decorators.py:158-193 | Every step of every task, nested calls of wrapped functions included, keeps the protocol invariant over claims, futures, tasks and cancellations |
| SingleFlight.OneOwnerPerKey | src/tortoise_extended/cache/decorators.py:166-175 | In every reachable interleaving at most one task per key runs the function |
| SingleFlight.ClaimIsRunningOwner | src/tortoise_extended/cache/base.py:304-325 | In every reachable interleaving the map holds a future for a key iff a running owner of that key has exactly that future |
| SingleFlight.SettledAtMostOnce | src/tortoise_extended/cache/decorators.py:183-190 | Over every run a future that is done keeps its outcome |
| SingleFlight.NoWaiterLeftBehind | src/tortoise_extended/cache/decorators.py:186-193 | A waiting task can resume, or the owner of its future is still running |
| SingleFlight.OwnerExitWakesWaiters | src/tortoise_extended/cache/decorators.py:173-193 | Whether the owner leaves by return, error or cancellation, each task waiting on its future can resume, and if neither it nor the future was cancelled it then ends as the owner did |
| SingleFlight.WaiterGetsOwnersOutcome | src/tortoise_extended/cache/decorators.py:169-171 | If no waiter of a future was cancelled, each of them ends with its owner's outcome |
| SingleFlight.WaiterOutcomeInGeneral | src/tortoise_extended/cache/decorators.py:169-190 | With cancellation allowed an uncancelled waiter ends as its finished owner iff the future was settled or the owner was cancelled; otherwise it ends with a cancellation that another waiter caused, and a cancelled waiter ends cancelled |
| SingleFlight.CancellationSpreads | src/tortoise_extended/cache/decorators.py:169-171 | A reachable state in which a waiter that nobody cancelled ends cancelled although its owner returned a value |
| SingleFlight.InternalRunsEnd | src/tortoise_extended/cache/decorators.py:158-193 | Without new calls and cancellations no run of the wrapper is longer than the work its tasks have left |
| SingleFlight.StuckIffAllBlocked | src/tortoise_extended/cache/decorators.py:169-175 | In every reachable state no task can take a step iff every unfinished one awaits a task that has not ended: the owner of its future, or the call that its function made |
| SingleFlight.StuckIffFinishedOrCycle | src/tortoise_extended/cache/decorators.py:169-193 | In a reachable state where no task can take a step, all have finished iff none wait for each other in a circle |
| SingleFlight.CyclePersists | src/tortoise_extended/cache/decorators.py:169-175 | Tasks that wait in a circle keep waiting, whatever steps the others take without a new call or a cancellation |
| SingleFlight.CanAllFinishIffNoCycle | src/tortoise_extended/cache/decorators.py:169-193 | From a reachable state some run of the tasks present finishes every one of them iff none wait for each other in a circle |
| SingleFlight.DescendingKeysNeverCycle | src/tortoise_extended/cache/decorators.py:169-175 | If nested calls always go down in some order of the keys, no run ever makes tasks wait in a circle |
| SingleFlight.SelfWaitDeadlocks | src/tortoise_extended/cache/decorators.py:169-175 | A reachable state with a function that awaits a call with its own key, in which nothing can move and which no run finishes |
| CallHistory.EndsAsItsActionsSay | src/tortoise_extended/cache/decorators.py:158-191 | Over every run a call ends on its own iff its own actions end it, and then with the value it read, the error of the read, the function or the store, the `None` that the function returned, or the value that it returned and that was then stored |
| CallHistory.WaiterGetsFunctionsOutcome | src/tortoise_extended/cache/decorators.py:169-190 | A call that waited on a future that no cancelled call had waited for ends with what the actions of another call with the same key say: that function's value or error |
| CallHistory.CancelledWaiterEndsCancelled | src/tortoise_extended/cache/decorators.py:169-171 | A call that was cancelled while it waited never ends with anything but the cancellation |
| CallHistory.KeysAreAsCalled | src/tortoise_extended/cache/decorators.py:150-156 | An unfinished call reads, claims, waits and stores under the key that it was called with |
| CallHistory.OwnerCanEndAnyWay | src/tortoise_extended/cache/decorators.py:173-193 | An unblocked owner can end with every value, with `None` and with every error |
| CallHistory.ReaderCanEnd | src/tortoise_extended/cache/decorators.py:158-164 | A read can end the call with every value and every error, and then no claim is made |
| CallHistory.StorerCanEnd | src/tortoise_extended/cache/decorators.py:177-191 | A store can end the call with the value stored, or with every error |
| CallHistory.WaiterCanBeCancelled | src/tortoise_extended/cache/decorators.py:169-171 | A waiting call can be cancelled at any time and is then free to end cancelled |
| LTree.JoinSplit | src/tortoise_extended/fields/ltree.py:99-126 | Joining undoes splitting for every dotted text |
| LTree.SplitJoin | src/tortoise_extended/fields/ltree.py:99-126 | Splitting undoes joining for every non-empty list of dot-free labels |
| LTree.LabelRoundTrip | src/tortoise_extended/fields/ltree.py:105-132 | For every separator: a label list is stored iff its text fits `max_length`, and it reads back unchanged iff the separator is not empty and first begins, in each label followed by it, at the end of the label |
| LTree.JoinSplitBy | src/tortoise_extended/fields/ltree.py:99-126 | Joining undoes splitting for every text and every non-empty separator |
| LTree.SplitByUndoesJoinIff | src/tortoise_extended/fields/ltree.py:99-126 | Splitting undoes joining exactly for the separable lists, for every non-empty separator |
| LTree.SeparableByChar | src/tortoise_extended/fields/ltree.py:70-81 | For a separator of one character separable means that no label contains it |
| LTree.StartsWithIsLabelPrefix | src/tortoise_extended/models/hierarchy_model.py:469-471 | `startswith(path + ".")` is exactly strict label prefix |
| LTree.PrefixReplaceIsLabelReplace | src/tortoise_extended/models/hierarchy_model.py:50-75 | The character rewrite replaces the leading label sequence and nothing else, also where that sequence recurs deeper in the path |
| Hierarchy.HierarchyNode.MoveTo | src/tortoise_extended/models/hierarchy_model.py:430-508 | One transaction: either the stated refusal and no change at all, or the two updates on every row and a reloaded node |
| Hierarchy.RefusalInLabels | src/tortoise_extended/models/hierarchy_model.py:448-475 | For any table and instances, stale ones included: which of the refusals applies, in terms of paths as label lists and the limit of 1024 characters |
| Hierarchy.MovedInLabels | src/tortoise_extended/models/hierarchy_model.py:473-504 | For any table and instances, stale ones included: what an accepted move makes of each row, in terms of label lists |
| Hierarchy.RefusedExactly | src/tortoise_extended/models/hierarchy_model.py:448-475 | On a consistent table with unique paths a move is refused exactly for another namespace, the node itself, one of its descendants by parent links, or a path over the column length |
| Hierarchy.MoveKeepsConsistent | src/tortoise_extended/models/hierarchy_model.py:473-504 | From a consistent table with unique paths an accepted move leaves every row's path its parent's path plus its name, its depth its label count minus one, and its parent stored in its namespace |
| Hierarchy.MoveKeepsConsistentIff | src/tortoise_extended/models/hierarchy_model.py:473-504 | From any consistent table, shared paths included, an accepted move keeps consistency iff it leaves the path as it is or no other row of the namespace lies at the path that is moved |
| Hierarchy.ConsistentThroughoutIff | src/tortoise_extended/models/hierarchy_model.py:430-508 | A run of moves, refused ones included, keeps the table consistent after every move iff each accepted one meets that condition |
| Hierarchy.TwoMovesBreakConsistency | src/tortoise_extended/models/hierarchy_model.py:479-504 | A run of two accepted moves that leaves a consistent table with unique paths inconsistent |
| Hierarchy.MoveKeepsUniqueIffNameFree | src/tortoise_extended/models/hierarchy_model.py:473-504 | From a consistent table with unique paths, paths stay unique within a namespace iff no other child of the target has the moved node's name |
| Hierarchy.MoveFrame | src/tortoise_extended/models/hierarchy_model.py:479-504 | On a consistent table with unique paths only rows whose parent chain passes through the moved node change; names and namespaces stay, and only the moved node gets another parent |
| Hierarchy.PrefixIffOnRootPath | src/tortoise_extended/models/hierarchy_model.py:489-498 | On a consistent table with unique paths label prefix within a namespace is the same as lying on the parent chain |
| Hierarchy.RootPathLabels | src/tortoise_extended/models/hierarchy_model.py:512-521 | The parent chain of a row is finite, as long as its label list, and its k-th node carries the first k + 1 labels |
| Hierarchy.RunKeepsInvariant | src/tortoise_extended/models/hierarchy_model.py:430-508 | Any run of moves, refused ones included, to free names keeps consistency, unique paths and the set of rows |
| Hierarchy.MoveThereAndBack | src/tortoise_extended/models/hierarchy_model.py:473-504 | On a consistent table with unique paths moving a node to a free name and back under its old parent restores every row |
| HierarchyQueries.AncestorsFollowLinks | src/tortoise_extended/models/hierarchy_model.py:244-279 | On a consistent table with unique paths the ancestors by path are the nodes on the parent chain |
| HierarchyQueries.AncestorsRootFirst | src/tortoise_extended/models/hierarchy_model.py:249-274 | On a consistent table with unique paths any listing of the ancestors in path order is the parent chain from the root down |
| HierarchyQueries.DescendantsFollowLinks | src/tortoise_extended/models/hierarchy_model.py:281-316 | On a consistent table with unique paths the descendants by path are the nodes whose parent chain passes through this one |
| HierarchyQueries.QueriesFollowLinksIffUnique | src/tortoise_extended/models/hierarchy_model.py:244-316 | On a consistent table the ancestors by path of every node are its parent chain iff paths are unique, and so for descendants |
| HierarchyQueries.AncestorsByText | src/tortoise_extended/models/hierarchy_model.py:263-279 | For any table, instance and namespace argument: the rows of the given namespace, or else of the instance's own, whose path is the instance's or is followed by a dot in it |
| HierarchyQueries.DescendantsByText | src/tortoise_extended/models/hierarchy_model.py:300-316 | The same for rows whose path is the instance's or continues it after a dot |
| HierarchyQueries.AncestorsInNamespace | src/tortoise_extended/models/hierarchy_model.py:249-279 | Asked for a namespace in which a row has the instance's path, the ancestors are the parent chain of that row, whatever other namespaces hold and whether the instance is stored; without `include_self` only the instance is left out |
| HierarchyQueries.DescendantsInNamespace | src/tortoise_extended/models/hierarchy_model.py:286-316 | And the descendants are the rows of that namespace whose parent chain passes through that row |
| HierarchyQueries.ConsistentByNamespace | src/tortoise_extended/models/hierarchy_model.py:249-258 | A table is consistent iff each namespace by itself is, so each can be queried on its own |
| HierarchyQueries.DescendantsParentsFirst | src/tortoise_extended/models/hierarchy_model.py:286-311 | On a consistent table with unique paths any listing of the descendants in path order has every node before the nodes below it |
| HierarchyQueries.DescendantsShallowestFirstIff | src/tortoise_extended/models/hierarchy_model.py:286-311 | On a consistent table with unique paths any listing of the descendants in path order is shallowest first iff no node below this one that has a child is ordered before one of its siblings |
| HierarchyQueries.DescendantsNotShallowestFirst | src/tortoise_extended/models/hierarchy_model.py:286-288 | A consistent table of four rows whose only listing in path order is not shallowest first |
| HierarchyQueries.FourNodesListing | src/tortoise_extended/models/hierarchy_model.py:286-311 | That table does have a listing in path order |
| HierarchyQueries.GetRoot | src/tortoise_extended/models/hierarchy_model.py:369-392 | On any table: the node itself for a path of one label, else the one row of its namespace whose path is the text before the first dot, `None` iff there is none, an error iff there are several; for a stored node of a consistent table with unique paths it is the first node of its parent chain |
| HierarchyQueries.GetPathToRoot | src/tortoise_extended/models/hierarchy_model.py:394-426 | On any table: the ancestors by path and the node itself, each once, by depth; for a stored node of a consistent table with unique paths its parent chain, root first |
| HierarchyQueries.QueriesFollowLinksAfterMoves | src/tortoise_extended/models/hierarchy_model.py:244-316 | After any run of moves to free names the path-based answers are those of the parent links |
| HierarchyQueries.ValidateHierarchy | src/tortoise_extended/models/hierarchy_model.py:512-567 | Which findings are reported, each exactly when it applies and once; none iff the row has a path ending in its name, the fitting depth, and a parent in its namespace whose labels are a strict prefix |
| HierarchyQueries.ValidationVersusConsistency | src/tortoise_extended/models/hierarchy_model.py:512-567 | Every consistent row validates, and exactly what a validated row still needs to be consistent |
| NodeCounters.GraphNode.Save | src/tortoise_extended/models/graph_node.py:141-214 | The whole table after a create, an update or a failed write, counters included, for every `update_fields`, the empty list included |
| NodeCounters.GraphNode.Delete | src/tortoise_extended/models/graph_node.py:228-257 | The whole table after a delete, or no change when children block it |
| NodeCounters.SaveFailsIff | src/tortoise_extended/models/graph_node.py:181-193 | A save fails exactly on an insert of a stored key and on a forced update of a missing row |
| NodeCounters.SaveStores | src/tortoise_extended/models/graph_node.py:178-193 | Which rows and columns a successful save writes, for every `update_fields`; no other row changes, but for counters |
| NodeCounters.SaveCounts | src/tortoise_extended/models/graph_node.py:195-214 | By how much each row's counter changes in a save, on any table |
| NodeCounters.DeleteStores | src/tortoise_extended/models/graph_node.py:243-257 | When a delete is refused, and what it does to each row and counter, on any table |
| NodeCounters.CreateKeepsCounted | src/tortoise_extended/models/graph_node.py:195-201 | A create keeps all counters right iff the new row brings the count of rows that already name it as parent |
| NodeCounters.UpdateKeepsCounted | src/tortoise_extended/models/graph_node.py:184-214 | An update of a stored row with no or with a non-empty `update_fields` keeps all counters right iff it does not write a stale `child_count` |
| NodeCounters.SilentUpdateKeepsCounted | src/tortoise_extended/models/graph_node.py:178-214 | An update with an empty `update_fields` keeps them right iff the row stays under the same stored parent and brings the count its own children call for |
| NodeCounters.SilentInsertKeepsCounted | src/tortoise_extended/models/graph_node.py:181-202 | An unsaved instance saved with an empty `update_fields` keeps them right iff its parent is not stored and it brings its own count |
| NodeCounters.UpdateOfMissingRow | src/tortoise_extended/models/graph_node.py:202-214 | An update of a missing row keeps them right iff no stored parent is counted up for it |
| NodeCounters.DeleteKeepsCounted | src/tortoise_extended/models/graph_node.py:251-257 | A delete keeps them right iff the instance names the stored parent, as far as rows remain |
| NodeCounters.OperationKeepsCountedIffCareful | src/tortoise_extended/models/graph_node.py:141-257 | The exact caller's condition for one operation, over all instances, flags, field lists and failures |
| NodeCounters.RunsKeepCounted | src/tortoise_extended/models/graph_node.py:149-164 | Over every run of careful operations each node counts exactly the rows naming it as parent, self-parents and dangling parents included |
| NodeCounters.CountedThroughoutIff | src/tortoise_extended/models/graph_node.py:149-164 | The counters are right after every operation of a run iff each of its operations was careful |
| NodeCounters.EmptyFieldsUndercount | src/tortoise_extended/models/graph_node.py:178-202 | A concrete unsaved child whose save with an empty `update_fields` leaves its parent counting too few |
| NodeCounters.DoubleDeleteUndercounts | src/tortoise_extended/models/graph_node.py:251-257 | Two deletes of one loaded row take the parent's counter below zero |
| NodeWalks.Subtree | src/tortoise_extended/models/graph_node.py:353-376 | Ends on every finite table and returns each node met through expanded nodes once, in non-decreasing distance, siblings by name, itself first |
| NodeWalks.SubtreeIsReachability | src/tortoise_extended/models/graph_node.py:353-376 | Without a limit these are exactly the nodes that child links reach, cycles included |
| NodeWalks.AtIsShortest | src/tortoise_extended/models/graph_node.py:362-374 | Without a limit the place of a node in the search is its shortest link distance |
| NodeWalks.LimitIsDistance | src/tortoise_extended/models/graph_node.py:373-374 | With fitting depths a limit m keeps exactly the nodes within max(1, m) links |
| NodeWalks.LimitHonouredIff | src/tortoise_extended/models/graph_node.py:356-374 | On any table, whatever the depths: a limit of at least 1 means what it says iff the depth column decides, for each node met within it, as its link distance would; a limit of 0 iff the node has no children; a negative one never |
| NodeWalks.FittingDepthsDecide | src/tortoise_extended/models/graph_node.py:93-96 | Depths that follow the links decide as the distances do, so every limit of at least 1 is then honoured |
| NodeWalks.DefaultDepthsBreakLimit | src/tortoise_extended/models/graph_node.py:93-96 | In a chain of three nodes with the default depth 0 a limit of 1 on the first lets the third through, two links away |
| NodeWalks.PathToRoot | src/tortoise_extended/models/graph_node.py:319-351 | Ends on every table; fails iff the chain of different ancestors meets a parent that is not stored, and names it; otherwise returns the complete chain, each node once, by ascending depth, nodes of one depth in chain order |
| NodeWalks.ChainIsLinks | src/tortoise_extended/models/graph_node.py:337-350 | The chain it walks starts at the instance and goes from each node to the stored row of its parent, no id twice |
| NodeWalks.RootFirstIffDepthsDescend | src/tortoise_extended/models/graph_node.py:328-351 | For every parent chain the result runs from the root to the node iff depths strictly descend along the parents |
| NodeWalks.DefaultDepthsListChildFirst | src/tortoise_extended/models/graph_node.py:328-351 | A root and its child, both with the default depth 0, are returned child first |
| NodeWalks.SortIsStable | src/tortoise_extended/models/graph_node.py:351 | The sort by depth permutes its input, ascends in depth and keeps the order of nodes of one depth |
| NodeWalks.CompleteNeverDangles | src/tortoise_extended/models/graph_node.py:337-350 | A chain that ends at a root or in a cycle excludes every dangling chain |
| NodeWalks.PathToRootIsReversedChain | src/tortoise_extended/models/graph_node.py:328-351 | On tables where every stored node is one deeper than its stored parent the result is the reversed parent chain, root first |
| Texts.NumeralReadsBack | src/tortoise_extended/cache/base.py:44-46 | A decimal length followed by a non-digit reads back as that length |
| Texts.TextLeIff | src/tortoise_extended/cache/base.py:69-77 | The order of texts: a prefix first, else by the first character that differs |
| Texts.SortIgnoresOrder | src/tortoise_extended/cache/queryset.py:126-130 | Sorting by a key that tells the members apart gives one result for all permutations |
| CacheKeys.CacheKey.Add | src/tortoise_extended/cache/base.py:48-51 | The components added so far, in order, are the old ones followed by the new ones |
| CacheKeys.CacheKey.Build | src/tortoise_extended/cache/base.py:53-67 | The key text of all components, or an error when there are none |
| CacheKeys.DecodeBuilt | src/tortoise_extended/cache/base.py:43-67 | A parser recovers the exact component list for every separator and all contents: separators, digits and empty strings included |
| CacheKeys.KeysEqualIffComponentsEqual | src/tortoise_extended/cache/base.py:25-29 | Two keys with one separator coincide iff their component lists do |
| CacheKeys.ModelKeysDistinct | src/tortoise_extended/models/cacheable_model.py:94-104 | Within a model class two lookups share a key iff operation and keyword arguments are equal, in whatever order the arguments are given |
| CacheKeys.KeyTextShown | src/tortoise_extended/cache/base.py:43-67 | A concrete key text: prefix first, each component after its length, joined by the separator |
| CacheKeys.ModelKeyShown | src/tortoise_extended/models/cacheable_model.py:101-104 | A concrete lookup key: class, operation, then the arguments sorted by name |
| Json.DumpsReadsBack | src/tortoise_extended/cache/queryset.py:377-386 | A reader for JSON with default separators recovers every value from its text: strings with all escapes and surrogate pairs, nested lists and dictionaries |
| Json.DumpsInjective | src/tortoise_extended/cache/queryset.py:377-386 | Two JSON values print to the same text iff they are equal, however strings inside are escaped |
| QSignature.SignatureIffEquivalent | src/tortoise_extended/cache/queryset.py:368-386 | Two filter trees have equal signatures iff they are equal up to the order of keyword filters and of children at every level |
| QSignature.SameIsAlike | src/tortoise_extended/cache/queryset.py:384 | Key-sorted forms coincide iff the values are equal with dictionaries compared as mappings |
| QSignature.EqualSignaturesMatchSameRows | src/tortoise_extended/cache/queryset.py:370-376 | Equal signatures imply that the same rows pass, for any meaning of the leaves that reads dictionaries as mappings |
| QSignature.KeyDataIffSameQuery | src/tortoise_extended/cache/queryset.py:111-152 | The hashed text of two queries coincides iff they are the same up to filter order and zero limits or offsets |
| QSignature.QueryKeysIffSame | src/tortoise_extended/cache/queryset.py:149-152 | Where the hash tells their texts apart, two queries share their cache key iff they are of one model and the same up to filter order and zero bounds |
| QSignature.ZeroLimitSharesKey | src/tortoise_extended/cache/queryset.py:142-143 | A limit of zero shares its key text with no limit |
| CallSignature.SignatureIffAgree | src/tortoise_extended/cache/decorators.py:29-66 | Two calls share their signature iff their arguments agree up to the order of keyword arguments, dictionaries and sets and the exchange of a set with the list of its members in the order of their texts, at any level, where members of one set print differently |
| CallSignature.SameFormIffAgree | src/tortoise_extended/cache/decorators.py:41-54 | The same for the normal forms of two arguments |
| CallSignature.SameCallSameSignature | src/tortoise_extended/cache/decorators.py:29-66 | Calls with the same arguments, however keyword arguments, dictionaries and sets are ordered at any level, have the same signature, unless different members of one set print alike |
| CallSignature.NativeCallsIffSame | src/tortoise_extended/cache/decorators.py:56-66 | Without sets, and with no condition on texts, two calls share their signature iff positional arguments agree in order and keyword arguments agree as mappings |
| CallSignature.OrderHiddenIff | src/tortoise_extended/cache/decorators.py:44-46 | The normal form of a set is independent of its iteration order iff no two different members print alike |
| CallSignature.MixedSetHasTwoSignatures | src/tortoise_extended/cache/decorators.py:44-46 | A concrete set whose iteration order shows in the signature |
| CallSignature.SetSharesKeyWithList | src/tortoise_extended/cache/decorators.py:44-53 | A set shares its signature with a list iff sorting its members by their texts gives the list |
| TupleArguments.PySignatureIffAgree | src/tortoise_extended/cache/decorators.py:29-66 | With tuples among the arguments: signatures coincide iff the arguments agree, tuples read as lists and a set inside a tuple as the text `str` gives it, where members of the other sets print differently |
| TupleArguments.SetInTupleIff | src/tortoise_extended/cache/decorators.py:41-66 | Two orders of a set inside a tuple share a signature iff `str` shows them alike |
| TupleArguments.TupleIsListOfPrints | src/tortoise_extended/cache/decorators.py:51-66 | A tuple shares its signature with the list of its items in which every set, at any depth, is replaced by the text `str` gives it |
| TupleArguments.TupleSharesKeyWithList | src/tortoise_extended/cache/decorators.py:51-66 | A tuple without sets in it shares its signature with the list of the same items |
| SoftDelete.SoftDeleteQuerySet.Narrow | src/tortoise_extended/models/soft_delete.py:82-87 | `filter` and `exclude` add a condition to a new clone; the receiver keeps its state |
| SoftDelete.SoftDeleteQuerySet.SwitchToWithDeleted | src/tortoise_extended/models/soft_delete.py:89-96 | A new clone without the mode condition; the receiver keeps its state |
| SoftDelete.SoftDeleteQuerySet.SwitchToOnlyDeleted | src/tortoise_extended/models/soft_delete.py:98-107 | A new clone with the mode condition replaced in place or appended; the receiver keeps its state |
| SoftDelete.Chain | src/tortoise_extended/models/soft_delete.py:74-107 | After any chain of calls `_sd_index` addresses the mode condition and no other, and the remaining conditions are the user's, in order |
| SoftDelete.ChainMatches | src/tortoise_extended/models/soft_delete.py:66-107 | After any chain the matched rows are those that pass every filter, are known not to meet any exclusion, and are admitted by the mode chosen last; a condition may be unknown, as with NULL |
| SoftDelete.DeleteByMode | src/tortoise_extended/models/soft_delete.py:129-152 | On a live-only chain delete removes no row and stamps exactly the matched live rows; otherwise it removes exactly the matched rows |
| SoftDelete.Delete | src/tortoise_extended/models/soft_delete.py:129-152 | The new table by mode, the number of matched rows, and that a physical delete shrinks the table by exactly that number while a soft delete keeps its size |
| SoftDelete.Restore | src/tortoise_extended/models/soft_delete.py:109-115 | The table with the marker cleared on exactly the soft-deleted rows under the conditions, and their number |
| SoftDelete.HardDelete | src/tortoise_extended/models/soft_delete.py:117-127 | The table without the rows under the conditions, live or deleted, smaller by exactly the returned number |
| SoftDelete.RestoreRow | src/tortoise_extended/models/soft_delete.py:109-115 | On any chain, whatever its mode and conditions: restore makes live exactly the soft-deleted rows under the conditions, and touches no other row or column |
| SoftDelete.HardDeleteRow | src/tortoise_extended/models/soft_delete.py:117-127 | On any chain: hard_delete removes exactly the rows under the conditions, live or soft-deleted |
| SoftDelete.DeleteRestoreRow | src/tortoise_extended/models/soft_delete.py:109-115 | What each row is after a live-only delete and a restore on the same chain, for all conditions, also on `deleted_at`: live again if it still meets them once stamped, left stamped if it does not, revived if it met them soft-deleted, otherwise as it was |
| SoftDelete.RestoreUndoesDeleteIff | src/tortoise_extended/models/soft_delete.py:109-115 | Restore undoes a live-only delete, for all conditions, iff each row that meets them is live and still meets them once stamped |
| SoftDelete.RestoreUndoesPlainDeleteIff | src/tortoise_extended/models/soft_delete.py:109-115 | With conditions that do not read `deleted_at`: iff no row under them had been soft-deleted before |
| SoftDelete.FilterOnMarkerIsNotRestored | src/tortoise_extended/models/soft_delete.py:109-115 | A concrete queryset filtered on the marker whose delete its own restore does not undo |
| SoftDelete.HardDeleteDropsMode | src/tortoise_extended/models/soft_delete.py:117-127 | On an only-deleted chain hard_delete purges what delete purges iff no live row meets the user's conditions |
| Cacheable.CachedModel.Save | src/tortoise_extended/models/cacheable_model.py:287-302 | The row is stored and its entry dropped, unless caching is off or the backend fails |
| Cacheable.CachedModel.Delete | src/tortoise_extended/models/cacheable_model.py:304-308 | The row is removed and its entry dropped, unless caching is off or the backend fails |
| Cacheable.CachedModel.RefreshFromDb | src/tortoise_extended/models/cacheable_model.py:310-327 | A stored row overwrites its entry, a missing one raises and changes nothing |
| Cacheable.CachedModel.GetCached | src/tortoise_extended/models/cacheable_model.py:106-148 | Answer and new state of a lookup by any text for a primary key, cache failures and missing rows included |
| Cacheable.TextKeysApart | src/tortoise_extended/models/cacheable_model.py:94-104 | Two lookup texts share a key iff they are the same text |
| Cacheable.PkKeysApart | src/tortoise_extended/models/cacheable_model.py:278-281 | The writes of two rows invalidate the same key iff they are the same row |
| Cacheable.CoherentIffReadsCurrent | src/tortoise_extended/models/cacheable_model.py:106-148 | Every read by every spelling of a key shows each cached field of the current row, or nothing when it is gone, iff every cached record does |
| Cacheable.SaveKeepsCoherentIff | src/tortoise_extended/models/cacheable_model.py:261-302 | A save keeps the cache coherent iff, for every spelling whose entry its invalidation does not drop, what stays cached shows the new row |
| Cacheable.DeleteKeepsCoherentIff | src/tortoise_extended/models/cacheable_model.py:261-308 | A delete keeps the cache coherent iff no spelling whose entry its invalidation does not drop is cached |
| Cacheable.OperationKeepsSound | src/tortoise_extended/models/cacheable_model.py:94-327 | Saves, deletes, refreshes, lookups by canonical spellings or by other arguments, list lookups and expiries keep the cache coherent and free of other spellings |
| Cacheable.ReadsAfterRunAreCurrent | src/tortoise_extended/models/cacheable_model.py:94-327 | After any run from an empty cache whose lookups spell keys as they print, a read in any spelling shows the row the writes alone would have left, or nothing |
| Cacheable.AnswersFieldByField | src/tortoise_extended/models/cacheable_model.py:106-148 | After any such run an answer is, field by field, the row that the writes alone would have left: all of it from the database, exactly its cached fields from the cache |
| Cacheable.LookupFillsCache | src/tortoise_extended/models/cacheable_model.py:140-148 | After a lookup of a stored row the next one is a hit that shows exactly its cached fields |
| Cacheable.RefreshFillsCache | src/tortoise_extended/models/cacheable_model.py:317-327 | After a full refresh a lookup by the printed key is a hit that shows exactly the cached fields of the row as it is |
| Cacheable.CachingOffReadsTable | src/tortoise_extended/models/cacheable_model.py:114-116 | With `_cache_ttl <= 0`, after any run and whatever the cache holds, a lookup gives the whole current row, or `DoesNotExist` |
| Cacheable.CachingOffKeepsCache | src/tortoise_extended/models/cacheable_model.py:272-318 | Nothing but an expiry touches the cache then |
| Cacheable.OtherSpellingGoesStale | src/tortoise_extended/models/cacheable_model.py:102-104 | A run of one lookup in another spelling and one save after which that spelling still answers with the old row |
| Cacheable.AlwaysCurrentIffCanonical | src/tortoise_extended/models/cacheable_model.py:278-281 | Reads by a text are current after every run iff the text is the one its key prints |

## Left out

- NodeCounters.GraphNode.Save: an `update_fields` that can be iterated only once is not modelled; the ORM would find it consumed.
- Hierarchy.HierarchyNode.MoveTo: the length limit is checked on the moved node's own path, where the field encodes it; the bulk rewrite of descendants builds its text inside the database, and a limit there is not modelled. PathTooLong stands for the field's `ValueError`.
- Hierarchy.MoveKeepsConsistentIff: the in-memory instances equal their stored rows, here and in the other theorems about moves; a stale instance is outside the theorems, though not outside the method.
- HierarchyQueries.ValidateHierarchy: the wording of the messages is not modelled.
- SingleFlight.WaiterGetsOwnersOutcome: covers the decorators; in `CachedQuerySet._execute` waiters receive serialized records while the owner returns model instances, so equality is not claimed there.
- SingleFlight.NextKeepsInv: answers of the cache backend are arbitrary inputs of the protocol; that a stored value is read back later is not part of it.
- SoftDelete.ChainMatches: stated for models with a `deleted_at` column, which the abstract base always declares; SoftDelete.Chain covers both kinds.
- CallSignature.SameCallSameSignature: arguments are null, booleans, integers, strings, lists, dictionaries with text keys, and sets; floats and the `str` fallback for other objects are not part of it, and `str` itself is a parameter. SHA-256 is left out here too.
- TupleArguments.PySignatureIffAgree: members of a set are ordered by the texts of what they resolve to, so that a tuple among them is ordered by a text of the list of its items.
- SingleFlight.CanAllFinishIffNoCycle: a wrapped function awaits one other call at a time; functions that gather several calls, or that wait for anything else than a call, are not modelled.
- Cacheable.ReadsAfterRunAreCurrent: operations do not overlap, invalidations of writes reach the backend, the database reads the text that a key prints as that key, and the read is by the primary-key field; other lookups, `filter_cached` freshness and partial refreshes may be stale and nothing is claimed of them.
- Cacheable.AnswersFieldByField: records are the fields other than the primary key, which a hit restores from `_pk`; field values are texts, and their coercion is input and output.
- Cacheable.CachedModel.GetCached: every text resolves to some key; a text that the database rejects is an error of its own there.
- Json.DumpsInjective: values are null, booleans, integers, strings, lists and dictionaries; floats, lone surrogates and the fallback for sets, dates and other objects are not part of it.
- QSignature.KeyDataIffSameQuery: the statement is about the text that is hashed; for the key itself the hash is a parameter, and a key of the caller's own is not modelled; the rendering of annotation expressions to SQL is an input.
- Ids and keys of the graph tables are integers; names of edge and node fields, and the errors for unknown ones, are not modelled. Limits are not negative.
- What the ORM and the database do is taken as given: inserting a stored key fails, a forced update of nothing fails, deleting a missing row is silent, `get_or_none` fails on several rows, and a save with an empty `update_fields` inserts an unsaved instance and writes all columns of a saved one. The collation of names is a parameter.
- VectorSearch.BestHits: the distance of a node is a parameter, as its place among the distances, and so is the set of nodes that pass the vector predicate; the metrics, thresholds and the hydration of rows are left out.
- HybridSearch, vector operators, TimescaleDB managers, index and migration operations, field codecs: arithmetic or templates around external functions.
- Redis, connections, serializers and value coercion: input and output.
- `BaseGraphNodeModel.ancestors` and `descendants`: documented approximations by depth range.
