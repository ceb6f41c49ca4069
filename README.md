# Service-dependency alert network, in Dafny

This project models the core of a Java alert-network engine and proves properties of the model. Services are named by strings. A service depends on other services, and an alert in one service propagates along those dependencies. The engine keeps two maps: the forward adjacency map from each service to its dependencies, and its reverse. It also keeps a cache of query answers. It answers four queries:

- a shortest propagation path between two services;
- the set of services an alert can reach;
- the edges to cut so that an alert stays inside a given set of services;
- an order of all services in which every dependency comes first.

The repository holds the engine twice, in the packages `com.allertSystem` and `com.allert`. The two copies differ in naming and in the boolean convention of the depth-first sort. They also differ in what they return: `getDependencies` returns a `HashSet` copy in `com.allertSystem` and an unmodifiable `Set.copyOf` in `com.allert`, and a path is collected into a mutable list in one package and an unmodifiable `Stream.toList()` in the other. In Dafny both are the same value; "## Left out" lists what this does not capture, together with the `com.allert.cache` class, which is not part of this model. A small `OrderedListReconstructor` rebuilds a list from (value, next) pairs.

Modules:

- `Wrappers`: `Option`, `Result` and `Outcome`. A Java `null` argument is `None`, and a thrown `IllegalArgumentException` or `IllegalStateException` is a `Failure`/`Fail` value.
- `Graph`: the adjacency map as a value and the notions the queries are specified by:
  - walks, reachability and shortest walks;
  - target-first paths;
  - the boundary of a service set;
  - cycles and dependency-first orders.
- `Validation`: the service validator. Its two copies are identical in behaviour; they differ only in field name and imports.
- `Keys`: the string keys of the cache. The path key is `source + "->" + target`. The containment key is the sorted member names joined with ",". The module includes a model of `String.compareTo`, insertion sort and `String.join`.
- `Cache`: the `NetworkCache` class with its three maps, plus what it means for a cached entry to be right for the current graph.
- `Traversal`: the four algorithms, over a snapshot of the adjacency map:
  - breadth-first search, with the path read back from the predecessor links;
  - depth-first search with a stack;
  - the confined search from every member;
  - the recursive three-colour sort.
- `AllertSystem`, `Allert`: one `AlertNetworkImpl` class each. Each has its two maps as fields, a cache object, and one method per public and private operation.
- `Reconstruct`: `OrderedListReconstructor`.

Loops over a Java `HashSet` or `keySet` pick their next element with `:|`, so every property is proved for any iteration order. The object invariant `Valid()` of both engine classes says four things:

- every dependency is a service;
- no service name is blank;
- the reverse map mirrors the forward map;
- every cached answer is right for the current graph.

The last point is why clearing the cache on every mutation matters.

A propagation path is modelled as written: `reconstructPath` follows predecessor links from the target and never reverses. So a path lists the target first and the source last. A query from a service to itself answers `[source]`, and an unreachable target answers `[]`.

## Model

| member | source | states |
|---|---|---|
| Graph.AddServiceKeepsReverse | src/main/java/com/allertSystem/AlertNetworkImpl.java:23-27 | putting an absent service with no dependencies into both maps keeps every dependency a service and keeps the reverse map the exact mirror of the forward map |
| Graph.AddEdgeKeepsReverse | src/main/java/com/allertSystem/AlertNetworkImpl.java:37-38 | adding u to rev[v] and v to adj[u] for two existing services keeps the graph closed and the reverse map the exact mirror |
| Graph.TargetFirstPathReversed | src/main/java/com/allertSystem/AlertNetworkImpl.java:194-197 | read backwards, a target-first path is a walk from source to target, so the target is reachable |
| Graph.PathToSelf | src/main/java/com/allertSystem/AlertNetworkImpl.java:69-75 | the answer to a query from a service to itself is exactly `[source]` |
| Graph.PathLengthDetermined | src/main/java/com/allertSystem/AlertNetworkImpl.java:61-87 | any two correct answers to one path query have the same length: iteration order only picks among shortest paths |
| Graph.ClosedSetExcludes | src/main/java/com/allertSystem/AlertNetworkImpl.java:69-86 | when the search runs dry, the discovered set is closed under dependencies, so a target outside it is unreachable and `[]` is correct |
| Graph.ClosedReachableSet | src/main/java/com/allertSystem/AlertNetworkImpl.java:98-120 | a set of services that contains the start, is reachable from it and is closed under dependencies is the whole reachability closure |
| Graph.BoundaryCutConfines | src/main/java/com/allertSystem/AlertNetworkImpl.java:130-155 | after removing the suggested edges, no walk from a member of the set reaches a service outside it |
| Graph.BoundaryEdgeNeeded | src/main/java/com/allertSystem/AlertNetworkImpl.java:130-155 | each suggested edge is necessary: keeping any one of them lets an alert leave the set |
| Graph.BoundaryGrow | src/main/java/com/allertSystem/AlertNetworkImpl.java:143-149 | for a larger set, the boundary edges that start in the smaller set are exactly the smaller set's boundary edges whose target stays outside the larger set |
| Graph.DependencyPrecedes | src/main/java/com/allertSystem/AlertNetworkImpl.java:157-192 | in a dependency-first order, for every edge u -> v the dependency v comes before u |
| Graph.DependencyFirstOrderAcyclic | src/main/java/com/allertSystem/AlertNetworkImpl.java:157-172 | a graph that has a dependency-first order has no cycle, so the sort succeeds only on acyclic graphs |
| Keys.PathKeyInjective | src/main/java/com/allertSystem/cache/NetworkCache.java:26-35 | when sources contain no "->", equal path keys mean the same (source, target) query |
| Keys.PathKeyCollision | src/main/java/com/allertSystem/cache/NetworkCache.java:27 | the queries ("a->b", "c") and ("a", "b->c") share a key |
| Keys.LexLeqTotal | src/main/java/com/allertSystem/cache/NetworkCache.java:39 | the `compareTo` order compares any two names |
| Keys.LexLeqAntisymmetric | src/main/java/com/allertSystem/cache/NetworkCache.java:39 | names that compare both ways are equal |
| Keys.LexLeqTransitive | src/main/java/com/allertSystem/cache/NetworkCache.java:39 | the `compareTo` order is transitive |
| Keys.Insert | src/main/java/com/allertSystem/cache/NetworkCache.java:39 | inserting a name adds exactly that name to the multiset of names |
| Keys.InsertSorted | src/main/java/com/allertSystem/cache/NetworkCache.java:39 | inserting into a sorted list keeps it sorted |
| Keys.Sort | src/main/java/com/allertSystem/cache/NetworkCache.java:38-39 | `Collections.sort` yields a sorted permutation of its input |
| Keys.SortedUnique | src/main/java/com/allertSystem/cache/NetworkCache.java:39 | two sorted permutations of the same names are equal, so sorting fixes one list per set |
| Keys.KeyIgnoresIterationOrder | src/main/java/com/allertSystem/cache/NetworkCache.java:37-41 | any two listings of the same names give the same key, whatever the hash-set iteration order |
| Keys.JoinInjective | src/main/java/com/allertSystem/cache/NetworkCache.java:40 | a non-empty list of comma-free names is recovered from its comma join |
| Keys.ServicesKeyInjective | src/main/java/com/allertSystem/cache/NetworkCache.java:37-41 | two non-empty sets of comma-free names with the same key are the same set |
| Keys.ServicesKeyCollision | src/main/java/com/allertSystem/cache/NetworkCache.java:40 | the sets {"a,b"} and {"a", "b"} share a key |
| Keys.KeyForServices | src/main/java/com/allertSystem/cache/NetworkCache.java:37-41 | copying the set into a list in iteration order, sorting and joining gives the set's key, which depends on the members only |
| Validation.TrimEmptyIffBlank | src/main/java/com/allertSystem/validation/ServiceValidator.java:16 | `trim()` gives "" exactly for names made only of characters up to U+0020 |
| Validation.ValidateServiceName | src/main/java/com/allertSystem/validation/ServiceValidator.java:15-19 | passes exactly for a non-null name that is not blank, and fails with the "null or empty" error otherwise |
| Validation.PaddedNameIsOwnService | src/main/java/com/allertSystem/validation/ServiceValidator.java:15-19 | a padded name passes untrimmed and is a different service from the unpadded one; a tab-and-space name fails |
| Validation.ValidateServiceExists | src/main/java/com/allertSystem/validation/ServiceValidator.java:21-25 | passes exactly when the name is a key of the map, and otherwise fails naming the service |
| Validation.ValidateServicesSet | src/main/java/com/allertSystem/validation/ServiceValidator.java:27-35 | passes exactly for a non-null, non-empty set of existing services; a null or empty set gives the set error; any other failure is the unknown-service error and names a member that does not exist |
| Cache.Lookup | src/main/java/com/allertSystem/cache/NetworkCache.java:17-20 | present exactly when the key is cached, and then holds the cached value |
| Cache.AffectedCoherentPut | src/main/java/com/allertSystem/cache/NetworkCache.java:22-24 | storing a service's reachability closure under its name keeps every affected-services entry right |
| Cache.PathsCoherentPut | src/main/java/com/allertSystem/cache/NetworkCache.java:32-35 | storing a correct path under its query's key keeps every path entry the answer to a query with that key |
| Cache.ContainmentCoherentPut | src/main/java/com/allertSystem/cache/NetworkCache.java:48-50 | storing a set's boundary under its key keeps every containment entry the boundary of a set with that key |
| Cache.PathEntryExact | src/main/java/com/allertSystem/cache/NetworkCache.java:26-35 | when no service name contains "->", a coherent entry found under a query's key is that query's correct answer |
| Cache.PathEntryCollision | src/main/java/com/allertSystem/cache/NetworkCache.java:26-35 | with "->" in names, a coherent entry can be a wrong answer for the query that finds it |
| Cache.ContainmentEntryExact | src/main/java/com/allertSystem/cache/NetworkCache.java:37-50 | when no service name contains ",", a coherent containment entry found under a set's key is that set's boundary |
| Cache.ContainmentEntryCollision | src/main/java/com/allertSystem/cache/NetworkCache.java:37-50 | with "," in names, a coherent containment entry can be wrong for the set that finds it |
| Cache.NetworkCache.constructor | src/main/java/com/allertSystem/cache/NetworkCache.java:12-15 | a new cache holds no entry |
| Cache.NetworkCache.GetAffectedServices | src/main/java/com/allertSystem/cache/NetworkCache.java:17-20 | the lookup of the service name in the affected-services map |
| Cache.NetworkCache.PutAffectedServices | src/main/java/com/allertSystem/cache/NetworkCache.java:22-24 | stores the set under the name and leaves the other two maps unchanged |
| Cache.NetworkCache.GetPropagationPath | src/main/java/com/allertSystem/cache/NetworkCache.java:26-30 | the lookup under `source + "->" + target` |
| Cache.NetworkCache.PutPropagationPath | src/main/java/com/allertSystem/cache/NetworkCache.java:32-35 | stores the path under `source + "->" + target` and leaves the other two maps unchanged |
| Cache.NetworkCache.GetContainmentEdges | src/main/java/com/allertSystem/cache/NetworkCache.java:43-46 | the lookup under the set's sorted, comma-joined key |
| Cache.NetworkCache.PutContainmentEdges | src/main/java/com/allertSystem/cache/NetworkCache.java:48-50 | stores the edges under the set's key and leaves the other two maps unchanged |
| Cache.NetworkCache.Clear | src/main/java/com/allertSystem/cache/NetworkCache.java:52-56 | afterwards all three maps are empty |
| Cache.PutThenGetContainment | src/main/java/com/allertSystem/cache/NetworkCache.java:43-50 | a lookup right after a put for the same set finds what was put, whatever order either call iterates the set in; only the containment map changes, at the set's key |
| Traversal.ReconstructPath | src/main/java/com/allertSystem/AlertNetworkImpl.java:194-197 | starts at the target, each element's successor is its predecessor link, it ends at a service without a link, and it has one element per step of the ranking |
| Traversal.UndiscoveredIsFar | src/main/java/com/allertSystem/AlertNetworkImpl.java:76-82 | a walk from the source to an undiscovered service has more edges than the distance of the frontier |
| Traversal.DiscoveryIsShortest | src/main/java/com/allertSystem/AlertNetworkImpl.java:76-80 | a service first discovered from a frontier member at distance m has no walk shorter than m + 1 |
| Traversal.PathFromSearchTree | src/main/java/com/allertSystem/AlertNetworkImpl.java:71-74 | following the predecessor links from a discovered target gives a correct (shortest, target-first) answer |
| Traversal.SearchTreeStart | src/main/java/com/allertSystem/AlertNetworkImpl.java:62-67 | the source alone, at distance 0 and without a predecessor, is a valid search tree |
| Traversal.SearchTreeGrows | src/main/java/com/allertSystem/AlertNetworkImpl.java:77-79 | recording a newly discovered dependency with `current` as its predecessor, one edge further, keeps a valid search tree |
| Traversal.LayerTail | src/main/java/com/allertSystem/AlertNetworkImpl.java:70 | polling keeps the queue in two consecutive distance layers |
| Traversal.LayerPush | src/main/java/com/allertSystem/AlertNetworkImpl.java:80 | offering a service one layer further keeps the queue layered |
| Traversal.LayerNext | src/main/java/com/allertSystem/AlertNetworkImpl.java:76-82 | after the expansion, the queue is layered from its new head |
| Traversal.ExpandingGrows | src/main/java/com/allertSystem/AlertNetworkImpl.java:77-80 | discovering one more dependency keeps the expansion state: search tree, layers, finished services closed, target still queued |
| Traversal.EnqueueDependencies | src/main/java/com/allertSystem/AlertNetworkImpl.java:76-82 | the `for` loop: exactly the dependencies of `current` not discovered before are added to the discovered set, appended after the old queue and given `current` as predecessor, with every other predecessor kept; afterwards every dependency of `current` is discovered, the search tree and layers hold, and either a service was discovered or nothing changed |
| Traversal.ShortestPath | src/main/java/com/allertSystem/AlertNetworkImpl.java:61-87 | the breadth-first search returns `[]` exactly when the target is unreachable, and otherwise a target-first path with the fewest edges |
| Traversal.AffectedServices | src/main/java/com/allertSystem/AlertNetworkImpl.java:98-120 | the stack search returns exactly the services reachable from the start, the start included |
| Traversal.BoundaryFrom | src/main/java/com/allertSystem/AlertNetworkImpl.java:143-145 | an edge is found from the visited members exactly when it leaves the set from one of them |
| Traversal.ContainmentEdges | src/main/java/com/allertSystem/AlertNetworkImpl.java:130-151 | the per-member confined searches collect exactly the edges from a member to a non-member |
| Traversal.CycleThroughChain | src/main/java/com/allertSystem/AlertNetworkImpl.java:175-177 | meeting a service that is still in progress closes a cycle |
| Traversal.TopologicalSort | src/main/java/com/allertSystem/AlertNetworkImpl.java:174-192 | `false` only when the graph has a cycle; `true` leaves the service finished, `temp` as before, and the order still listing each finished service once after its dependencies |
| AllertSystem.AlertNetworkImpl.constructor | src/main/java/com/allertSystem/AlertNetworkImpl.java:15-20 | empty maps and an empty, fresh cache |
| AllertSystem.AlertNetworkImpl.AddService | src/main/java/com/allertSystem/AlertNetworkImpl.java:22-28 | the name check decides the outcome; a failure changes nothing; on success both maps get the name with no dependencies unless present, and the cache is empty |
| AllertSystem.AlertNetworkImpl.AddDependency | src/main/java/com/allertSystem/AlertNetworkImpl.java:30-40 | succeeds exactly for two existing names; name errors come before existence errors, the service before the dependency; a failure changes nothing; success adds the edge to both maps and empties the cache |
| AllertSystem.AlertNetworkImpl.GetDependencies | src/main/java/com/allertSystem/AlertNetworkImpl.java:42-48 | succeeds exactly for an existing name, with its dependency set; otherwise the first failing check's error |
| AllertSystem.AlertNetworkImpl.FindAlertPropagationPath | src/main/java/com/allertSystem/AlertNetworkImpl.java:50-59 | the four checks in order; a computed answer (a cache miss) is a correct shortest path; a cached one answers a query with the same key, and this very query when no name contains "->"; only the path cache changes, by one entry |
| AllertSystem.AlertNetworkImpl.FindAndCachePropagationPath | src/main/java/com/allertSystem/AlertNetworkImpl.java:61-87 | returns a correct path and stores it under the query's key, keeping the cache coherent |
| AllertSystem.AlertNetworkImpl.GetAffectedServices | src/main/java/com/allertSystem/AlertNetworkImpl.java:89-96 | for an existing name, exactly the services reachable from it, cached or not; otherwise the first failing check's error |
| AllertSystem.AlertNetworkImpl.FindAndCacheAffectedServices | src/main/java/com/allertSystem/AlertNetworkImpl.java:98-120 | returns the reachability closure and stores it under the name |
| AllertSystem.AlertNetworkImpl.SuggestContainmentEdges | src/main/java/com/allertSystem/AlertNetworkImpl.java:122-128 | succeeds exactly for a non-empty set of existing services; fails with the set error exactly for a null or empty set, and otherwise with the unknown-service error naming a missing member; a computed answer is the set's boundary; a cached one is the boundary of a set with the same key, and of this set when no name contains "," |
| AllertSystem.AlertNetworkImpl.CachedContainmentEdges | src/main/java/com/allertSystem/AlertNetworkImpl.java:126-127 | the cache probe with its fallback: a hit is kept as is, a miss computes the boundary and stores it |
| AllertSystem.AlertNetworkImpl.FindAndCacheContainmentEdges | src/main/java/com/allertSystem/AlertNetworkImpl.java:130-155 | returns the boundary of the set and stores it under the set's key |
| AllertSystem.AlertNetworkImpl.ReconstructOrder | src/main/java/com/allertSystem/AlertNetworkImpl.java:157-172 | succeeds exactly when the graph has no cycle, with every service once and each after all its dependencies; otherwise the circular-dependency error |
| Allert.AlertNetworkImpl.constructor | src/main/java/com/allert/AlertNetworkImpl.java:14-19 | empty maps and an empty, fresh cache |
| Allert.AlertNetworkImpl.AddService | src/main/java/com/allert/AlertNetworkImpl.java:21-27 | as in the other package: validated, idempotent `putIfAbsent` on both maps, cache emptied; a failure changes nothing |
| Allert.AlertNetworkImpl.AddDependency | src/main/java/com/allert/AlertNetworkImpl.java:29-39 | succeeds exactly for two existing names, errors in check order, unchanged on failure, and on success the edge in both maps and an empty cache |
| Allert.AlertNetworkImpl.GetDependencies | src/main/java/com/allert/AlertNetworkImpl.java:41-47 | exactly the dependency set of an existing service, or the first failing check's error |
| Allert.AlertNetworkImpl.FindAlertPropagationPath | src/main/java/com/allert/AlertNetworkImpl.java:49-58 | the four checks in order; a computed answer is a correct shortest target-first path; a cached one answers a query with the same key, and this query when no name contains "->" |
| Allert.AlertNetworkImpl.FindPropagationPath | src/main/java/com/allert/AlertNetworkImpl.java:60-86 | returns a correct path and stores it under the query's key |
| Allert.AlertNetworkImpl.GetAffectedServices | src/main/java/com/allert/AlertNetworkImpl.java:88-94 | for an existing name, exactly the services reachable from it; otherwise the first failing check's error |
| Allert.AlertNetworkImpl.FindAndCacheAffectedServices | src/main/java/com/allert/AlertNetworkImpl.java:96-116 | returns the reachability closure and stores it under the name |
| Allert.AlertNetworkImpl.SuggestContainmentEdges | src/main/java/com/allert/AlertNetworkImpl.java:118-123 | succeeds exactly for a non-empty set of existing services; fails with the set error exactly for a null or empty set, and otherwise with the unknown-service error naming a missing member; a computed answer is the set's boundary; a cached one is the boundary of a set with the same key, and of this set when no name contains "," |
| Allert.AlertNetworkImpl.CachedContainmentEdges | src/main/java/com/allert/AlertNetworkImpl.java:122 | the cache probe with its fallback, keeping the cache coherent |
| Allert.AlertNetworkImpl.FindAndCacheContainmentEdges | src/main/java/com/allert/AlertNetworkImpl.java:125-146 | returns the boundary of the set as `AlertPropagation` edges and stores it under the set's key |
| Allert.AlertNetworkImpl.ReconstructOrder | src/main/java/com/allert/AlertNetworkImpl.java:148-162 | succeeds exactly when the graph has no cycle, with a dependency-first order of all services; otherwise the circular-dependency error |
| Allert.AlertNetworkImpl.TopologicalSort | src/main/java/com/allert/AlertNetworkImpl.java:164-182 | `true` ("cycle") only when the graph has a cycle; `false` leaves the service finished, `temp` as before and the order dependency-first |
| Reconstruct.Link | src/main/java/com/reconstruct/OrderedListReconstructor.java:31 | `nextMap.get` gives the value a key is mapped to, and null for a value with no pair |
| Reconstruct.NextValues | src/main/java/com/reconstruct/OrderedListReconstructor.java:38-40 | exactly the values some key maps to, nulls left out |
| Reconstruct.BuildMapKeys | src/main/java/com/reconstruct/OrderedListReconstructor.java:16-19 | the map's keys are exactly the pairs' first elements |
| Reconstruct.BuildMapLastWins | src/main/java/com/reconstruct/OrderedListReconstructor.java:16-19 | a value is mapped to the successor given by its last pair |
| Reconstruct.FollowIsLoop | src/main/java/com/reconstruct/OrderedListReconstructor.java:28-32 | a list produced by following the links is exactly what the `while` loop adds, round by round, and the loop stops right after it |
| Reconstruct.CycleStaysInPrefix | src/main/java/com/reconstruct/OrderedListReconstructor.java:29-32 | once the walk links back into the values already listed, every further round of the loop stays among them |
| Reconstruct.DivergesNeverEnds | src/main/java/com/reconstruct/OrderedListReconstructor.java:29-32 | when the walk is reported as diverging, the `while` loop never stops |
| Reconstruct.OutcomeIsLoopResult | src/main/java/com/reconstruct/OrderedListReconstructor.java:10-35 | the result is empty exactly for null or empty input or no head; otherwise it starts at a head and is what the loop lists; divergence only where the Java loop never ends |
| Reconstruct.NextMapOf | src/main/java/com/reconstruct/OrderedListReconstructor.java:16-19 | the `for` loop builds the map in which later pairs overwrite earlier ones |
| Reconstruct.GetFirstElement | src/main/java/com/reconstruct/OrderedListReconstructor.java:37-47 | some key that is no non-null successor, or null exactly when every key is somebody's successor |
| Reconstruct.ReconstructOrder | src/main/java/com/reconstruct/OrderedListReconstructor.java:10-35 | the result is one of the outcomes for some head the method may pick |
| Reconstruct.BasicExample | src/test/java/com/reconstruct/OrderedListReconstructorTest.java:12-21 | A -> B, C -> D, B -> C, D -> null (for any four distinct values) always gives [A, B, C, D] |
| Reconstruct.SingleElement | src/test/java/com/reconstruct/OrderedListReconstructorTest.java:30-36 | a single pair (A, null) gives [A] |
| Reconstruct.CycleExample | src/main/java/com/reconstruct/OrderedListReconstructor.java:29-32 | A -> B, B -> C, C -> B: the walk from the only head enters a cycle and never ends |
| Reconstruct.NoHeadExample | src/main/java/com/reconstruct/OrderedListReconstructor.java:21-25 | when every value is somebody's successor (A -> B, B -> A) the result is empty |

## Left out

- AllertSystem.AlertNetworkImpl.FindAlertPropagationPath: on a cache hit the answer is proved correct only when no service name contains "->". With such names the path key is ambiguous, and a cached path can answer a different query (`Cache.PathEntryCollision`). In that case the contract states only that the answer is right for some query with the same key.
- Allert.AlertNetworkImpl.FindAlertPropagationPath: the same weaker statement on a cache hit, for the same reason.
- AllertSystem.AlertNetworkImpl.SuggestContainmentEdges: on a cache hit the answer is proved to be this set's boundary only when no service name contains ",". The containment key is ambiguous otherwise (`Cache.ContainmentEntryCollision`).
- Allert.AlertNetworkImpl.SuggestContainmentEdges: the same weaker statement on a cache hit, for the same reason.
- Reconstruct.ReconstructOrder: when the walk from the chosen head comes back to a value already listed, the Java loop runs forever and keeps growing the list until memory runs out. The model stops at the first repeat and returns `Diverges`. `Reconstruct.DivergesNeverEnds` proves the Java loop indeed never stops there.
- Which head `getFirstElement` picks, and which shortest path or list order a hash-set iteration produces, are left open. They are chosen with `:|`, and every contract holds for any choice.
- `com.allert.cache.NetworkCache` is not part of this model. The `Allert` engine uses the `Cache.NetworkCache` class modelled from the `com.allertSystem` package, assumed to behave the same.
- Defensive copies (`new HashSet<>(...)`, `new ArrayList<>(...)`, `Set.copyOf`) and the immutability of returned collections have no counterpart. Dafny collections are values, so no caller can alias the engine's or the cache's state.
- `String.compareTo` compares UTF-16 code units. `Keys.LexLeq` compares Dafny characters (Unicode scalar values). The two orders differ only for names with characters beyond U+FFFF.
- Null elements inside collections are not modelled. A null member of the service set is rejected by `validateServicesSet` as an unknown service, because `containsKey(null)` is false, so Java raises "Service null does not exist in the network". In `reconstructOrder`, a null pair raises a `NullPointerException`, and a pair with fewer than two elements raises an `IndexOutOfBoundsException`. A null first element becomes a null key; since null is never a successor value, it is always a possible head, and when `findFirst()` selects it Java raises a `NullPointerException`. Here a service name is never null, and a pair always has a non-null value and an optional successor.
- Concurrency: the Java classes are not thread-safe, and the model is sequential.
- Lombok-generated constructors and accessors, and the `AlertNetwork` interface itself, are not modelled beyond the constructors above.
- The tests of the `com.allertSystem` package disagree with the code, and the model follows the code. At AlertNetworkIntegrationTest.java lines 43-44 and 175-176 they expect source-first paths, while the code returns target-first paths. At lines 53-55 they expect 2 containment edges for {A, B, D}; the code returns the 4 edges B->C, B->E, D->C and D->E. At lines 130-143 they expect one edge per set, where the code returns 3, 3 and 2 edges. At lines 183-188 they expect the 3 edges C->D, F->D and H->D, none of whose sources is in {A, B, E}; the code returns B->C, B->G and E->F. They also call `getSource()`/`getTarget()`, which the record `Edge` does not declare. The tests of the `com.allert` package target an older interface (`List` results, a `String` argument to `suggestContainmentEdges`) and are not used.
