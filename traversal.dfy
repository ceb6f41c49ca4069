/** The four graph algorithms behind the engine's queries, over a snapshot of
    the adjacency map: breadth-first propagation paths, depth-first affected
    services, the confined search for containment edges, and the depth-first
    dependency-first order. Each loop over a Java `HashSet` or `keySet` picks
    its next element with `:|`, so every proof holds for any iteration order. */
module Traversal {
  import opened Wrappers
  import opened Graph

  // ---------------------------------------------------------------------------
  // Propagation paths (breadth-first search)

  /** Every predecessor link goes one step down in `dist`. */
  ghost predicate PredecessorsRanked(previous: map<Service, Service>, dist: map<Service, nat>)
  {
    forall v :: v in previous ==> v in dist && previous[v] in dist && dist[v] == dist[previous[v]] + 1
  }

  /** `reconstructPath`: follow the predecessor links from `target` until a
      service without one; the list starts at `target`. The ghost ranking
      `dist` only shows that the links cannot go round in a circle. */
  function ReconstructPath(previous: map<Service, Service>, target: Service, ghost dist: map<Service, nat>): (p: seq<Service>)
    requires target in dist
    requires PredecessorsRanked(previous, dist)
    ensures |p| >= 1 && p[0] == target
    ensures p[|p| - 1] !in previous && p[|p| - 1] in dist
    ensures dist[p[|p| - 1]] + |p| - 1 == dist[target]
    ensures forall i :: 0 <= i < |p| - 1 ==> p[i] in previous && p[i + 1] == previous[p[i]]
    decreases dist[target]
  {
    if target in previous then [target] + ReconstructPath(previous, previous[target], dist) else [target]
  }

  /** The search tree built so far: `visited` are the discovered services,
      each but the source with the predecessor it was discovered from, and
      `dist` is the number of edges on the tree path, which no walk beats. */
  ghost predicate SearchTree(adj: Adjacency, source: Service, visited: set<Service>,
                             previous: map<Service, Service>, dist: map<Service, nat>)
  {
    && visited <= adj.Keys
    && source in visited
    && dist.Keys == visited
    && dist[source] == 0
    && previous.Keys == visited - {source}
    && PredecessorsRanked(previous, dist)
    && (forall v :: v in previous ==> previous[v] in adj && v in adj[previous[v]])
    && (forall v :: v in visited ==> NoShorterWalk(adj, source, v, dist[v]))
  }

  /** A walk to an undiscovered service passes through the frontier, whose
      members are all at least `m` edges away, and then takes one more edge. */
  lemma {:induction false} UndiscoveredIsFar(adj: Adjacency, source: Service, visited: set<Service>,
                                             frontier: seq<Service>, dist: map<Service, nat>, m: nat,
                                             w: seq<Service>, u: Service)
    requires source in visited && visited <= dist.Keys
    requires forall v :: v in visited && v !in frontier ==> v in adj && adj[v] <= visited
    requires forall v :: v in frontier ==> v in visited && dist[v] >= m
    requires forall v :: v in visited ==> NoShorterWalk(adj, source, v, dist[v])
    requires IsWalk(adj, w, source, u) && u !in visited
    ensures |w| - 1 >= m + 1
    decreases |w|
  {
    var w' := w[..|w| - 1];
    var p := w'[|w'| - 1];
    assert IsWalk(adj, w', source, p);
    if p !in visited {
      UndiscoveredIsFar(adj, source, visited, frontier, dist, m, w', p);
    } else {
      assert u in adj[p];
      assert p in frontier;
    }
  }

  /** A service discovered from a frontier member at distance `m` is at least
      `m + 1` edges away. */
  lemma DiscoveryIsShortest(adj: Adjacency, source: Service, visited: set<Service>,
                            frontier: seq<Service>, dist: map<Service, nat>, m: nat, u: Service)
    requires source in visited && visited <= dist.Keys
    requires forall v :: v in visited && v !in frontier ==> v in adj && adj[v] <= visited
    requires forall v :: v in frontier ==> v in visited && dist[v] >= m
    requires forall v :: v in visited ==> NoShorterWalk(adj, source, v, dist[v])
    requires u !in visited
    ensures NoShorterWalk(adj, source, u, m + 1)
  {
    forall w | IsWalk(adj, w, source, u)
      ensures |w| - 1 >= m + 1
    {
      UndiscoveredIsFar(adj, source, visited, frontier, dist, m, w, u);
    }
  }

  /** Reading the search tree back from a discovered target gives a shortest
      target-first path. */
  lemma PathFromSearchTree(adj: Adjacency, source: Service, target: Service, visited: set<Service>,
                           previous: map<Service, Service>, dist: map<Service, nat>)
    requires SearchTree(adj, source, visited, previous, dist) && target in visited
    ensures IsPropagationPath(adj, source, target, ReconstructPath(previous, target, dist))
  {
    var p := ReconstructPath(previous, target, dist);
    assert p[|p| - 1] == source by {
      assert p[|p| - 1] in visited && p[|p| - 1] !in previous;
    }
    forall i | 0 < i < |p|
      ensures p[i] in adj && p[i - 1] in adj[p[i]]
    {
      var v := p[i - 1];
      assert v in previous && p[i] == previous[v];
    }
    assert IsTargetFirstPath(adj, p, source, target);
    TargetFirstPathReversed(adj, p, source, target);
  }

  /** The search starts with the source alone, at distance 0. */
  lemma SearchTreeStart(adj: Adjacency, source: Service)
    requires source in adj
    ensures SearchTree(adj, source, {source}, map[], map[source := 0])
  {
  }

  /** Recording a newly discovered dependency, one edge further than the
      service it was discovered from, keeps the search tree. */
  lemma SearchTreeGrows(adj: Adjacency, source: Service, visited: set<Service>,
                        previous: map<Service, Service>, dist: map<Service, nat>,
                        current: Service, dependency: Service)
    requires SearchTree(adj, source, visited, previous, dist)
    requires current in visited && dependency in adj[current] && dependency in adj && dependency !in visited
    requires NoShorterWalk(adj, source, dependency, dist[current] + 1)
    ensures SearchTree(adj, source, visited + {dependency}, previous[dependency := current],
                       dist[dependency := dist[current] + 1])
  {
  }

  /** The queue holds discovered services in non-decreasing distance, all at
      distance `m` or `m + 1`: the two layers of a breadth-first search. */
  ghost predicate Layer(queue: seq<Service>, dist: map<Service, nat>, m: nat)
  {
    && (forall i :: 0 <= i < |queue| ==> queue[i] in dist && m <= dist[queue[i]] <= m + 1)
    && (forall i, j :: 0 <= i <= j < |queue| ==> dist[queue[i]] <= dist[queue[j]])
  }

  /** The queue's layers, measured from its head. */
  ghost predicate Layered(queue: seq<Service>, dist: map<Service, nat>)
  {
    queue != [] ==> queue[0] in dist && Layer(queue, dist, dist[queue[0]])
  }

  lemma LayerTail(queue: seq<Service>, dist: map<Service, nat>)
    requires queue != [] && Layered(queue, dist)
    ensures Layer(queue[1..], dist, dist[queue[0]])
  {
    forall i, j | 0 <= i <= j < |queue| - 1
      ensures dist[queue[1..][i]] <= dist[queue[1..][j]]
    {
      assert queue[1..][i] == queue[i + 1] && queue[1..][j] == queue[j + 1];
    }
  }

  lemma LayerPush(queue: seq<Service>, dist: map<Service, nat>, m: nat, dependency: Service)
    requires Layer(queue, dist, m) && dependency !in dist
    ensures Layer(queue + [dependency], dist[dependency := m + 1], m)
  {
    var q, d := queue + [dependency], dist[dependency := m + 1];
    forall i | 0 <= i < |q|
      ensures q[i] in d && m <= d[q[i]] <= m + 1
    {
      if i < |queue| {
        assert q[i] == queue[i] && q[i] != dependency;
      }
    }
    forall i, j | 0 <= i <= j < |q|
      ensures d[q[i]] <= d[q[j]]
    {
      if j < |queue| {
        assert q[i] == queue[i] && q[j] == queue[j];
      } else if i < |queue| {
        assert q[i] == queue[i];
      }
    }
  }

  lemma LayerNext(queue: seq<Service>, dist: map<Service, nat>, m: nat)
    requires Layer(queue, dist, m)
    ensures Layered(queue, dist)
  {
  }

  /** The state while the dependencies of `current` (at distance `m`, just
      taken off the queue) are being enqueued: the search tree, the two
      layers of the queue, every queued service discovered, every other
      discovered service but `current` finished, and `target` still queued
      if discovered. */
  ghost predicate Expanding(adj: Adjacency, source: Service, target: Service, current: Service, m: nat,
                            visited: set<Service>, previous: map<Service, Service>,
                            queue: seq<Service>, dist: map<Service, nat>)
  {
    && SearchTree(adj, source, visited, previous, dist)
    && Layer(queue, dist, m)
    && current in visited && current != target && dist[current] == m
    && (forall x :: x in queue ==> x in visited)
    && (forall v :: v in visited && v !in queue && v != current ==> adj[v] <= visited)
    && (target in visited ==> target in queue)
  }

  /** Discovering one more dependency of `current` keeps that state. */
  lemma ExpandingGrows(adj: Adjacency, source: Service, target: Service, current: Service, m: nat,
                       visited: set<Service>, previous: map<Service, Service>,
                       queue: seq<Service>, dist: map<Service, nat>, dependency: Service)
    requires Closed(adj)
    requires Expanding(adj, source, target, current, m, visited, previous, queue, dist)
    requires dependency in adj[current] && dependency !in visited
    ensures Expanding(adj, source, target, current, m, visited + {dependency}, previous[dependency := current],
                      queue + [dependency], dist[dependency := m + 1])
  {
    DiscoveryIsShortest(adj, source, visited, [current] + queue, dist, m, dependency);
    SearchTreeGrows(adj, source, visited, previous, dist, current, dependency);
    LayerPush(queue, dist, m, dependency);
  }

  /** What the `for` loop has changed once the dependencies `done` of
      `current` are handled: those not discovered before are discovered,
      appended to the queue in some order and given `current` as their
      predecessor, and nothing else changes. */
  ghost predicate Enqueued(current: Service, done: set<Service>,
                           visited: set<Service>, previous: map<Service, Service>, queue: seq<Service>,
                           visited': set<Service>, previous': map<Service, Service>, queue': seq<Service>)
  {
    && visited' == visited + done
    && |queue| <= |queue'| && queue'[..|queue|] == queue
    && (forall x :: x in queue'[|queue|..] <==> x in done && x !in visited)
    && (forall d :: d in done && d !in visited ==> d in previous' && previous'[d] == current)
    && (forall k :: k in previous ==> k in previous' && previous'[k] == previous[k])
    && previous'.Keys == previous.Keys + (done - visited)
  }

  /** A dependency discovered earlier is skipped. */
  lemma EnqueuedSkip(current: Service, done: set<Service>,
                     visited: set<Service>, previous: map<Service, Service>, queue: seq<Service>,
                     visited': set<Service>, previous': map<Service, Service>, queue': seq<Service>,
                     dependency: Service)
    requires Enqueued(current, done, visited, previous, queue, visited', previous', queue')
    requires dependency in visited'
    ensures Enqueued(current, done + {dependency}, visited, previous, queue, visited', previous', queue')
  {
  }

  /** A new dependency is discovered, recorded and appended. */
  lemma EnqueuedPush(current: Service, done: set<Service>,
                     visited: set<Service>, previous: map<Service, Service>, queue: seq<Service>,
                     visited': set<Service>, previous': map<Service, Service>, queue': seq<Service>,
                     dependency: Service)
    requires Enqueued(current, done, visited, previous, queue, visited', previous', queue')
    requires previous.Keys <= visited && dependency !in visited'
    ensures Enqueued(current, done + {dependency}, visited, previous, queue,
                     visited' + {dependency}, previous'[dependency := current], queue' + [dependency])
  {
    var q := queue' + [dependency];
    assert q[..|queue|] == queue'[..|queue|];
    assert q[|queue|..] == queue'[|queue|..] + [dependency];
  }

  /** The invariant of the `for` loop below, with `deps` the dependencies
      still to handle and `done` those handled. */
  ghost predicate EnqueueLoop(adj: Adjacency, source: Service, target: Service, current: Service, m: nat,
                              deps: set<Service>, done: set<Service>,
                              visited: set<Service>, previous: map<Service, Service>, queue: seq<Service>,
                              visited': set<Service>, previous': map<Service, Service>,
                              queue': seq<Service>, dist': map<Service, nat>)
    requires current in adj
  {
    && Expanding(adj, source, target, current, m, visited', previous', queue', dist')
    && deps <= adj[current] && done == adj[current] - deps
    && Enqueued(current, done, visited, previous, queue, visited', previous', queue')
  }

  lemma EnqueueLoopSkip(adj: Adjacency, source: Service, target: Service, current: Service, m: nat,
                        deps: set<Service>, done: set<Service>,
                        visited: set<Service>, previous: map<Service, Service>, queue: seq<Service>,
                        visited': set<Service>, previous': map<Service, Service>,
                        queue': seq<Service>, dist': map<Service, nat>, dependency: Service)
    requires Closed(adj) && current in adj && previous.Keys <= visited
    requires EnqueueLoop(adj, source, target, current, m, deps, done, visited, previous, queue,
                         visited', previous', queue', dist')
    requires dependency in deps && dependency in visited'
    ensures EnqueueLoop(adj, source, target, current, m, deps - {dependency}, done + {dependency},
                        visited, previous, queue, visited', previous', queue', dist')
  {
    EnqueuedSkip(current, done, visited, previous, queue, visited', previous', queue', dependency);
  }

  lemma EnqueueLoopPush(adj: Adjacency, source: Service, target: Service, current: Service, m: nat,
                        deps: set<Service>, done: set<Service>,
                        visited: set<Service>, previous: map<Service, Service>, queue: seq<Service>,
                        visited': set<Service>, previous': map<Service, Service>,
                        queue': seq<Service>, dist': map<Service, nat>, dependency: Service)
    requires Closed(adj) && current in adj && previous.Keys <= visited
    requires EnqueueLoop(adj, source, target, current, m, deps, done, visited, previous, queue,
                         visited', previous', queue', dist')
    requires dependency in deps && dependency !in visited'
    ensures EnqueueLoop(adj, source, target, current, m, deps - {dependency}, done + {dependency},
                        visited, previous, queue, visited' + {dependency}, previous'[dependency := current],
                        queue' + [dependency], dist'[dependency := m + 1])
  {
    EnqueuedPush(current, done, visited, previous, queue, visited', previous', queue', dependency);
    ExpandingGrows(adj, source, target, current, m, visited', previous', queue', dist', dependency);
  }

  lemma NoMemberEmpty(s: seq<Service>)
    ensures (forall x :: x !in s) ==> s == []
  {
    if s != [] {
      assert s[0] in s;
    }
  }

  /** Once every dependency is handled, either a new service was discovered
      or nothing changed. */
  lemma EnqueuedProgress(adj: Adjacency, current: Service,
                         visited: set<Service>, previous: map<Service, Service>, queue: seq<Service>,
                         visited': set<Service>, previous': map<Service, Service>, queue': seq<Service>)
    requires Closed(adj) && current in adj
    requires Enqueued(current, adj[current], visited, previous, queue, visited', previous', queue')
    ensures adj.Keys - visited' < adj.Keys - visited || (visited' == visited && queue' == queue)
  {
    if adj[current] <= visited {
      var added := queue'[|queue|..];
      assert forall x :: x in added ==> x in adj[current] && x !in visited;
      NoMemberEmpty(added);
      assert queue' == queue'[..|queue|] + added;
    } else {
      var d :| d in adj[current] && d !in visited;
      assert d in adj.Keys - visited && d !in adj.Keys - visited';
    }
  }

  /** The `for` loop of the search: every dependency of `current` not yet
      discovered is recorded with `current` as its predecessor and appended
      to the queue, and nothing else changes. Afterwards `current` is
      finished (all its dependencies discovered). */
  method EnqueueDependencies(adj: Adjacency, source: Service, target: Service, current: Service,
                             visited: set<Service>, previous: map<Service, Service>,
                             queue: seq<Service>, ghost dist: map<Service, nat>)
    returns (visited': set<Service>, previous': map<Service, Service>,
             queue': seq<Service>, ghost dist': map<Service, nat>)
    requires Closed(adj) && current in dist
    requires Expanding(adj, source, target, current, dist[current], visited, previous, queue, dist)
    ensures SearchTree(adj, source, visited', previous', dist')
    ensures Layered(queue', dist')
    ensures visited <= visited'
    ensures adj.Keys - visited' < adj.Keys - visited || (visited' == visited && queue' == queue)
    ensures forall x :: x in queue' ==> x in visited'
    ensures forall v :: v in visited' && v !in queue' ==> adj[v] <= visited'
    ensures target in visited' ==> target in queue'
    ensures visited' == visited + adj[current]
    ensures adj[current] <= visited'
    ensures Enqueued(current, adj[current], visited, previous, queue, visited', previous', queue')
  {
    ghost var m := dist[current];
    visited', previous', queue', dist' := visited, previous, queue, dist;
    var deps := adj[current];
    ghost var done: set<Service> := {};
    while deps != {}
      invariant EnqueueLoop(adj, source, target, current, m, deps, done, visited, previous, queue,
                            visited', previous', queue', dist')
      decreases deps
    {
      var dependency :| dependency in deps;
      if dependency in visited' {
        EnqueueLoopSkip(adj, source, target, current, m, deps, done, visited, previous, queue,
                        visited', previous', queue', dist', dependency);
      } else {
        EnqueueLoopPush(adj, source, target, current, m, deps, done, visited, previous, queue,
                        visited', previous', queue', dist', dependency);
        visited' := visited' + {dependency};
        previous' := previous'[dependency := current];
        queue' := queue' + [dependency];
        dist' := dist'[dependency := m + 1];
      }
      deps := deps - {dependency};
      done := done + {dependency};
    }
    LayerNext(queue', dist', m);
    EnqueuedProgress(adj, current, visited, previous, queue, visited', previous', queue');
  }

  /** `findAndCachePropagationPath` without the caching: breadth-first search
      from `source`, stopping when `target` leaves the queue. */
  method ShortestPath(adj: Adjacency, source: Service, target: Service) returns (path: seq<Service>)
    requires Closed(adj) && source in adj && target in adj
    ensures IsPropagationPath(adj, source, target, path)
  {
    var previous: map<Service, Service> := map[];
    var queue: seq<Service> := [source];
    var visited: set<Service> := {source};
    ghost var dist: map<Service, nat> := map[source := 0];
    SearchTreeStart(adj, source);

    while queue != []
      invariant SearchTree(adj, source, visited, previous, dist)
      invariant Layered(queue, dist)
      invariant forall x :: x in queue ==> x in visited
      invariant forall v :: v in visited && v !in queue ==> adj[v] <= visited
      invariant target in visited ==> target in queue
      decreases adj.Keys - visited, |queue|
    {
      var current := queue[0];
      LayerTail(queue, dist);
      queue := queue[1..];
      if current == target {
        PathFromSearchTree(adj, source, target, visited, previous, dist);
        path := ReconstructPath(previous, target, dist);
        return;
      }
      visited, previous, queue, dist := EnqueueDependencies(adj, source, target, current, visited, previous, queue, dist);
    }
    ClosedSetExcludes(adj, visited, source, target);
    path := [];
  }

  // ---------------------------------------------------------------------------
  // Affected services (depth-first search)

  /** `findAndCacheAffectedServices` without the caching: depth-first search
      from `source` with an explicit stack. The source keeps two sets,
      `affected` and `visited`, which always hold the same services. */
  method AffectedServices(adj: Adjacency, source: Service) returns (affected: set<Service>)
    requires Closed(adj) && source in adj
    ensures source in affected
    ensures affected == ReachableFrom(adj, source)
  {
    affected := {source};
    var visited: set<Service> := {source};
    var stack: seq<Service> := [source];
    assert IsWalk(adj, [source], source, source);

    while stack != []
      invariant affected == visited
      invariant visited <= adj.Keys && source in visited
      invariant forall x :: x in stack ==> x in visited
      invariant forall v :: v in visited && v !in stack ==> adj[v] <= visited
      invariant forall v :: v in visited ==> Reachable(adj, source, v)
      decreases adj.Keys - visited, |stack|
    {
      var current := stack[|stack| - 1];
      stack := stack[..|stack| - 1];
      ghost var visited0, stack0 := visited, stack;
      var deps := adj[current];
      while deps != {}
        invariant affected == visited
        invariant visited0 <= visited <= adj.Keys && (visited == visited0 ==> stack == stack0)
        invariant current in visited
        invariant deps <= adj[current] && adj[current] - deps <= visited
        invariant forall x :: x in stack ==> x in visited
        invariant forall v :: v in visited && v !in stack && v != current ==> adj[v] <= visited
        invariant forall v :: v in visited ==> Reachable(adj, source, v)
        decreases deps
      {
        var dependency :| dependency in deps;
        deps := deps - {dependency};
        if dependency !in visited {
          ReachableStep(adj, source, current, dependency);
          visited := visited + {dependency};
          affected := affected + {dependency};
          stack := stack + [dependency];
        }
      }
    }
    ClosedReachableSet(adj, visited, source);
  }

  // ---------------------------------------------------------------------------
  // Containment edges (confined depth-first search from every member)

  /** The edges from the members of `from` to services outside `S`. */
  function BoundaryFrom(adj: Adjacency, S: set<Service>, from: set<Service>): (r: set<Edge>)
    ensures forall e :: e in r <==> e.source in from && e.source in adj && e.target in adj[e.source] && e.target !in S
  {
    set u, v | u in from && u in adj && v in adj[u] && v !in S :: Edge(u, v)
  }

  /** Visiting one more member adds exactly its edges that leave `S`. */
  lemma BoundaryFromAdd(adj: Adjacency, S: set<Service>, from: set<Service>, u: Service)
    requires u in adj
    ensures BoundaryFrom(adj, S, from + {u}) == BoundaryFrom(adj, S, from) + (set d | d in adj[u] && d !in S :: Edge(u, d))
  {
  }

  /** Once every member of `S` is covered, the edges found are the boundary of `S`. */
  lemma BoundaryFromAll(adj: Adjacency, S: set<Service>)
    ensures BoundaryFrom(adj, S, S) == Boundary(adj, S)
  {
    forall e | e in Boundary(adj, S)
      ensures e in BoundaryFrom(adj, S, S)
    {
      assert e == Edge(e.source, e.target);
    }
  }

  /** `findAndCacheContainmentEdges` without the caching: from every member
      of `services`, a depth-first search that only steps to members, adding
      each edge from a visited member to a non-member. */
  method ContainmentEdges(adj: Adjacency, services: set<Service>) returns (edges: set<Edge>)
    requires Closed(adj) && services <= adj.Keys
    ensures edges == Boundary(adj, services)
  {
    edges := {};
    var servicesSet := services;
    var starts := servicesSet;
    ghost var covered: set<Service> := {};
    while starts != {}
      invariant starts <= servicesSet
      invariant servicesSet - starts <= covered <= servicesSet
      invariant edges == BoundaryFrom(adj, servicesSet, covered)
      decreases starts
    {
      var start :| start in starts;
      starts := starts - {start};
      var visited: set<Service> := {};
      var stack: seq<Service> := [start];
      while stack != []
        invariant visited <= servicesSet
        invariant forall x :: x in stack ==> x in servicesSet
        invariant start in visited || stack == [start]
        invariant edges == BoundaryFrom(adj, servicesSet, covered + visited)
        decreases servicesSet - visited, |stack|
      {
        var current := stack[|stack| - 1];
        stack := stack[..|stack| - 1];
        if current !in visited {
          BoundaryFromAdd(adj, servicesSet, covered + visited, current);
          assert covered + (visited + {current}) == covered + visited + {current};
          visited := visited + {current};
          edges := edges + (set dep | dep in adj[current] && dep !in servicesSet :: Edge(current, dep));
          var deps := adj[current];
          while deps != {}
            invariant forall x :: x in stack ==> x in servicesSet
            decreases deps
          {
            var dep :| dep in deps;
            deps := deps - {dep};
            if dep in servicesSet {
              stack := stack + [dep];
            }
          }
        }
      }
      covered := covered + visited;
    }
    BoundaryFromAll(adj, services);
  }

  // ---------------------------------------------------------------------------
  // Dependency-first order (depth-first topological sort)

  /** Why `reconstructOrder` fails. */
  datatype OrderError = CircularDependency

  /** What `topologicalSort` threads through its calls: the finished services
      (`visited`, listed in `order` in finishing order, their dependencies all
      finished and listed first) and the services on the current call chain
      (`temp`). */
  ghost predicate SortState(adj: Adjacency, visited: set<Service>, temp: set<Service>, order: seq<Service>)
  {
    && visited <= adj.Keys
    && temp <= adj.Keys
    && visited !! temp
    && (forall i, j :: 0 <= i < j < |order| ==> order[i] != order[j])
    && (forall v :: v in visited <==> v in order)
    && (forall v :: v in visited ==> adj[v] <= visited)
    && (forall i, j :: 0 <= i <= j < |order| && order[i] in adj ==> order[j] !in adj[order[i]])
  }

  /** Each service of `chain` depends on the next. */
  ghost predicate IsChain(adj: Adjacency, chain: seq<Service>)
  {
    forall i :: 0 <= i < |chain| - 1 ==> chain[i] in adj && chain[i + 1] in adj[chain[i]]
  }

  /** Meeting a service of the current call chain again closes a cycle. */
  lemma CycleThroughChain(adj: Adjacency, chain: seq<Service>, service: Service)
    requires IsChain(adj, chain) && service in chain
    requires chain[|chain| - 1] in adj && service in adj[chain[|chain| - 1]]
    ensures HasCycle(adj)
  {
    var k :| 0 <= k < |chain| && chain[k] == service;
    var w := chain[k..] + [service];
    forall i | 0 <= i < |w| - 1
      ensures w[i] in adj && w[i + 1] in adj[w[i]]
    {
      if i < |w| - 2 {
        assert w[i] == chain[k + i] && w[i + 1] == chain[k + i + 1];
      } else {
        assert w[i] == chain[|chain| - 1];
      }
    }
    assert IsWalk(adj, w, service, service);
  }

  /** `topologicalSort`: depth-first visit of `service` that appends it to
      `order` after all its dependencies; `false` reports a cycle. The Java
      sets and list it mutates are passed in and handed back. The ghost
      `chain` lists the services of `temp` in call order. */
  method TopologicalSort(adj: Adjacency, service: Service, visited: set<Service>, temp: set<Service>,
                         order: seq<Service>, ghost chain: seq<Service>)
    returns (acyclic: bool, visited': set<Service>, temp': set<Service>, order': seq<Service>)
    requires Closed(adj) && service in adj
    requires SortState(adj, visited, temp, order)
    requires IsChain(adj, chain) && (forall v :: v in temp <==> v in chain)
    requires chain != [] ==> chain[|chain| - 1] in adj && service in adj[chain[|chain| - 1]]
    ensures acyclic ==> SortState(adj, visited', temp', order') && temp' == temp
    ensures acyclic ==> service in visited' && visited <= visited'
    ensures !acyclic ==> HasCycle(adj)
    decreases adj.Keys - visited - temp
  {
    if service in temp {
      CycleThroughChain(adj, chain, service);
      return false, visited, temp, order;
    }
    if service in visited {
      return true, visited, temp, order;
    }
    visited', temp', order' := visited, temp + {service}, order;
    var deps := adj[service];
    while deps != {}
      invariant SortState(adj, visited', temp', order') && temp' == temp + {service}
      invariant visited <= visited'
      invariant deps <= adj[service] && adj[service] - deps <= visited'
      decreases deps
    {
      var dependency :| dependency in deps;
      deps := deps - {dependency};
      var ok;
      ok, visited', temp', order' := TopologicalSort(adj, dependency, visited', temp', order', chain + [service]);
      if !ok {
        return false, visited', temp', order';
      }
    }
    temp' := temp' - {service};
    visited' := visited' + {service};
    order' := order' + [service];
    acyclic := true;
  }
}
