/** `com.allert.AlertNetworkImpl`: the second copy of the alert-network
    engine. It keeps the same two maps (named `serviceDependencies` and
    `reverseServiceDependencies`), the same validation order and the same
    cache discipline as `AllertSystem`; its containment edges are
    `AlertPropagation` records, which have the shape of `Graph.Edge`, and its
    depth-first sort reports `true` for a cycle. */
module Allert {
  import opened Wrappers
  import opened Graph
  import opened Validation
  import opened Keys
  import opened Cache
  import Traversal

  /** `record AlertPropagation(String source, String target)`: one edge of
      the dependency graph, the same pair as `Graph.Edge`. */
  type AlertPropagation = Edge

  class AlertNetworkImpl {
    var serviceDependencies: Adjacency
    var reverseServiceDependencies: Adjacency
    const cache: NetworkCache

    /** What every public operation keeps: dependencies are services, no
        service name is blank, the reverse map mirrors the forward one, and
        every cached answer is right for the current graph. */
    ghost predicate Valid()
      reads this, cache
    {
      && Closed(serviceDependencies)
      && (forall s :: s in serviceDependencies ==> !IsBlank(s))
      && IsReverse(serviceDependencies, reverseServiceDependencies)
      && cache.Coherent(serviceDependencies)
    }

    constructor ()
      ensures Valid()
      ensures serviceDependencies == map[] && reverseServiceDependencies == map[]
      ensures fresh(cache) && cache.IsEmpty()
    {
      serviceDependencies := map[];
      reverseServiceDependencies := map[];
      cache := new NetworkCache();
    }

    /** `addService`: registers a service with no dependencies; registering
        an existing one keeps its dependencies. The cache is cleared either
        way. */
    method AddService(serviceName: Option<string>) returns (r: Outcome<ValidationError>)
      requires Valid()
      modifies this, cache
      ensures Valid()
      ensures r == ValidateServiceName(serviceName)
      ensures r.Fail? ==> unchanged(this, cache)
      ensures r.Pass? ==> serviceDependencies == if serviceName.value in old(serviceDependencies) then old(serviceDependencies)
                                           else old(serviceDependencies)[serviceName.value := {}]
      ensures r.Pass? ==> reverseServiceDependencies == if serviceName.value in old(reverseServiceDependencies) then old(reverseServiceDependencies)
                                                  else old(reverseServiceDependencies)[serviceName.value := {}]
      ensures r.Pass? ==> cache.IsEmpty()
    {
      r := ValidateServiceName(serviceName);
      if r.Fail? {
        return;
      }
      var name := serviceName.value;
      if name !in serviceDependencies {
        AddServiceKeepsReverse(serviceDependencies, reverseServiceDependencies, name);
        serviceDependencies := serviceDependencies[name := {}];
      }
      if name !in reverseServiceDependencies {
        reverseServiceDependencies := reverseServiceDependencies[name := {}];
      }
      cache.Clear();
    }

    /** `addDependency`: records that `serviceName` depends on
        `dependencyName`. Both names are checked for blankness, then both for
        existence, in that order; adding an existing edge changes no map but
        still clears the cache. */
    method AddDependency(serviceName: Option<string>, dependencyName: Option<string>) returns (r: Outcome<ValidationError>)
      requires Valid()
      modifies this, cache
      ensures Valid()
      ensures r.Pass? <==> serviceName.Some? && dependencyName.Some?
                           && serviceName.value in old(serviceDependencies) && dependencyName.value in old(serviceDependencies)
      ensures r == Fail(BlankName) <==> ValidateServiceName(serviceName).Fail? || ValidateServiceName(dependencyName).Fail?
      ensures r.Fail? && r.error != BlankName ==>
                serviceName.Some? && dependencyName.Some? &&
                r.error == UnknownService(if serviceName.value !in old(serviceDependencies) then serviceName.value else dependencyName.value)
      ensures r.Fail? ==> unchanged(this, cache)
      ensures r.Pass? ==> serviceDependencies == old(serviceDependencies)[serviceName.value := old(serviceDependencies)[serviceName.value] + {dependencyName.value}]
      ensures r.Pass? ==> reverseServiceDependencies == old(reverseServiceDependencies)[dependencyName.value := old(reverseServiceDependencies)[dependencyName.value] + {serviceName.value}]
      ensures r.Pass? ==> cache.IsEmpty()
    {
      r := ValidateServiceName(serviceName);
      if r.Fail? {
        return;
      }
      r := ValidateServiceName(dependencyName);
      if r.Fail? {
        return;
      }
      r := ValidateServiceExists(serviceDependencies, serviceName.value);
      if r.Fail? {
        return;
      }
      r := ValidateServiceExists(serviceDependencies, dependencyName.value);
      if r.Fail? {
        return;
      }
      var service, dependency := serviceName.value, dependencyName.value;
      AddEdgeKeepsReverse(serviceDependencies, reverseServiceDependencies, service, dependency);
      serviceDependencies := serviceDependencies[service := serviceDependencies[service] + {dependency}];
      reverseServiceDependencies := reverseServiceDependencies[dependency := reverseServiceDependencies[dependency] + {service}];
      cache.Clear();
    }

    /** `getDependencies`: the direct dependencies of a service (an
        immutable `Set.copyOf` in Java; a value here). */
    method GetDependencies(serviceName: Option<string>) returns (r: Result<set<Service>, ValidationError>)
      requires Valid()
      ensures r.Success? <==> serviceName.Some? && serviceName.value in serviceDependencies
      ensures r.Success? ==> r.value == serviceDependencies[serviceName.value]
      ensures r.Failure? ==>
                r.error == if ValidateServiceName(serviceName).Fail? then BlankName else UnknownService(serviceName.value)
    {
      var check := ValidateServiceName(serviceName);
      if check.Fail? {
        return Failure(check.error);
      }
      check := ValidateServiceExists(serviceDependencies, serviceName.value);
      if check.Fail? {
        return Failure(check.error);
      }
      return Success(serviceDependencies[serviceName.value]);
    }

    /** `findAlertPropagationPath`: a shortest path listed target first, or
        the empty list when the target is unreachable. The answer always
        answers SOME query with the same cache key; it answers this very query
        when it was computed now or when no service name contains "->". */
    method FindAlertPropagationPath(sourceService: Option<string>, targetService: Option<string>)
      returns (r: Result<seq<Service>, ValidationError>)
      requires Valid()
      modifies cache
      ensures Valid()
      ensures r.Success? <==> sourceService.Some? && targetService.Some?
                              && sourceService.value in serviceDependencies && targetService.value in serviceDependencies
      ensures r.Failure? ==>
                r.error == if ValidateServiceName(sourceService).Fail? || ValidateServiceName(targetService).Fail? then BlankName
                           else UnknownService(if sourceService.value !in serviceDependencies then sourceService.value else targetService.value)
      ensures r.Success? ==> PathEntry(serviceDependencies, PathKey(sourceService.value, targetService.value), r.value)
      ensures r.Success? && PathKey(sourceService.value, targetService.value) !in old(cache.propagationPathCache) ==>
                IsPropagationPath(serviceDependencies, sourceService.value, targetService.value, r.value)
      ensures r.Success? && (forall v :: v in serviceDependencies ==> NoArrow(v)) ==>
                IsPropagationPath(serviceDependencies, sourceService.value, targetService.value, r.value)
      ensures r.Success? ==>
                cache.propagationPathCache == old(cache.propagationPathCache)[PathKey(sourceService.value, targetService.value) := r.value]
      ensures r.Failure? ==> cache.propagationPathCache == old(cache.propagationPathCache)
      ensures cache.affectedServicesCache == old(cache.affectedServicesCache)
      ensures cache.containmentEdgesCache == old(cache.containmentEdgesCache)
    {
      var check := ValidateServiceName(sourceService);
      if check.Fail? {
        return Failure(check.error);
      }
      check := ValidateServiceName(targetService);
      if check.Fail? {
        return Failure(check.error);
      }
      check := ValidateServiceExists(serviceDependencies, sourceService.value);
      if check.Fail? {
        return Failure(check.error);
      }
      check := ValidateServiceExists(serviceDependencies, targetService.value);
      if check.Fail? {
        return Failure(check.error);
      }
      var source, target := sourceService.value, targetService.value;
      var cached := cache.GetPropagationPath(source, target);
      if cached.Some? {
        UpdateWithSameValue(cache.propagationPathCache, PathKey(source, target));
        if forall v :: v in serviceDependencies ==> NoArrow(v) {
          PathEntryExact(serviceDependencies, source, target, cached.value);
        }
        return Success(cached.value);
      }
      var path := FindPropagationPath(source, target);
      return Success(path);
    }

    /** `findPropagationPath`: breadth-first search, then store. */
    method FindPropagationPath(source: Service, target: Service) returns (path: seq<Service>)
      requires Valid() && source in serviceDependencies && target in serviceDependencies
      modifies cache
      ensures Valid()
      ensures IsPropagationPath(serviceDependencies, source, target, path)
      ensures cache.propagationPathCache == old(cache.propagationPathCache)[PathKey(source, target) := path]
      ensures cache.affectedServicesCache == old(cache.affectedServicesCache)
      ensures cache.containmentEdgesCache == old(cache.containmentEdgesCache)
    {
      path := Traversal.ShortestPath(serviceDependencies, source, target);
      PathsCoherentPut(serviceDependencies, cache.propagationPathCache, source, target, path);
      cache.PutPropagationPath(source, target, path);
    }

    /** `getAffectedServices`: every service an alert at `serviceName` can
        reach along dependency edges, itself included. The cache key is the
        name itself, so a cached answer is always this query's answer. */
    method GetAffectedServices(serviceName: Option<string>) returns (r: Result<set<Service>, ValidationError>)
      requires Valid()
      modifies cache
      ensures Valid()
      ensures r.Success? <==> serviceName.Some? && serviceName.value in serviceDependencies
      ensures r.Failure? ==>
                r.error == if ValidateServiceName(serviceName).Fail? then BlankName else UnknownService(serviceName.value)
      ensures r.Success? ==> r.value == ReachableFrom(serviceDependencies, serviceName.value)
      ensures r.Success? ==> cache.affectedServicesCache == old(cache.affectedServicesCache)[serviceName.value := r.value]
      ensures r.Failure? ==> cache.affectedServicesCache == old(cache.affectedServicesCache)
      ensures cache.propagationPathCache == old(cache.propagationPathCache)
      ensures cache.containmentEdgesCache == old(cache.containmentEdgesCache)
    {
      var check := ValidateServiceName(serviceName);
      if check.Fail? {
        return Failure(check.error);
      }
      check := ValidateServiceExists(serviceDependencies, serviceName.value);
      if check.Fail? {
        return Failure(check.error);
      }
      var name := serviceName.value;
      var cached := cache.GetAffectedServices(name);
      if cached.Some? {
        UpdateWithSameValue(cache.affectedServicesCache, name);
        return Success(cached.value);
      }
      var affected := FindAndCacheAffectedServices(name);
      return Success(affected);
    }

    /** `findAndCacheAffectedServices`: depth-first search, then store. */
    method FindAndCacheAffectedServices(serviceName: Service) returns (affected: set<Service>)
      requires Valid() && serviceName in serviceDependencies
      modifies cache
      ensures Valid()
      ensures affected == ReachableFrom(serviceDependencies, serviceName)
      ensures cache.affectedServicesCache == old(cache.affectedServicesCache)[serviceName := affected]
      ensures cache.propagationPathCache == old(cache.propagationPathCache)
      ensures cache.containmentEdgesCache == old(cache.containmentEdgesCache)
    {
      affected := Traversal.AffectedServices(serviceDependencies, serviceName);
      AffectedCoherentPut(serviceDependencies, cache.affectedServicesCache, serviceName);
      cache.PutAffectedServices(serviceName, affected);
    }

    /** `suggestContainmentEdges`: the edges to cut so that an alert inside
        `services` cannot leave it. The answer is always the boundary of SOME
        non-empty set of services with the same cache key; it is the boundary
        of `services` itself when it was computed now or when no service name
        contains ",". */
    method SuggestContainmentEdges(services: Option<set<Service>>) returns (r: Result<set<AlertPropagation>, ValidationError>)
      requires Valid()
      modifies cache
      ensures Valid()
      ensures r.Success? <==> services.Some? && services.value != {} && services.value <= serviceDependencies.Keys
      ensures r == Failure(EmptyServiceSet) <==> services.None? || services.value == {}
      ensures r.Failure? && r.error != EmptyServiceSet ==>
                r.error.UnknownService? && services.Some? && r.error.name in services.value && r.error.name !in serviceDependencies
      ensures r.Success? ==> ContainmentEntry(serviceDependencies, ServicesKey(services.value), r.value)
      ensures r.Success? && ServicesKey(services.value) !in old(cache.containmentEdgesCache) ==>
                r.value == Boundary(serviceDependencies, services.value)
      ensures r.Success? && (forall v :: v in serviceDependencies ==> NoComma(v)) ==>
                r.value == Boundary(serviceDependencies, services.value)
      ensures r.Success? ==>
                cache.containmentEdgesCache == old(cache.containmentEdgesCache)[ServicesKey(services.value) := r.value]
      ensures r.Failure? ==> cache.containmentEdgesCache == old(cache.containmentEdgesCache)
      ensures cache.affectedServicesCache == old(cache.affectedServicesCache)
      ensures cache.propagationPathCache == old(cache.propagationPathCache)
    {
      var check := ValidateServicesSet(serviceDependencies, services);
      if check.Fail? {
        return Failure(check.error);
      }
      var edges := CachedContainmentEdges(services.value);
      return Success(edges);
    }

    /** `cache.getContainmentEdges(services).orElseGet(...)`: the cached
        answer under the set's key, or a freshly computed and stored one. */
    method CachedContainmentEdges(services: set<Service>) returns (edges: set<AlertPropagation>)
      requires Valid() && services != {} && services <= serviceDependencies.Keys
      modifies cache
      ensures Valid()
      ensures ContainmentEntry(serviceDependencies, ServicesKey(services), edges)
      ensures ServicesKey(services) !in old(cache.containmentEdgesCache) ==> edges == Boundary(serviceDependencies, services)
      ensures (forall v :: v in serviceDependencies ==> NoComma(v)) ==> edges == Boundary(serviceDependencies, services)
      ensures cache.containmentEdgesCache == old(cache.containmentEdgesCache)[ServicesKey(services) := edges]
      ensures cache.affectedServicesCache == old(cache.affectedServicesCache)
      ensures cache.propagationPathCache == old(cache.propagationPathCache)
    {
      var cached := cache.GetContainmentEdges(services);
      if cached.Some? {
        UpdateWithSameValue(cache.containmentEdgesCache, ServicesKey(services));
        if forall v :: v in serviceDependencies ==> NoComma(v) {
          ContainmentEntryExact(serviceDependencies, services, cached.value);
        }
        return cached.value;
      }
      edges := FindAndCacheContainmentEdges(services);
      assert ContainmentEntry(serviceDependencies, ServicesKey(services), edges);
    }

    /** `findAndCacheContainmentEdges`: confined searches, then store. */
    method FindAndCacheContainmentEdges(services: set<Service>) returns (edges: set<AlertPropagation>)
      requires Valid() && services != {} && services <= serviceDependencies.Keys
      modifies cache
      ensures Valid()
      ensures edges == Boundary(serviceDependencies, services)
      ensures cache.containmentEdgesCache == old(cache.containmentEdgesCache)[ServicesKey(services) := edges]
      ensures cache.affectedServicesCache == old(cache.affectedServicesCache)
      ensures cache.propagationPathCache == old(cache.propagationPathCache)
    {
      edges := Traversal.ContainmentEdges(serviceDependencies, services);
      ContainmentCoherentPut(serviceDependencies, cache.containmentEdgesCache, services);
      cache.PutContainmentEdges(services, edges);
    }

    /** `reconstructOrder`: every service once, each after all of its
        dependencies; fails exactly when the dependencies form a cycle. */
    method ReconstructOrder() returns (r: Result<seq<Service>, Traversal.OrderError>)
      requires Valid()
      ensures r.Success? <==> !HasCycle(serviceDependencies)
      ensures r.Success? ==> IsDependencyFirstOrder(serviceDependencies, r.value)
      ensures r.Failure? ==> r.error == Traversal.CircularDependency
    {
      var visited: set<Service> := {};
      var temp: set<Service> := {};
      var order: seq<Service> := [];
      var remaining := serviceDependencies.Keys;
      while remaining != {}
        invariant remaining <= serviceDependencies.Keys
        invariant Traversal.SortState(serviceDependencies, visited, temp, order) && temp == {}
        invariant serviceDependencies.Keys - remaining <= visited
        decreases remaining
      {
        var service :| service in remaining;
        remaining := remaining - {service};
        if service !in visited {
          var cycle;
          cycle, visited, temp, order := TopologicalSort(service, visited, temp, order, []);
          if cycle {
            return Failure(Traversal.CircularDependency);
          }
        }
      }
      DependencyFirstOrderAcyclic(serviceDependencies, order);
      return Success(order);
    }

    /** `topologicalSort`, with `true` meaning "cycle found": a service met
        again while still in progress (`temp`) closes a cycle; a finished one
        is skipped; otherwise all dependencies are sorted first and the
        service is appended to `order`. `chain` is the (ghost) stack of
        services in progress, each depending on the next. */
    method TopologicalSort(service: Service, visited: set<Service>, temp: set<Service>,
                           order: seq<Service>, ghost chain: seq<Service>)
      returns (cycle: bool, visited': set<Service>, temp': set<Service>, order': seq<Service>)
      requires Closed(serviceDependencies) && service in serviceDependencies
      requires Traversal.SortState(serviceDependencies, visited, temp, order)
      requires Traversal.IsChain(serviceDependencies, chain) && (forall v :: v in temp <==> v in chain)
      requires chain != [] ==> chain[|chain| - 1] in serviceDependencies && service in serviceDependencies[chain[|chain| - 1]]
      ensures cycle ==> HasCycle(serviceDependencies)
      ensures !cycle ==> Traversal.SortState(serviceDependencies, visited', temp', order') && temp' == temp
      ensures !cycle ==> service in visited' && visited <= visited'
      decreases serviceDependencies.Keys - visited - temp
    {
      if service in temp {
        Traversal.CycleThroughChain(serviceDependencies, chain, service);
        return true, visited, temp, order;
      }
      if service in visited {
        return false, visited, temp, order;
      }
      visited', temp', order' := visited, temp + {service}, order;
      var deps := serviceDependencies[service];
      while deps != {}
        invariant Traversal.SortState(serviceDependencies, visited', temp', order') && temp' == temp + {service}
        invariant visited <= visited'
        invariant deps <= serviceDependencies[service] && serviceDependencies[service] - deps <= visited'
        decreases deps
      {
        var dependency :| dependency in deps;
        deps := deps - {dependency};
        var found;
        found, visited', temp', order' := TopologicalSort(dependency, visited', temp', order', chain + [service]);
        if found {
          return true, visited', temp', order';
        }
      }
      temp' := temp' - {service};
      visited' := visited' + {service};
      order' := order' + [service];
      cycle := false;
    }
  }
}
