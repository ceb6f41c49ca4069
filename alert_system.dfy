/** `com.allertSystem.AlertNetworkImpl`: the alert-network engine. It owns the
    dependency map, its reverse, and a cache of query answers. Mutators
    validate, update both maps and clear the cache; queries validate, answer
    from the cache when the key is present and otherwise compute, store and
    return. A Java `IllegalArgumentException` or `IllegalStateException` is a
    `Fail`/`Failure` value here, and a null argument is `None`. */
module AllertSystem {
  import opened Wrappers
  import opened Graph
  import opened Validation
  import opened Keys
  import opened Cache
  import Traversal

  class AlertNetworkImpl {
    var adjacencyList: Adjacency
    var reverseAdjacencyList: Adjacency
    const cache: NetworkCache

    /** What every public operation keeps: dependencies are services, no
        service name is blank, the reverse map mirrors the forward one, and
        every cached answer is right for the current graph. */
    ghost predicate Valid()
      reads this, cache
    {
      && Closed(adjacencyList)
      && (forall s :: s in adjacencyList ==> !IsBlank(s))
      && IsReverse(adjacencyList, reverseAdjacencyList)
      && cache.Coherent(adjacencyList)
    }

    constructor ()
      ensures Valid()
      ensures adjacencyList == map[] && reverseAdjacencyList == map[]
      ensures fresh(cache) && cache.IsEmpty()
    {
      adjacencyList := map[];
      reverseAdjacencyList := map[];
      cache := new NetworkCache();
    }

    /** `addService`: registers a service with no dependencies; registering
        an existing one keeps its dependencies. The cache is cleared either
        way. */
    method AddService(serviceName: Option<string>) returns (r: Outcome<ValidationError>)
      requires Valid()
      modifies this, cache
      ensures Valid()
      ensures r == ValidateServiceName(serviceName)
      ensures r.Fail? ==> unchanged(this, cache)
      ensures r.Pass? ==> adjacencyList == if serviceName.value in old(adjacencyList) then old(adjacencyList)
                                           else old(adjacencyList)[serviceName.value := {}]
      ensures r.Pass? ==> reverseAdjacencyList == if serviceName.value in old(reverseAdjacencyList) then old(reverseAdjacencyList)
                                                  else old(reverseAdjacencyList)[serviceName.value := {}]
      ensures r.Pass? ==> cache.IsEmpty()
    {
      r := ValidateServiceName(serviceName);
      if r.Fail? {
        return;
      }
      var name := serviceName.value;
      if name !in adjacencyList {
        AddServiceKeepsReverse(adjacencyList, reverseAdjacencyList, name);
        adjacencyList := adjacencyList[name := {}];
      }
      if name !in reverseAdjacencyList {
        reverseAdjacencyList := reverseAdjacencyList[name := {}];
      }
      cache.Clear();
    }

    /** `addDependency`: records that `serviceName` depends on
        `dependencyName`. Both names are checked for blankness, then both for
        existence, in that order; adding an existing edge changes no map but
        still clears the cache. */
    method AddDependency(serviceName: Option<string>, dependencyName: Option<string>) returns (r: Outcome<ValidationError>)
      requires Valid()
      modifies this, cache
      ensures Valid()
      ensures r.Pass? <==> serviceName.Some? && dependencyName.Some?
                           && serviceName.value in old(adjacencyList) && dependencyName.value in old(adjacencyList)
      ensures r == Fail(BlankName) <==> ValidateServiceName(serviceName).Fail? || ValidateServiceName(dependencyName).Fail?
      ensures r.Fail? && r.error != BlankName ==>
                serviceName.Some? && dependencyName.Some? &&
                r.error == UnknownService(if serviceName.value !in old(adjacencyList) then serviceName.value else dependencyName.value)
      ensures r.Fail? ==> unchanged(this, cache)
      ensures r.Pass? ==> adjacencyList == old(adjacencyList)[serviceName.value := old(adjacencyList)[serviceName.value] + {dependencyName.value}]
      ensures r.Pass? ==> reverseAdjacencyList == old(reverseAdjacencyList)[dependencyName.value := old(reverseAdjacencyList)[dependencyName.value] + {serviceName.value}]
      ensures r.Pass? ==> cache.IsEmpty()
    {
      r := ValidateServiceName(serviceName);
      if r.Fail? {
        return;
      }
      r := ValidateServiceName(dependencyName);
      if r.Fail? {
        return;
      }
      r := ValidateServiceExists(adjacencyList, serviceName.value);
      if r.Fail? {
        return;
      }
      r := ValidateServiceExists(adjacencyList, dependencyName.value);
      if r.Fail? {
        return;
      }
      var service, dependency := serviceName.value, dependencyName.value;
      AddEdgeKeepsReverse(adjacencyList, reverseAdjacencyList, service, dependency);
      adjacencyList := adjacencyList[service := adjacencyList[service] + {dependency}];
      reverseAdjacencyList := reverseAdjacencyList[dependency := reverseAdjacencyList[dependency] + {service}];
      cache.Clear();
    }

    /** `getDependencies`: the direct dependencies of a service. */
    method GetDependencies(serviceName: Option<string>) returns (r: Result<set<Service>, ValidationError>)
      requires Valid()
      ensures r.Success? <==> serviceName.Some? && serviceName.value in adjacencyList
      ensures r.Success? ==> r.value == adjacencyList[serviceName.value]
      ensures r.Failure? ==>
                r.error == if ValidateServiceName(serviceName).Fail? then BlankName else UnknownService(serviceName.value)
    {
      var check := ValidateServiceName(serviceName);
      if check.Fail? {
        return Failure(check.error);
      }
      check := ValidateServiceExists(adjacencyList, serviceName.value);
      if check.Fail? {
        return Failure(check.error);
      }
      return Success(adjacencyList[serviceName.value]);
    }

    /** `findAlertPropagationPath`: a shortest path listed target first, or
        the empty list when the target is unreachable. The answer always
        answers SOME query with the same cache key; it answers this very query
        when it was computed now or when no service name contains "->". */
    method FindAlertPropagationPath(sourceService: Option<string>, targetService: Option<string>)
      returns (r: Result<seq<Service>, ValidationError>)
      requires Valid()
      modifies cache
      ensures Valid()
      ensures r.Success? <==> sourceService.Some? && targetService.Some?
                              && sourceService.value in adjacencyList && targetService.value in adjacencyList
      ensures r.Failure? ==>
                r.error == if ValidateServiceName(sourceService).Fail? || ValidateServiceName(targetService).Fail? then BlankName
                           else UnknownService(if sourceService.value !in adjacencyList then sourceService.value else targetService.value)
      ensures r.Success? ==> PathEntry(adjacencyList, PathKey(sourceService.value, targetService.value), r.value)
      ensures r.Success? && PathKey(sourceService.value, targetService.value) !in old(cache.propagationPathCache) ==>
                IsPropagationPath(adjacencyList, sourceService.value, targetService.value, r.value)
      ensures r.Success? && (forall v :: v in adjacencyList ==> NoArrow(v)) ==>
                IsPropagationPath(adjacencyList, sourceService.value, targetService.value, r.value)
      ensures r.Success? ==>
                cache.propagationPathCache == old(cache.propagationPathCache)[PathKey(sourceService.value, targetService.value) := r.value]
      ensures r.Failure? ==> cache.propagationPathCache == old(cache.propagationPathCache)
      ensures cache.affectedServicesCache == old(cache.affectedServicesCache)
      ensures cache.containmentEdgesCache == old(cache.containmentEdgesCache)
    {
      var check := ValidateServiceName(sourceService);
      if check.Fail? {
        return Failure(check.error);
      }
      check := ValidateServiceName(targetService);
      if check.Fail? {
        return Failure(check.error);
      }
      check := ValidateServiceExists(adjacencyList, sourceService.value);
      if check.Fail? {
        return Failure(check.error);
      }
      check := ValidateServiceExists(adjacencyList, targetService.value);
      if check.Fail? {
        return Failure(check.error);
      }
      var source, target := sourceService.value, targetService.value;
      var cached := cache.GetPropagationPath(source, target);
      if cached.Some? {
        UpdateWithSameValue(cache.propagationPathCache, PathKey(source, target));
        if forall v :: v in adjacencyList ==> NoArrow(v) {
          PathEntryExact(adjacencyList, source, target, cached.value);
        }
        return Success(cached.value);
      }
      var path := FindAndCachePropagationPath(source, target);
      return Success(path);
    }

    /** `findAndCachePropagationPath`: breadth-first search, then store. */
    method FindAndCachePropagationPath(source: Service, target: Service) returns (path: seq<Service>)
      requires Valid() && source in adjacencyList && target in adjacencyList
      modifies cache
      ensures Valid()
      ensures IsPropagationPath(adjacencyList, source, target, path)
      ensures cache.propagationPathCache == old(cache.propagationPathCache)[PathKey(source, target) := path]
      ensures cache.affectedServicesCache == old(cache.affectedServicesCache)
      ensures cache.containmentEdgesCache == old(cache.containmentEdgesCache)
    {
      path := Traversal.ShortestPath(adjacencyList, source, target);
      PathsCoherentPut(adjacencyList, cache.propagationPathCache, source, target, path);
      cache.PutPropagationPath(source, target, path);
    }

    /** `getAffectedServices`: every service an alert at `serviceName` can
        reach along dependency edges, itself included. The cache key is the
        name itself, so a cached answer is always this query's answer. */
    method GetAffectedServices(serviceName: Option<string>) returns (r: Result<set<Service>, ValidationError>)
      requires Valid()
      modifies cache
      ensures Valid()
      ensures r.Success? <==> serviceName.Some? && serviceName.value in adjacencyList
      ensures r.Failure? ==>
                r.error == if ValidateServiceName(serviceName).Fail? then BlankName else UnknownService(serviceName.value)
      ensures r.Success? ==> r.value == ReachableFrom(adjacencyList, serviceName.value)
      ensures r.Success? ==> cache.affectedServicesCache == old(cache.affectedServicesCache)[serviceName.value := r.value]
      ensures r.Failure? ==> cache.affectedServicesCache == old(cache.affectedServicesCache)
      ensures cache.propagationPathCache == old(cache.propagationPathCache)
      ensures cache.containmentEdgesCache == old(cache.containmentEdgesCache)
    {
      var check := ValidateServiceName(serviceName);
      if check.Fail? {
        return Failure(check.error);
      }
      check := ValidateServiceExists(adjacencyList, serviceName.value);
      if check.Fail? {
        return Failure(check.error);
      }
      var name := serviceName.value;
      var cached := cache.GetAffectedServices(name);
      if cached.Some? {
        UpdateWithSameValue(cache.affectedServicesCache, name);
        return Success(cached.value);
      }
      var affected := FindAndCacheAffectedServices(name);
      return Success(affected);
    }

    /** `findAndCacheAffectedServices`: depth-first search, then store. */
    method FindAndCacheAffectedServices(serviceName: Service) returns (affected: set<Service>)
      requires Valid() && serviceName in adjacencyList
      modifies cache
      ensures Valid()
      ensures affected == ReachableFrom(adjacencyList, serviceName)
      ensures cache.affectedServicesCache == old(cache.affectedServicesCache)[serviceName := affected]
      ensures cache.propagationPathCache == old(cache.propagationPathCache)
      ensures cache.containmentEdgesCache == old(cache.containmentEdgesCache)
    {
      affected := Traversal.AffectedServices(adjacencyList, serviceName);
      AffectedCoherentPut(adjacencyList, cache.affectedServicesCache, serviceName);
      cache.PutAffectedServices(serviceName, affected);
    }

    /** `suggestContainmentEdges`: the edges to cut so that an alert inside
        `services` cannot leave it. The answer is always the boundary of SOME
        non-empty set of services with the same cache key; it is the boundary
        of `services` itself when it was computed now or when no service name
        contains ",". */
    method SuggestContainmentEdges(services: Option<set<Service>>) returns (r: Result<set<Edge>, ValidationError>)
      requires Valid()
      modifies cache
      ensures Valid()
      ensures r.Success? <==> services.Some? && services.value != {} && services.value <= adjacencyList.Keys
      ensures r == Failure(EmptyServiceSet) <==> services.None? || services.value == {}
      ensures r.Failure? && r.error != EmptyServiceSet ==>
                r.error.UnknownService? && services.Some? && r.error.name in services.value && r.error.name !in adjacencyList
      ensures r.Success? ==> ContainmentEntry(adjacencyList, ServicesKey(services.value), r.value)
      ensures r.Success? && ServicesKey(services.value) !in old(cache.containmentEdgesCache) ==>
                r.value == Boundary(adjacencyList, services.value)
      ensures r.Success? && (forall v :: v in adjacencyList ==> NoComma(v)) ==>
                r.value == Boundary(adjacencyList, services.value)
      ensures r.Success? ==>
                cache.containmentEdgesCache == old(cache.containmentEdgesCache)[ServicesKey(services.value) := r.value]
      ensures r.Failure? ==> cache.containmentEdgesCache == old(cache.containmentEdgesCache)
      ensures cache.affectedServicesCache == old(cache.affectedServicesCache)
      ensures cache.propagationPathCache == old(cache.propagationPathCache)
    {
      var check := ValidateServicesSet(adjacencyList, services);
      if check.Fail? {
        return Failure(check.error);
      }
      var edges := CachedContainmentEdges(services.value);
      return Success(edges);
    }

    /** `cache.getContainmentEdges(services).orElseGet(...)`: the cached
        answer under the set's key, or a freshly computed and stored one. */
    method CachedContainmentEdges(services: set<Service>) returns (edges: set<Edge>)
      requires Valid() && services != {} && services <= adjacencyList.Keys
      modifies cache
      ensures Valid()
      ensures ContainmentEntry(adjacencyList, ServicesKey(services), edges)
      ensures ServicesKey(services) !in old(cache.containmentEdgesCache) ==> edges == Boundary(adjacencyList, services)
      ensures (forall v :: v in adjacencyList ==> NoComma(v)) ==> edges == Boundary(adjacencyList, services)
      ensures cache.containmentEdgesCache == old(cache.containmentEdgesCache)[ServicesKey(services) := edges]
      ensures cache.affectedServicesCache == old(cache.affectedServicesCache)
      ensures cache.propagationPathCache == old(cache.propagationPathCache)
    {
      var cached := cache.GetContainmentEdges(services);
      if cached.Some? {
        UpdateWithSameValue(cache.containmentEdgesCache, ServicesKey(services));
        if forall v :: v in adjacencyList ==> NoComma(v) {
          ContainmentEntryExact(adjacencyList, services, cached.value);
        }
        return cached.value;
      }
      edges := FindAndCacheContainmentEdges(services);
      assert ContainmentEntry(adjacencyList, ServicesKey(services), edges);
    }

    /** `findAndCacheContainmentEdges`: confined searches, then store. */
    method FindAndCacheContainmentEdges(services: set<Service>) returns (edges: set<Edge>)
      requires Valid() && services != {} && services <= adjacencyList.Keys
      modifies cache
      ensures Valid()
      ensures edges == Boundary(adjacencyList, services)
      ensures cache.containmentEdgesCache == old(cache.containmentEdgesCache)[ServicesKey(services) := edges]
      ensures cache.affectedServicesCache == old(cache.affectedServicesCache)
      ensures cache.propagationPathCache == old(cache.propagationPathCache)
    {
      edges := Traversal.ContainmentEdges(adjacencyList, services);
      ContainmentCoherentPut(adjacencyList, cache.containmentEdgesCache, services);
      cache.PutContainmentEdges(services, edges);
    }

    /** `reconstructOrder`: every service once, each after all of its
        dependencies; fails exactly when the dependencies form a cycle. */
    method ReconstructOrder() returns (r: Result<seq<Service>, Traversal.OrderError>)
      requires Valid()
      ensures r.Success? <==> !HasCycle(adjacencyList)
      ensures r.Success? ==> IsDependencyFirstOrder(adjacencyList, r.value)
      ensures r.Failure? ==> r.error == Traversal.CircularDependency
    {
      var visited: set<Service> := {};
      var temp: set<Service> := {};
      var order: seq<Service> := [];
      var remaining := adjacencyList.Keys;
      while remaining != {}
        invariant remaining <= adjacencyList.Keys
        invariant Traversal.SortState(adjacencyList, visited, temp, order) && temp == {}
        invariant adjacencyList.Keys - remaining <= visited
        decreases remaining
      {
        var service :| service in remaining;
        remaining := remaining - {service};
        if service !in visited {
          var acyclic;
          acyclic, visited, temp, order := Traversal.TopologicalSort(adjacencyList, service, visited, temp, order, []);
          if !acyclic {
            return Failure(Traversal.CircularDependency);
          }
        }
      }
      DependencyFirstOrderAcyclic(adjacencyList, order);
      return Success(order);
    }
  }
}
