/** `NetworkCache`: memoised results of the three expensive queries, one map
    per query kind, keyed by the strings of module Keys. Java's defensive
    copies (`new HashSet<>(...)`, `new ArrayList<>(...)`) have no counterpart
    here because Dafny sets and sequences are values: what is stored can never
    be changed through the caller's collection, nor through a returned one. */
module Cache {
  import opened Wrappers
  import opened Graph
  import opened Keys

  /** `Optional.ofNullable(map.get(key))`. */
  function Lookup<K, V>(m: map<K, V>, key: K): (r: Option<V>)
    ensures r.Some? <==> key in m
    ensures r.Some? ==> r.value == m[key]
  {
    if key in m then Some(m[key]) else None
  }

  /** Storing again the value already stored changes nothing. */
  lemma UpdateWithSameValue<K, V>(m: map<K, V>, key: K)
    requires key in m
    ensures m[key := m[key]] == m
  {
  }

  /** A path cached under `key` is the answer, on `adj`, to some path query
      whose key is `key`. */
  ghost predicate PathEntry(adj: Adjacency, key: string, p: seq<Service>)
  {
    exists s, t :: s in adj && t in adj && PathKey(s, t) == key && IsPropagationPath(adj, s, t, p)
  }

  /** An edge set cached under `key` is the answer, on `adj`, to some
      containment query whose key is `key`. */
  ghost predicate ContainmentEntry(adj: Adjacency, key: string, edges: set<Edge>)
  {
    exists S :: S != {} && S <= adj.Keys && ServicesKey(S) == key && edges == Boundary(adj, S)
  }

  ghost predicate AffectedCoherent(adj: Adjacency, m: map<string, set<Service>>)
  {
    forall k :: k in m ==> k in adj && m[k] == ReachableFrom(adj, k)
  }

  ghost predicate PathsCoherent(adj: Adjacency, m: map<string, seq<Service>>)
  {
    forall k :: k in m ==> PathEntry(adj, k, m[k])
  }

  ghost predicate ContainmentCoherent(adj: Adjacency, m: map<string, set<Edge>>)
  {
    forall k :: k in m ==> ContainmentEntry(adj, k, m[k])
  }

  /** Storing the reachability closure of `s` keeps the affected-services
      answers coherent. */
  lemma AffectedCoherentPut(adj: Adjacency, m: map<string, set<Service>>, s: Service)
    requires AffectedCoherent(adj, m) && s in adj
    ensures AffectedCoherent(adj, m[s := ReachableFrom(adj, s)])
  {
  }

  /** Storing the answer of the query from `s` to `t` keeps the paths coherent. */
  lemma PathsCoherentPut(adj: Adjacency, m: map<string, seq<Service>>, s: Service, t: Service, p: seq<Service>)
    requires PathsCoherent(adj, m)
    requires s in adj && t in adj && IsPropagationPath(adj, s, t, p)
    ensures PathsCoherent(adj, m[PathKey(s, t) := p])
  {
    assert PathEntry(adj, PathKey(s, t), p);
  }

  /** Storing the boundary of `S` keeps the containment answers coherent. */
  lemma ContainmentCoherentPut(adj: Adjacency, m: map<string, set<Edge>>, S: set<Service>)
    requires ContainmentCoherent(adj, m)
    requires S != {} && S <= adj.Keys
    ensures ContainmentCoherent(adj, m[ServicesKey(S) := Boundary(adj, S)])
  {
    assert ContainmentEntry(adj, ServicesKey(S), Boundary(adj, S));
  }

  /** When no service name contains "->", a cached path is the answer to the
      very query that looks it up. */
  lemma PathEntryExact(adj: Adjacency, s: Service, t: Service, p: seq<Service>)
    requires forall v :: v in adj ==> NoArrow(v)
    requires s in adj
    requires PathEntry(adj, PathKey(s, t), p)
    ensures IsPropagationPath(adj, s, t, p)
  {
    var s', t' :| s' in adj && t' in adj && PathKey(s', t') == PathKey(s, t) && IsPropagationPath(adj, s', t', p);
    PathKeyInjective(s', t', s, t);
  }

  /** With names containing "->", a coherent cache can answer a query with
      another query's path: the path from "a" to "b->c" is stored under the
      key of the query from "a->b" to "c", which has no path at all. */
  lemma PathEntryCollision()
    ensures var adj := map["a->b" := {}, "c" := {}, "a" := {"b->c"}, "b->c" := {}];
            && PathEntry(adj, PathKey("a->b", "c"), ["b->c", "a"])
            && !IsPropagationPath(adj, "a->b", "c", ["b->c", "a"])
  {
    var adj := map["a->b" := {}, "c" := {}, "a" := {"b->c"}, "b->c" := {}];
    assert IsWalk(adj, ["a", "b->c"], "a", "b->c");
    assert IsTargetFirstPath(adj, ["b->c", "a"], "a", "b->c");
    PathKeyCollision();
    assert IsPropagationPath(adj, "a", "b->c", ["b->c", "a"]);
  }

  /** When no service name contains ",", a cached edge set is the answer to
      the very query that looks it up. */
  lemma ContainmentEntryExact(adj: Adjacency, S: set<Service>, edges: set<Edge>)
    requires forall v :: v in adj ==> NoComma(v)
    requires S != {} && S <= adj.Keys
    requires ContainmentEntry(adj, ServicesKey(S), edges)
    ensures edges == Boundary(adj, S)
  {
    var S' :| S' != {} && S' <= adj.Keys && ServicesKey(S') == ServicesKey(S) && edges == Boundary(adj, S');
    ServicesKeyInjective(S', S);
  }

  /** With names containing ",", the set {"a", "b"} and the set {"a,b"} share
      a key, so one's (empty) boundary can answer the other's query. */
  lemma ContainmentEntryCollision()
    ensures var adj := map["a,b" := {"x"}, "a" := {}, "b" := {}, "x" := {}];
            && ContainmentEntry(adj, ServicesKey({"a,b"}), {})
            && Boundary(adj, {"a,b"}) != {}
  {
    var adj := map["a,b" := {"x"}, "a" := {}, "b" := {}, "x" := {}];
    ServicesKeyCollision();
    assert "x" != "a,b" by { assert |"x"| != |"a,b"|; }
    BoundaryHasEdge(adj, {"a,b"}, "a,b", "x");
    NoOutgoingNoBoundary(adj, {"a", "b"});
    SharedKeyEntry(adj, {"a", "b"}, {"a,b"});
  }

  lemma BoundaryHasEdge(adj: Adjacency, S: set<Service>, u: Service, v: Service)
    requires u in S && u in adj && v in adj[u] && v !in S
    ensures Edge(u, v) in Boundary(adj, S)
  {
  }

  lemma SharedKeyEntry(adj: Adjacency, S: set<Service>, T: set<Service>)
    requires S != {} && S <= adj.Keys && ServicesKey(S) == ServicesKey(T)
    ensures ContainmentEntry(adj, ServicesKey(T), Boundary(adj, S))
  {
  }

  lemma NoOutgoingNoBoundary(adj: Adjacency, S: set<Service>)
    requires forall u :: u in S && u in adj ==> adj[u] == {}
    ensures Boundary(adj, S) == {}
  {
  }

  class NetworkCache {
    var affectedServicesCache: map<string, set<Service>>
    var propagationPathCache: map<string, seq<Service>>
    var containmentEdgesCache: map<string, set<Edge>>

    /** No entry is cached. */
    predicate IsEmpty()
      reads this
    {
      && affectedServicesCache == map[]
      && propagationPathCache == map[]
      && containmentEdgesCache == map[]
    }

    /** Every cached answer is the answer, on `adj`, of a query with its key:
        the affected services of a service are its reachability closure. */
    ghost predicate Coherent(adj: Adjacency)
      reads this
    {
      && AffectedCoherent(adj, affectedServicesCache)
      && PathsCoherent(adj, propagationPathCache)
      && ContainmentCoherent(adj, containmentEdgesCache)
    }

    constructor ()
      ensures IsEmpty()
    {
      affectedServicesCache := map[];
      propagationPathCache := map[];
      containmentEdgesCache := map[];
    }

    method GetAffectedServices(serviceName: Service) returns (r: Option<set<Service>>)
      ensures r == Lookup(affectedServicesCache, serviceName)
    {
      r := Lookup(affectedServicesCache, serviceName);
    }

    /** Stores (a copy of) `affected` under the service name; the other two
        maps are untouched. */
    method PutAffectedServices(serviceName: Service, affected: set<Service>)
      modifies this
      ensures affectedServicesCache == old(affectedServicesCache)[serviceName := affected]
      ensures propagationPathCache == old(propagationPathCache)
      ensures containmentEdgesCache == old(containmentEdgesCache)
    {
      affectedServicesCache := affectedServicesCache[serviceName := affected];
    }

    method GetPropagationPath(sourceService: Service, targetService: Service) returns (r: Option<seq<Service>>)
      ensures r == Lookup(propagationPathCache, PathKey(sourceService, targetService))
    {
      var cacheKey := sourceService + "->" + targetService;
      r := Lookup(propagationPathCache, cacheKey);
    }

    method PutPropagationPath(sourceService: Service, targetService: Service, path: seq<Service>)
      modifies this
      ensures propagationPathCache == old(propagationPathCache)[PathKey(sourceService, targetService) := path]
      ensures affectedServicesCache == old(affectedServicesCache)
      ensures containmentEdgesCache == old(containmentEdgesCache)
    {
      var cacheKey := sourceService + "->" + targetService;
      propagationPathCache := propagationPathCache[cacheKey := path];
    }

    method GetContainmentEdges(services: set<Service>) returns (r: Option<set<Edge>>)
      ensures r == Lookup(containmentEdgesCache, ServicesKey(services))
    {
      var key := KeyForServices(services);
      r := Lookup(containmentEdgesCache, key);
    }

    method PutContainmentEdges(services: set<Service>, edges: set<Edge>)
      modifies this
      ensures containmentEdgesCache == old(containmentEdgesCache)[ServicesKey(services) := edges]
      ensures affectedServicesCache == old(affectedServicesCache)
      ensures propagationPathCache == old(propagationPathCache)
    {
      var key := KeyForServices(services);
      containmentEdgesCache := containmentEdgesCache[key := edges];
    }

    /** Empties all three maps, so every lookup misses until the next put. */
    method Clear()
      modifies this
      ensures IsEmpty()
    {
      affectedServicesCache := map[];
      propagationPathCache := map[];
      containmentEdgesCache := map[];
    }
  }

  /** A lookup made right after a put for the same query finds what was put,
      whatever the iteration order of the set it is given. */
  method PutThenGetContainment(c: NetworkCache, services: set<Service>, edges: set<Edge>) returns (r: Option<set<Edge>>)
    modifies c
    ensures r == Some(edges)
    ensures c.containmentEdgesCache == old(c.containmentEdgesCache)[ServicesKey(services) := edges]
    ensures c.affectedServicesCache == old(c.affectedServicesCache)
    ensures c.propagationPathCache == old(c.propagationPathCache)
  {
    c.PutContainmentEdges(services, edges);
    r := c.GetContainmentEdges(services);
  }
}
