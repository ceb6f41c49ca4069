/** The dependency graph as a value: a map from each service to the set of
    services it depends on, and the graph-theoretic notions the engine's
    queries are specified by (walks, reachability, shortest walks, the
    boundary of a service set, cycles and dependency-first orders). */
module Graph {

  /** A service name (a Java `String` that passed name validation). */
  type Service = string

  /** Service -> set of its direct dependencies. Presence as a key is what
      "the service exists" means. */
  type Adjacency = map<Service, set<Service>>

  /** The (source, target) record of the engine: `Edge` in one package and
      `AlertPropagation` in the other; record equality is structural. */
  datatype Edge = Edge(source: Service, target: Service)

  /** Every dependency is itself a service of the graph. The engine keeps this
      because `addDependency` checks that both endpoints exist. */
  predicate Closed(adj: Adjacency)
  {
    forall u :: u in adj ==> adj[u] <= adj.Keys
  }

  /** `rev` maps every service to the services that depend on it. */
  ghost predicate IsReverse(adj: Adjacency, rev: Adjacency)
  {
    && rev.Keys == adj.Keys
    && (forall u :: u in rev ==> rev[u] <= rev.Keys)
    && (forall u, v :: u in adj && v in rev ==> (u in rev[v] <==> v in adj[u]))
  }

  /** Adding a service without dependencies keeps the map closed and the
      reverse map its mirror. */
  lemma AddServiceKeepsReverse(adj: Adjacency, rev: Adjacency, s: Service)
    requires Closed(adj) && IsReverse(adj, rev) && s !in adj
    ensures Closed(adj[s := {}]) && IsReverse(adj[s := {}], rev[s := {}])
  {
  }

  /** Adding the edge u -> v between two services keeps the map closed and
      the reverse map its mirror. */
  lemma AddEdgeKeepsReverse(adj: Adjacency, rev: Adjacency, u: Service, v: Service)
    requires Closed(adj) && IsReverse(adj, rev) && u in adj && v in adj
    ensures Closed(adj[u := adj[u] + {v}])
    ensures IsReverse(adj[u := adj[u] + {v}], rev[v := rev[v] + {u}])
  {
  }

  /** `w` is a walk from `s` to `t` along dependency edges; it has |w| - 1 edges. */
  ghost predicate IsWalk(adj: Adjacency, w: seq<Service>, s: Service, t: Service)
  {
    && |w| >= 1
    && w[0] == s
    && w[|w| - 1] == t
    && forall i :: 0 <= i < |w| - 1 ==> w[i] in adj && w[i + 1] in adj[w[i]]
  }

  ghost predicate Reachable(adj: Adjacency, s: Service, t: Service)
  {
    exists w :: IsWalk(adj, w, s, t)
  }

  /** The forward-reachability closure of `s` (it contains `s` when `s` is a service). */
  ghost function ReachableFrom(adj: Adjacency, s: Service): set<Service>
  {
    set v | v in adj.Keys && Reachable(adj, s, v)
  }

  /** No walk from `s` to `t` has fewer than `d` edges. */
  ghost predicate NoShorterWalk(adj: Adjacency, s: Service, t: Service, d: int)
  {
    forall w :: IsWalk(adj, w, s, t) ==> |w| - 1 >= d
  }

  /** Some walk of at least one edge returns to its start (a self-loop counts). */
  ghost predicate HasCycle(adj: Adjacency)
  {
    exists v, w :: |w| >= 2 && IsWalk(adj, w, v, v)
  }

  /** `p` lists a walk from `s` to `t` TARGET FIRST: p[0] is `t`, the last
      element is `s`, and each element is a dependency of the one after it. */
  ghost predicate IsTargetFirstPath(adj: Adjacency, p: seq<Service>, s: Service, t: Service)
  {
    && |p| >= 1
    && p[0] == t
    && p[|p| - 1] == s
    && forall i :: 0 < i < |p| ==> p[i] in adj && p[i - 1] in adj[p[i]]
  }

  /** What a propagation-path query answers: the empty list exactly when `t`
      cannot be reached from `s`, and otherwise a target-first path with the
      least number of edges. */
  ghost predicate IsPropagationPath(adj: Adjacency, s: Service, t: Service, p: seq<Service>)
  {
    && (p == [] <==> !Reachable(adj, s, t))
    && (p != [] ==> IsTargetFirstPath(adj, p, s, t) && NoShorterWalk(adj, s, t, |p| - 1))
  }

  function Reverse<T>(s: seq<T>): (r: seq<T>)
    ensures |r| == |s|
    ensures forall i :: 0 <= i < |s| ==> r[i] == s[|s| - 1 - i]
  {
    if s == [] then [] else Reverse(s[1..]) + [s[0]]
  }

  /** Reading a target-first path backwards gives a walk from `s` to `t`. */
  lemma TargetFirstPathReversed(adj: Adjacency, p: seq<Service>, s: Service, t: Service)
    requires IsTargetFirstPath(adj, p, s, t)
    ensures IsWalk(adj, Reverse(p), s, t)
    ensures Reachable(adj, s, t)
  {
    var w := Reverse(p);
    forall i | 0 <= i < |w| - 1
      ensures w[i] in adj && w[i + 1] in adj[w[i]]
    {
      assert w[i] == p[|p| - 1 - i] && w[i + 1] == p[|p| - 1 - i - 1];
    }
  }

  /** A query from a service to itself answers the one-element list. */
  lemma PathToSelf(adj: Adjacency, s: Service, p: seq<Service>)
    requires s in adj
    requires IsPropagationPath(adj, s, s, p)
    ensures p == [s]
  {
    assert IsWalk(adj, [s], s, s);
  }

  /** Two answers to the same query have the same length: breadth-first
      tie-breaking decides only WHICH shortest path is returned. */
  lemma PathLengthDetermined(adj: Adjacency, s: Service, t: Service, p: seq<Service>, q: seq<Service>)
    requires IsPropagationPath(adj, s, t, p) && IsPropagationPath(adj, s, t, q)
    ensures |p| == |q|
  {
    if p != [] {
      TargetFirstPathReversed(adj, p, s, t);
      TargetFirstPathReversed(adj, q, s, t);
    }
  }

  /** A walk that starts inside a set the edges never leave stays inside it. */
  lemma {:induction false} ClosedSetTraps(adj: Adjacency, v: set<Service>, w: seq<Service>, s: Service, t: Service)
    requires s in v
    requires forall x :: x in v ==> x in adj && adj[x] <= v
    requires IsWalk(adj, w, s, t)
    ensures t in v
    decreases |w|
  {
    if |w| > 1 {
      var w' := w[..|w| - 1];
      assert IsWalk(adj, w', s, w'[|w'| - 1]);
      ClosedSetTraps(adj, v, w', s, w'[|w'| - 1]);
    }
  }

  /** Nothing outside a set the edges never leave is reachable from inside it. */
  lemma ClosedSetExcludes(adj: Adjacency, v: set<Service>, s: Service, t: Service)
    requires s in v && t !in v
    requires forall x :: x in v ==> x in adj && adj[x] <= v
    ensures !Reachable(adj, s, t)
  {
    if Reachable(adj, s, t) {
      var w :| IsWalk(adj, w, s, t);
      ClosedSetTraps(adj, v, w, s, t);
      assert false;
    }
  }

  /** A set of services reachable from `s`, containing `s` and closed under
      the edges, is the whole reachability closure of `s`. */
  lemma ClosedReachableSet(adj: Adjacency, v: set<Service>, s: Service)
    requires s in v
    requires forall x :: x in v ==> x in adj && adj[x] <= v
    requires forall x :: x in v ==> Reachable(adj, s, x)
    ensures v == ReachableFrom(adj, s)
  {
    forall x | x in ReachableFrom(adj, s)
      ensures x in v
    {
      var w :| IsWalk(adj, w, s, x);
      ClosedSetTraps(adj, v, w, s, x);
    }
  }

  /** Extending a walk by one edge. */
  lemma ReachableStep(adj: Adjacency, s: Service, u: Service, v: Service)
    requires Reachable(adj, s, u)
    requires u in adj && v in adj[u]
    ensures Reachable(adj, s, v)
  {
    var w :| IsWalk(adj, w, s, u);
    assert IsWalk(adj, w + [v], s, v);
  }

  // ---------------------------------------------------------------------------
  // Containment boundary

  /** Every dependency edge from a member of `S` to a service outside `S`. */
  function Boundary(adj: Adjacency, S: set<Service>): set<Edge>
  {
    set u, v | u in S && u in adj && v in adj[u] && v !in S :: Edge(u, v)
  }

  /** The graph with the edges in `cut` removed. */
  function RemoveEdges(adj: Adjacency, cut: set<Edge>): (r: Adjacency)
    ensures r.Keys == adj.Keys
    ensures forall u, v :: u in adj ==> (v in r[u] <==> v in adj[u] && Edge(u, v) !in cut)
  {
    map u | u in adj :: set v | v in adj[u] && Edge(u, v) !in cut
  }

  /** Removing the boundary confines propagation: from a member of `S`, the
      remaining edges reach only members of `S`. */
  lemma {:induction false} BoundaryCutConfines(adj: Adjacency, S: set<Service>, w: seq<Service>, s: Service, t: Service)
    requires s in S
    requires IsWalk(RemoveEdges(adj, Boundary(adj, S)), w, s, t)
    ensures t in S
    decreases |w|
  {
    if |w| > 1 {
      var cut := RemoveEdges(adj, Boundary(adj, S));
      var w' := w[..|w| - 1];
      var u := w'[|w'| - 1];
      assert IsWalk(cut, w', s, u);
      BoundaryCutConfines(adj, S, w', s, u);
      assert w[|w| - 2] == u && t in cut[u];
    }
  }

  /** No boundary edge is superfluous: keeping any one of them lets an alert
      leave `S` in one step. */
  lemma BoundaryEdgeNeeded(adj: Adjacency, S: set<Service>, e: Edge)
    requires e in Boundary(adj, S)
    ensures e.source in S && e.target !in S
    ensures Reachable(RemoveEdges(adj, Boundary(adj, S) - {e}), e.source, e.target)
  {
    var cut := RemoveEdges(adj, Boundary(adj, S) - {e});
    assert IsWalk(cut, [e.source, e.target], e.source, e.target);
  }

  /** Growing the set never creates a boundary edge that starts in the old set
      and ends in the new one: the boundary edges leaving the old members are
      exactly the old boundary edges whose target stays outside. */
  lemma BoundaryGrow(adj: Adjacency, S: set<Service>, S': set<Service>)
    requires S <= S'
    ensures forall e :: e in Boundary(adj, S') && e.source in S <==> e in Boundary(adj, S) && e.target !in S'
  {
    forall e | e in Boundary(adj, S) && e.target !in S'
      ensures e in Boundary(adj, S')
    {
      assert e == Edge(e.source, e.target);
    }
  }

  // ---------------------------------------------------------------------------
  // Dependency-first orders

  /** `order` lists every service exactly once, and no service depends on
      itself or on a service listed after it: every dependency comes first. */
  ghost predicate IsDependencyFirstOrder(adj: Adjacency, order: seq<Service>)
  {
    && (forall i, j :: 0 <= i < j < |order| ==> order[i] != order[j])
    && (forall v :: v in adj <==> v in order)
    && (forall i, j :: 0 <= i <= j < |order| && order[i] in adj ==> order[j] !in adj[order[i]])
  }

  function IndexOf(s: seq<Service>, x: Service): (k: nat)
    requires x in s
    ensures k < |s| && s[k] == x
  {
    if s[0] == x then 0 else 1 + IndexOf(s[1..], x)
  }

  /** For every edge u -> v the dependency v is listed before u. */
  lemma DependencyPrecedes(adj: Adjacency, order: seq<Service>, u: Service, v: Service)
    requires IsDependencyFirstOrder(adj, order)
    requires Closed(adj) && u in adj && v in adj[u]
    ensures IndexOf(order, v) < IndexOf(order, u)
  {
  }

  /** A graph that has a dependency-first order has no cycle. */
  lemma DependencyFirstOrderAcyclic(adj: Adjacency, order: seq<Service>)
    requires Closed(adj)
    requires IsDependencyFirstOrder(adj, order)
    ensures !HasCycle(adj)
  {
    if HasCycle(adj) {
      var v, w :| |w| >= 2 && IsWalk(adj, w, v, v);
      WalkDescends(adj, order, w, v, v);
    }
  }

  /** Along a walk of at least one edge, the position in a dependency-first
      order strictly decreases. */
  lemma {:induction false} WalkDescends(adj: Adjacency, order: seq<Service>, w: seq<Service>, s: Service, t: Service)
    requires Closed(adj)
    requires IsDependencyFirstOrder(adj, order)
    requires |w| >= 2 && IsWalk(adj, w, s, t)
    ensures s in order && t in order && IndexOf(order, t) < IndexOf(order, s)
    decreases |w|
  {
    var u := w[|w| - 2];
    assert u in adj && t in adj[u];
    DependencyPrecedes(adj, order, u, t);
    if |w| > 2 {
      var w' := w[..|w| - 1];
      assert IsWalk(adj, w', s, u);
      WalkDescends(adj, order, w', s, u);
    }
  }
}
