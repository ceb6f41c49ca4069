/** The string keys under which the result cache files its entries: a
    propagation path under `source + "->" + target`, a containment result
    under the sorted, comma-joined member names. Both are meant to identify
    the query; this module proves when they do and shows when they do not. */
module Keys {
  import opened Graph

  // ---------------------------------------------------------------------------
  // Path key

  /** The path-cache key of the query (source, target). */
  function PathKey(source: Service, target: Service): string
  {
    source + "->" + target
  }

  /** `s` does not contain the two-character separator "->". */
  predicate NoArrow(s: string)
  {
    forall i :: 0 <= i < |s| - 1 ==> !(s[i] == '-' && s[i + 1] == '>')
  }

  /** The key of (s1, t1) is found only by that query when the sources
      contain no "->" (targets may contain anything). */
  lemma PathKeyInjective(s1: Service, t1: Service, s2: Service, t2: Service)
    requires NoArrow(s1) && NoArrow(s2)
    requires PathKey(s1, t1) == PathKey(s2, t2)
    ensures s1 == s2 && t1 == t2
  {
    var k := PathKey(s1, t1);
    assert k == PathKey(s2, t2);
    assert k[|s1|] == '-' && k[|s1| + 1] == '>';
    assert k[|s2|] == '-' && k[|s2| + 1] == '>';
    assert |s1| == |s2|;
    assert s1 == k[..|s1|] == s2;
    assert t1 == k[|s1| + 2..] == t2;
  }

  /** Without that condition two different queries share a key. */
  lemma PathKeyCollision()
    ensures PathKey("a->b", "c") == PathKey("a", "b->c")
    ensures "a->b" != "a"
  {
  }

  // ---------------------------------------------------------------------------
  // Lexicographic order of `String.compareTo`

  /** `a.compareTo(b) <= 0`: the first differing character decides, and a
      proper prefix comes first. */
  predicate LexLeq(a: string, b: string)
  {
    |a| == 0 || (|b| > 0 && (a[0] < b[0] || (a[0] == b[0] && LexLeq(a[1..], b[1..]))))
  }

  lemma {:induction false} LexLeqTotal(a: string, b: string)
    ensures LexLeq(a, b) || LexLeq(b, a)
  {
    if |a| > 0 && |b| > 0 && a[0] == b[0] {
      LexLeqTotal(a[1..], b[1..]);
    }
  }

  lemma {:induction false} LexLeqAntisymmetric(a: string, b: string)
    requires LexLeq(a, b) && LexLeq(b, a)
    ensures a == b
  {
    if |a| > 0 && |b| > 0 {
      LexLeqAntisymmetric(a[1..], b[1..]);
      assert a == [a[0]] + a[1..] && b == [b[0]] + b[1..];
    }
  }

  lemma {:induction false} LexLeqTransitive(a: string, b: string, c: string)
    requires LexLeq(a, b) && LexLeq(b, c)
    ensures LexLeq(a, c)
  {
    if |a| > 0 && |b| > 0 && |c| > 0 && a[0] == b[0] && b[0] == c[0] {
      LexLeqTransitive(a[1..], b[1..], c[1..]);
    }
  }

  // ---------------------------------------------------------------------------
  // Sorting (`Collections.sort` on strings)

  predicate Sorted(s: seq<string>)
  {
    forall i, j :: 0 <= i < j < |s| ==> LexLeq(s[i], s[j])
  }

  function Insert(x: string, s: seq<string>): (r: seq<string>)
    ensures multiset(r) == multiset(s) + multiset{x}
  {
    if s == [] then [x]
    else if LexLeq(x, s[0]) then [x] + s
    else
      assert s == [s[0]] + s[1..];
      [s[0]] + Insert(x, s[1..])
  }

  lemma {:induction false} InsertSorted(x: string, s: seq<string>)
    requires Sorted(s)
    ensures Sorted(Insert(x, s))
  {
    if s == [] {
    } else if LexLeq(x, s[0]) {
      forall j | 0 < j < |s| ensures LexLeq(x, s[j]) {
        LexLeqTransitive(x, s[0], s[j]);
      }
    } else {
      LexLeqTotal(x, s[0]);
      InsertSorted(x, s[1..]);
      var rest := Insert(x, s[1..]);
      forall j | 0 <= j < |rest| ensures LexLeq(s[0], rest[j]) {
        assert rest[j] in multiset(rest);
        if rest[j] != x {
          assert rest[j] in multiset(s[1..]);
          var k :| 0 <= k < |s[1..]| && s[1..][k] == rest[j];
          assert s[k + 1] == rest[j];
        }
      }
    }
  }

  /** Insertion sort: the sorted rearrangement of `s`. */
  function Sort(s: seq<string>): (r: seq<string>)
    ensures Sorted(r)
    ensures multiset(r) == multiset(s)
  {
    if s == [] then []
    else
      assert s == [s[0]] + s[1..];
      InsertSorted(s[0], Sort(s[1..]));
      Insert(s[0], Sort(s[1..]))
  }

  lemma SortedHeadLeast(a: seq<string>, x: string)
    requires Sorted(a) && x in a
    ensures a[0] == x || LexLeq(a[0], x)
  {
    var i :| 0 <= i < |a| && a[i] == x;
    if i > 0 {
      assert LexLeq(a[0], a[i]);
    }
  }

  lemma SortedTail(a: seq<string>)
    requires Sorted(a) && a != []
    ensures Sorted(a[1..])
  {
    forall i, j | 0 <= i < j < |a| - 1 ensures LexLeq(a[1..][i], a[1..][j]) {
      assert a[1..][i] == a[i + 1] && a[1..][j] == a[j + 1];
    }
  }

  lemma MultisetTail(a: seq<string>)
    requires a != []
    ensures multiset(a[1..]) == multiset(a) - multiset{a[0]}
  {
    assert a == [a[0]] + a[1..];
  }

  /** Two sorted arrangements of the same non-empty multiset start alike. */
  lemma SortedSameHead(a: seq<string>, b: seq<string>)
    requires Sorted(a) && Sorted(b) && a != []
    requires multiset(a) == multiset(b)
    ensures b != [] && a[0] == b[0]
  {
    assert a[0] in multiset(b);
    assert b[0] in multiset(a);
    SortedHeadLeast(b, a[0]);
    SortedHeadLeast(a, b[0]);
    if a[0] != b[0] {
      LexLeqAntisymmetric(a[0], b[0]);
    }
  }

  /** A sorted arrangement of a multiset is unique. */
  lemma {:induction false} SortedUnique(a: seq<string>, b: seq<string>)
    requires Sorted(a) && Sorted(b)
    requires multiset(a) == multiset(b)
    ensures a == b
    decreases |a|
  {
    if a == [] {
      assert |multiset(b)| == 0;
    } else {
      SortedSameHead(a, b);
      MultisetTail(a);
      MultisetTail(b);
      SortedTail(a);
      SortedTail(b);
      SortedUnique(a[1..], b[1..]);
      assert a == [a[0]] + a[1..] && b == [b[0]] + b[1..];
    }
  }

  // ---------------------------------------------------------------------------
  // Joining (`String.join(",", ...)`) and the containment key

  function Join(xs: seq<string>): string
  {
    if |xs| == 0 then ""
    else if |xs| == 1 then xs[0]
    else xs[0] + "," + Join(xs[1..])
  }

  predicate NoComma(s: string)
  {
    forall i :: 0 <= i < |s| ==> s[i] != ','
  }

  /** The position of the first comma in `k`, or |k| when there is none. */
  function CommaIndex(k: string): (n: nat)
    ensures n <= |k|
  {
    if k == [] || k[0] == ',' then 0 else 1 + CommaIndex(k[1..])
  }

  lemma {:induction false} CommaIndexAfter(p: string, rest: string)
    requires NoComma(p)
    requires rest == [] || rest[0] == ','
    ensures CommaIndex(p + rest) == |p|
  {
    if p != [] {
      assert (p + rest)[1..] == p[1..] + rest;
      CommaIndexAfter(p[1..], rest);
    } else {
      assert p + rest == rest;
    }
  }

  /** The first name of a join is everything before its first comma, and a
      comma follows it exactly when more names follow. */
  lemma JoinHead(xs: seq<string>)
    requires |xs| > 0 && NoComma(xs[0])
    ensures CommaIndex(Join(xs)) == |xs[0]|
    ensures Join(xs)[..|xs[0]|] == xs[0]
    ensures |xs| > 1 <==> |xs[0]| < |Join(xs)|
    ensures |xs| > 1 ==> Join(xs[1..]) == Join(xs)[|xs[0]| + 1..]
  {
    if |xs| == 1 {
      CommaIndexAfter(xs[0], []);
      assert xs[0] + [] == xs[0];
    } else {
      var rest := "," + Join(xs[1..]);
      CommaIndexAfter(xs[0], rest);
      assert Join(xs) == xs[0] + rest;
    }
  }

  /** A non-empty list of comma-free names is recovered from its join. */
  lemma {:induction false} JoinInjective(a: seq<string>, b: seq<string>)
    requires |a| > 0 && |b| > 0
    requires forall x :: x in a ==> NoComma(x)
    requires forall x :: x in b ==> NoComma(x)
    requires Join(a) == Join(b)
    ensures a == b
  {
    assert a[0] in a && b[0] in b;
    JoinHead(a);
    JoinHead(b);
    assert a[0] == b[0];
    if |a| > 1 {
      assert forall x :: x in a[1..] ==> x in a;
      assert forall x :: x in b[1..] ==> x in b;
      JoinInjective(a[1..], b[1..]);
      assert a == [a[0]] + a[1..] && b == [b[0]] + b[1..];
    }
  }

  /** Some listing of the members of `S`, each once: the order in which a
      hash set happens to be iterated. */
  ghost function Enumeration(S: set<string>): (r: seq<string>)
    ensures multiset(r) == multiset(S)
  {
    if S == {} then []
    else
      var x :| x in S;
      assert S == (S - {x}) + {x};
      [x] + Enumeration(S - {x})
  }

  /** The containment-cache key of the service set `S`. */
  ghost function ServicesKey(S: set<Service>): string
  {
    Join(Sort(Enumeration(S)))
  }

  /** The key depends only on the members, not on the order they come in. */
  lemma KeyIgnoresIterationOrder(xs: seq<string>, ys: seq<string>)
    requires multiset(xs) == multiset(ys)
    ensures Join(Sort(xs)) == Join(Sort(ys))
  {
    SortedUnique(Sort(xs), Sort(ys));
  }

  /** The key identifies a non-empty set whose names contain no comma. */
  lemma ServicesKeyInjective(S1: set<Service>, S2: set<Service>)
    requires S1 != {} && S2 != {}
    requires forall x :: x in S1 + S2 ==> NoComma(x)
    requires ServicesKey(S1) == ServicesKey(S2)
    ensures S1 == S2
  {
    var a, b := Sort(Enumeration(S1)), Sort(Enumeration(S2));
    assert |multiset(a)| == |S1| && |multiset(b)| == |S2|;
    assert forall x :: x in a ==> x in multiset(S1);
    assert forall x :: x in b ==> x in multiset(S2);
    JoinInjective(a, b);
    assert multiset(S1) == multiset(S2);
    forall x ensures x in S1 <==> x in S2 {
      assert x in S1 <==> x in multiset(S1);
      assert x in S2 <==> x in multiset(S2);
    }
  }

  /** With a comma inside a name, two different sets share a key. */
  lemma ServicesKeyCollision()
    ensures ServicesKey({"a,b"}) == ServicesKey({"a", "b"})
  {
    KeyOfSingleton("a,b");
    assert LexLeq("a", "b");
    KeyOfPair("a", "b");
  }

  lemma KeyOfSingleton(x: Service)
    ensures ServicesKey({x}) == x
  {
    assert multiset({x}) == multiset([x]);
    KeyIgnoresIterationOrder(Enumeration({x}), [x]);
    assert Sort([x]) == [x];
  }

  lemma KeyOfPair(x: Service, y: Service)
    requires x != y && LexLeq(x, y)
    ensures ServicesKey({x, y}) == x + "," + y
  {
    assert !LexLeq(y, x) by {
      if LexLeq(y, x) { LexLeqAntisymmetric(x, y); }
    }
    SortPair(x, y);
    assert multiset({x, y}) == multiset([y, x]);
    KeyIgnoresIterationOrder(Enumeration({x, y}), [y, x]);
  }

  lemma SortPair(x: string, y: string)
    requires !LexLeq(y, x)
    ensures Sort([y, x]) == [x, y]
  {
    assert [y, x][1..] == [x];
    assert Sort([x]) == [x];
    assert Insert(y, [x]) == [x, y];
  }

  /** `keyForServices`: copy the set into a list (in iteration order), sort
      it and join it with commas. */
  method KeyForServices(services: set<Service>) returns (key: string)
    ensures key == ServicesKey(services)
  {
    var listed: seq<string> := [];
    var rest := services;
    while rest != {}
      invariant rest <= services
      invariant multiset(listed) == multiset(services - rest)
      decreases rest
    {
      var s :| s in rest;
      assert services - (rest - {s}) == (services - rest) + {s};
      listed := listed + [s];
      rest := rest - {s};
    }
    key := Join(Sort(listed));
    KeyIgnoresIterationOrder(listed, Enumeration(services));
  }
}
