/** `OrderedListReconstructor`: rebuilds a list from (value, next) pairs. The
    pairs become a map from each value to its successor (a later pair for the
    same value overwrites an earlier one); the list starts at a head (a value
    that is nobody's non-null successor) and follows the successors until one
    is null or has no pair of its own. */
module Reconstruct {
  import opened Wrappers

  /** One `List<String>` of two elements: a value and its successor, where
      `None` is Java's `null`. */
  datatype Pair = Pair(first: string, next: Option<string>)

  /** What the Java loop does when the walk from the head comes back to a
      value already listed: it never stops (until memory runs out). */
  datatype ReconstructError = Diverges

  type NextMap = map<string, Option<string>>

  /** The map the `for` loop builds: `put` in list order, so the last pair
      for a value wins. */
  function BuildMap(pairs: seq<Pair>): NextMap
  {
    if pairs == [] then map[]
    else BuildMap(pairs[..|pairs| - 1])[pairs[|pairs| - 1].first := pairs[|pairs| - 1].next]
  }

  /** `nextMap.get(current)`: null both for a value mapped to null and for a
      value with no pair. */
  function Link(m: NextMap, current: string): (r: Option<string>)
    ensures r.Some? ==> current in m && m[current] == r
    ensures current in m ==> r == m[current]
  {
    if current in m then m[current] else None
  }

  /** The non-null successors. */
  function NextValues(m: NextMap): (r: set<string>)
    ensures forall v :: v in r <==> exists k :: k in m && m[k] == Some(v)
  {
    set k | k in m && m[k].Some? :: m[k].value
  }

  /** The values that can start the list: keys that are no successor. */
  function Heads(m: NextMap): set<string>
  {
    set k | k in m && k !in NextValues(m)
  }

  /** Where the Java loop stands after `n` rounds started at `current`:
      `Some(v)` when `v` is added in round `n`, `None` once it has stopped. */
  function Step(m: NextMap, current: string, n: nat): Option<string>
    decreases n
  {
    if n == 0 then Some(current)
    else match Link(m, current)
      case None => None
      case Some(next) => Step(m, next, n - 1)
  }

  function Elements(s: seq<string>): set<string>
  {
    set x | x in s
  }

  /** The walk from `current`, after the values `prefix`: the whole list when
      it reaches a null successor, `Diverges` when it meets a value again. */
  function Follow(m: NextMap, current: string, prefix: seq<string>): Result<seq<string>, ReconstructError>
    decreases m.Keys - Elements(prefix)
  {
    if current in prefix then Failure(Diverges)
    else match Link(m, current)
      case None => Success(prefix + [current])
      case Some(next) =>
        assert Elements(prefix + [current]) == Elements(prefix) + {current};
        Follow(m, next, prefix + [current])
  }

  /** Every result `reconstructOrder` can give, one per head it may pick. */
  function Outcomes(pairs: Option<seq<Pair>>): set<Result<seq<string>, ReconstructError>>
  {
    if pairs.None? || pairs.value == [] then {Success([])}
    else
      var m := BuildMap(pairs.value);
      if Heads(m) == {} then {Success([])}
      else set h | h in Heads(m) :: Follow(m, h, [])
  }

  /** The keys of the map are the first elements of the pairs. */
  lemma {:induction false} BuildMapKeys(pairs: seq<Pair>)
    ensures forall k :: k in BuildMap(pairs) <==> exists i :: 0 <= i < |pairs| && pairs[i].first == k
  {
    if pairs != [] {
      var init := pairs[..|pairs| - 1];
      BuildMapKeys(init);
      forall k | k in BuildMap(pairs)
        ensures exists i :: 0 <= i < |pairs| && pairs[i].first == k
      {
        if k != pairs[|pairs| - 1].first {
          assert k in BuildMap(init);
          var i :| 0 <= i < |init| && init[i].first == k;
          assert pairs[i].first == k;
        }
      }
      forall k | exists i :: 0 <= i < |pairs| && pairs[i].first == k
        ensures k in BuildMap(pairs)
      {
        var i :| 0 <= i < |pairs| && pairs[i].first == k;
        if i < |pairs| - 1 {
          assert init[i].first == k;
        }
      }
    }
  }

  /** Each first element is mapped to the successor of its LAST pair: a
      later `put` for the same value overwrites. */
  lemma {:induction false} BuildMapLastWins(pairs: seq<Pair>, i: nat)
    requires i < |pairs| && forall j :: i < j < |pairs| ==> pairs[j].first != pairs[i].first
    ensures pairs[i].first in BuildMap(pairs) && BuildMap(pairs)[pairs[i].first] == pairs[i].next
  {
    if i < |pairs| - 1 {
      var init := pairs[..|pairs| - 1];
      assert init[i] == pairs[i];
      BuildMapLastWins(init, i);
    }
  }

  /** A successful walk is exactly what the Java loop lists: the value of
      round `i` is the `i`-th element, and the loop stops after the last. */
  lemma {:induction false} FollowIsLoop(m: NextMap, current: string, prefix: seq<string>, w: seq<string>)
    requires Follow(m, current, prefix) == Success(w)
    ensures |w| > |prefix| && w[..|prefix|] == prefix
    ensures forall i :: |prefix| <= i < |w| ==> Step(m, current, i - |prefix|) == Some(w[i])
    ensures Step(m, current, |w| - |prefix|) == None
    decreases m.Keys - Elements(prefix)
  {
    match Link(m, current)
    case None =>
    case Some(next) =>
      assert Elements(prefix + [current]) == Elements(prefix) + {current};
      FollowIsLoop(m, next, prefix + [current], w);
      forall i | |prefix| <= i < |w|
        ensures Step(m, current, i - |prefix|) == Some(w[i])
      {
        if i > |prefix| {
          assert Step(m, current, i - |prefix|) == Step(m, next, i - |prefix + [current]|);
        } else {
          assert w[..|prefix + [current]|][i] == (prefix + [current])[i];
        }
      }
      assert Step(m, current, |w| - |prefix|) == Step(m, next, |w| - |prefix + [current]|);
  }

  /** Each value of `prefix` is followed in `prefix` by its successor. */
  ghost predicate Linked(m: NextMap, prefix: seq<string>)
  {
    forall i :: 0 <= i < |prefix| - 1 ==> Link(m, prefix[i]) == Some(prefix[i + 1])
  }

  /** A walk whose last value links back to `prefix[j]` cycles forever:
      from any value of `prefix`, every round of the Java loop lands in
      `prefix` again. */
  lemma {:induction false} CycleStaysInPrefix(m: NextMap, prefix: seq<string>, j: nat, k: nat, n: nat)
    requires Linked(m, prefix) && j < |prefix| && k < |prefix|
    requires Link(m, prefix[|prefix| - 1]) == Some(prefix[j])
    ensures Step(m, prefix[k], n).Some? && Step(m, prefix[k], n).value in prefix
    decreases n
  {
    if n > 0 {
      var k' := if k == |prefix| - 1 then j else k + 1;
      assert Link(m, prefix[k]) == Some(prefix[k']);
      CycleStaysInPrefix(m, prefix, j, k', n - 1);
    }
  }

  /** When the walk is reported as diverging, the Java loop truly never
      stops: every round adds another value. */
  lemma {:induction false} DivergesNeverEnds(m: NextMap, current: string, prefix: seq<string>, n: nat)
    requires Linked(m, prefix)
    requires prefix != [] ==> Link(m, prefix[|prefix| - 1]) == Some(current)
    requires Follow(m, current, prefix) == Failure(Diverges)
    ensures Step(m, current, n).Some?
    decreases m.Keys - Elements(prefix), n
  {
    if current in prefix {
      var k :| 0 <= k < |prefix| && prefix[k] == current;
      CycleStaysInPrefix(m, prefix, k, k, n);
    } else if n > 0 {
      var next := Link(m, current).value;
      assert Elements(prefix + [current]) == Elements(prefix) + {current};
      DivergesNeverEnds(m, next, prefix + [current], n - 1);
    }
  }

  /** What each possible result means for the Java method: an empty list
      exactly for a null or empty input or a map without a head; otherwise
      the values the Java loop adds, started at a head, until it stops; and
      `Diverges` only when the Java loop, started at some head, never stops. */
  lemma OutcomeIsLoopResult(pairs: Option<seq<Pair>>, r: Result<seq<string>, ReconstructError>)
    requires r in Outcomes(pairs)
    ensures r == Success([]) <==> pairs.None? || pairs.value == [] || Heads(BuildMap(pairs.value)) == {}
    ensures r.Success? && r.value != [] ==>
              && pairs.Some?
              && r.value[0] in Heads(BuildMap(pairs.value))
              && (forall i :: 0 <= i < |r.value| ==> Step(BuildMap(pairs.value), r.value[0], i) == Some(r.value[i]))
              && Step(BuildMap(pairs.value), r.value[0], |r.value|) == None
    ensures r.Failure? ==>
              pairs.Some? && exists h :: h in Heads(BuildMap(pairs.value)) && forall n: nat :: Step(BuildMap(pairs.value), h, n).Some?
  {
    if pairs.Some? && pairs.value != [] && Heads(BuildMap(pairs.value)) != {} {
      var m := BuildMap(pairs.value);
      var empty: seq<string> := [];
      var h :| h in Heads(m) && r == Follow(m, h, empty);
      match r
      case Success(w) =>
        FollowIsLoop(m, h, empty, w);
      case Failure(e) =>
        assert e == Diverges;
        assert Follow(m, h, empty) == Failure(Diverges);
        forall n: nat
          ensures Step(m, h, n).Some?
        {
          assert Linked(m, empty);
          DivergesNeverEnds(m, h, empty, n);
        }
    }
  }

  /** The `for` loop that fills `nextMap`. */
  method NextMapOf(pairs: seq<Pair>) returns (nextMap: NextMap)
    ensures nextMap == BuildMap(pairs)
  {
    nextMap := map[];
    for i := 0 to |pairs|
      invariant nextMap == BuildMap(pairs[..i])
    {
      assert pairs[..i + 1][..i] == pairs[..i];
      nextMap := nextMap[pairs[i].first := pairs[i].next];
    }
    assert pairs[..|pairs|] == pairs;
  }

  /** `getFirstElement`: some key that is no non-null successor (the first
      such key in the map's iteration order), or null when there is none. */
  method GetFirstElement(nextMap: NextMap) returns (head: Option<string>)
    ensures head.None? <==> forall k :: k in nextMap ==> exists v :: v in nextMap && nextMap[v] == Some(k)
    ensures head.Some? ==> head.value in nextMap && forall v :: v in nextMap ==> nextMap[v] != Some(head.value)
  {
    var nextValues := NextValues(nextMap);
    if k :| k in nextMap && k !in nextValues {
      return Some(k);
    }
    return None;
  }

  /** `reconstructOrder`: the empty list for a null or empty input or when
      there is no head; otherwise the values from a head along the
      successors. Where Java loops forever the result is `Diverges`. */
  method ReconstructOrder(pairs: Option<seq<Pair>>) returns (r: Result<seq<string>, ReconstructError>)
    ensures r in Outcomes(pairs)
  {
    if pairs.None? || pairs.value == [] {
      return Success([]);
    }
    var nextMap := NextMapOf(pairs.value);
    var first := GetFirstElement(nextMap);
    if first.None? {
      assert Heads(nextMap) == {};
      return Success([]);
    }
    var head := first.value;
    assert head in Heads(nextMap);
    var current: Option<string> := first;
    var result: seq<string> := [];
    while current.Some?
      invariant current.Some? ==> Follow(nextMap, current.value, result) == Follow(nextMap, head, [])
      invariant current.None? ==> Follow(nextMap, head, []) == Success(result)
      decreases nextMap.Keys - Elements(result), if current.Some? then 1 else 0
    {
      if current.value in result {
        return Failure(Diverges);
      }
      assert Elements(result + [current.value]) == Elements(result) + {current.value};
      result := result + [current.value];
      current := Link(nextMap, current.value);
    }
    return Success(result);
  }

  /** The test's chain A -> B, C -> D, B -> C, D -> null (for any four
      distinct values) gives A, B, C, D whatever head is picked, since A is
      the only head. */
  lemma BasicExample(a: string, b: string, c: string, d: string)
    requires a != b && a != c && a != d && b != c && b != d && c != d
    ensures Outcomes(Some([Pair(a, Some(b)), Pair(c, Some(d)), Pair(b, Some(c)), Pair(d, None)]))
            == {Success([a, b, c, d])}
  {
    var pa, pc, pb, pd := Pair(a, Some(b)), Pair(c, Some(d)), Pair(b, Some(c)), Pair(d, None);
    assert [pa, pc, pb, pd][..3] == [pa, pc, pb] && [pa, pc, pb][..2] == [pa, pc] && [pa, pc][..1] == [pa];
    assert BuildMap([pa]) == map[a := Some(b)];
    assert BuildMap([pa, pc]) == map[a := Some(b), c := Some(d)];
    assert BuildMap([pa, pc, pb]) == map[a := Some(b), c := Some(d), b := Some(c)];
    var m := BuildMap([pa, pc, pb, pd]);
    assert m == map[a := Some(b), c := Some(d), b := Some(c), d := None];
    assert a !in NextValues(m);
    assert m[c] == Some(d) && m[b] == Some(c) && m[a] == Some(b);
    assert Heads(m) == {a};
    assert [a] + [b] == [a, b] && [a, b] + [c] == [a, b, c] && [a, b, c] + [d] == [a, b, c, d];
    assert Follow(m, d, [a, b, c]) == Success([a, b, c, d]);
    assert Follow(m, c, [a, b]) == Follow(m, d, [a, b, c]);
    assert Follow(m, b, [a]) == Follow(m, c, [a, b]);
    var empty: seq<string> := [];
    assert empty + [a] == [a];
    assert Follow(m, a, empty) == Follow(m, b, [a]);
  }

  /** A single pair with a null successor gives that one value. */
  lemma SingleElement(a: string)
    ensures Outcomes(Some([Pair(a, None)])) == {Success([a])}
  {
    var p := Pair(a, None);
    var none: seq<Pair> := [];
    assert [p][..0] == none;
    assert BuildMap(none) == map[];
    var m := BuildMap([p]);
    assert m == map[a := None];
    assert a !in NextValues(m);
    assert Heads(m) == {a};
    var empty: seq<string> := [];
    assert empty + [a] == [a];
    assert Follow(m, a, empty) == Success([a]);
  }

  /** A -> B, B -> C, C -> B: the walk from the head A enters the cycle
      B, C, B, ... and the Java loop never ends. */
  lemma CycleExample(a: string, b: string, c: string)
    requires a != b && a != c && b != c
    ensures Outcomes(Some([Pair(a, Some(b)), Pair(b, Some(c)), Pair(c, Some(b))])) == {Failure(Diverges)}
  {
    var pa, pb, pc := Pair(a, Some(b)), Pair(b, Some(c)), Pair(c, Some(b));
    assert [pa, pb, pc][..2] == [pa, pb] && [pa, pb][..1] == [pa];
    assert BuildMap([pa]) == map[a := Some(b)];
    assert BuildMap([pa, pb]) == map[a := Some(b), b := Some(c)];
    var m := BuildMap([pa, pb, pc]);
    assert m == map[a := Some(b), b := Some(c), c := Some(b)];
    assert a !in NextValues(m);
    assert m[b] == Some(c) && m[c] == Some(b) && m[a] == Some(b);
    assert Heads(m) == {a};
    assert [a] + [b] == [a, b] && [a, b] + [c] == [a, b, c];
    assert Follow(m, b, [a, b, c]) == Failure(Diverges);
    assert Follow(m, c, [a, b]) == Follow(m, b, [a, b, c]);
    assert Follow(m, b, [a]) == Follow(m, c, [a, b]);
    var empty: seq<string> := [];
    assert empty + [a] == [a];
    assert Follow(m, a, empty) == Follow(m, b, [a]);
  }

  /** When every value is somebody's successor (A -> B, B -> A) there is no
      head and the result is empty. */
  lemma NoHeadExample(a: string, b: string)
    ensures Outcomes(Some([Pair(a, Some(b)), Pair(b, Some(a))])) == {Success([])}
  {
    var pa, pb := Pair(a, Some(b)), Pair(b, Some(a));
    assert [pa, pb][..1] == [pa];
    assert BuildMap([pa]) == map[a := Some(b)];
    var m := BuildMap([pa, pb]);
    assert m[b] == Some(a);
    if a != b {
      assert m[a] == Some(b);
    }
  }
}
