/** The service validator: stateless guards over a snapshot of the adjacency
    map. Each engine builds one over its own map and calls it before any
    mutation or query; a failing guard is the engine's IllegalArgumentException.
    The two packages hold textually identical copies of this class. */
module Validation {
  import opened Wrappers
  import opened Graph

  /** The three messages the validator can raise. */
  datatype ValidationError =
    | BlankName                      // "Service name cannot be null or empty"
    | UnknownService(name: Service)  // "Service <name> does not exist in the network"
    | EmptyServiceSet                // "Services set cannot be null or empty"

  /** Java's `String.trim` treats every character up to U+0020 as white space. */
  predicate IsTrimmable(c: char)
  {
    c <= ' '
  }

  function TrimLeading(s: string): (r: string)
    ensures |r| <= |s|
    ensures r != "" ==> !IsTrimmable(r[0])
  {
    if |s| > 0 && IsTrimmable(s[0]) then TrimLeading(s[1..]) else s
  }

  function TrimTrailing(s: string): (r: string)
    ensures |r| <= |s|
  {
    if |s| > 0 && IsTrimmable(s[|s| - 1]) then TrimTrailing(s[..|s| - 1]) else s
  }

  /** `String.trim`: drop leading, then trailing, white space. */
  function Trim(s: string): string
  {
    TrimTrailing(TrimLeading(s))
  }

  /** Every character of `s` is white space in the sense of `trim` (true of ""). */
  predicate IsBlank(s: string)
  {
    forall i :: 0 <= i < |s| ==> IsTrimmable(s[i])
  }

  lemma {:induction false} TrimLeadingEmpty(s: string)
    ensures TrimLeading(s) == "" <==> IsBlank(s)
  {
    if |s| > 0 && IsTrimmable(s[0]) {
      TrimLeadingEmpty(s[1..]);
      assert IsBlank(s) <==> IsBlank(s[1..]) by {
        if IsBlank(s[1..]) {
          forall i | 0 <= i < |s| ensures IsTrimmable(s[i]) {
            if i > 0 { assert s[i] == s[1..][i - 1]; }
          }
        }
      }
    }
  }

  lemma {:induction false} TrimTrailingEmpty(s: string)
    ensures TrimTrailing(s) == "" <==> IsBlank(s)
  {
    if |s| > 0 && IsTrimmable(s[|s| - 1]) {
      TrimTrailingEmpty(s[..|s| - 1]);
      assert IsBlank(s) <==> IsBlank(s[..|s| - 1]) by {
        if IsBlank(s[..|s| - 1]) {
          forall i | 0 <= i < |s| ensures IsTrimmable(s[i]) {
            if i < |s| - 1 { assert s[i] == s[..|s| - 1][i]; }
          }
        }
      }
    }
  }

  /** `trim()` yields "" exactly for names made only of white space. */
  lemma TrimEmptyIffBlank(s: string)
    ensures Trim(s) == "" <==> IsBlank(s)
  {
    TrimLeadingEmpty(s);
    TrimTrailingEmpty(TrimLeading(s));
  }

  /** `validateServiceName`: rejects null and names that are empty after
      `trim()`; any other name passes and is used as given, untrimmed. */
  function ValidateServiceName(name: Option<string>): (r: Outcome<ValidationError>)
    ensures r.Pass? <==> name.Some? && !IsBlank(name.value)
    ensures r.Fail? ==> r.error == BlankName
  {
    if name.None? then Fail(BlankName)
    else
      TrimEmptyIffBlank(name.value);
      if Trim(name.value) == "" then Fail(BlankName) else Pass
  }

  /** Names are not normalised: a padded name passes validation and is a
      different service from the unpadded one. */
  lemma PaddedNameIsOwnService()
    ensures ValidateServiceName(Some(" a ")).Pass?
    ensures ValidateServiceName(Some(" \t ")).Fail?
    ensures " a " != "a"
  {
    assert !IsTrimmable(" a "[1]);
    assert IsBlank(" \t ");
  }

  /** `validateServiceExists`: the name must be a key of the adjacency map. */
  function ValidateServiceExists(adj: Adjacency, name: Service): (r: Outcome<ValidationError>)
    ensures r.Pass? <==> name in adj
    ensures r.Fail? ==> r.error == UnknownService(name)
  {
    if name !in adj then Fail(UnknownService(name)) else Pass
  }

  /** `validateServicesSet`: rejects a null or empty set, then checks the
      members one by one in the set's (unspecified) iteration order and
      reports the first one that is not a service. */
  method ValidateServicesSet(adj: Adjacency, services: Option<set<Service>>) returns (r: Outcome<ValidationError>)
    ensures r.Pass? <==> services.Some? && services.value != {} && services.value <= adj.Keys
    ensures r == Fail(EmptyServiceSet) <==> services.None? || services.value == {}
    ensures r.Fail? && r.error != EmptyServiceSet ==>
              r.error.UnknownService? && services.Some? && r.error.name in services.value && r.error.name !in adj
  {
    if services.None? || services.value == {} {
      return Fail(EmptyServiceSet);
    }
    var remaining := services.value;
    while remaining != {}
      invariant remaining <= services.value
      invariant services.value - remaining <= adj.Keys
      decreases remaining
    {
      var service :| service in remaining;
      var check := ValidateServiceExists(adj, service);
      if check.Fail? {
        return check;
      }
      remaining := remaining - {service};
    }
    return Pass;
  }
}
