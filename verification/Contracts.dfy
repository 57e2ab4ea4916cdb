/** Evidence contracts as sets of mechanism names: cost, dependency closure, and hitting sets. */
module Contracts {
  import opened Wrappers
  import opened Order

  lemma {:induction false} SubsetSize<T>(a: set<T>, b: set<T>)
    requires a <= b
    ensures |a| <= |b|
  {
    if a != {} {
      var x :| x in a;
      SubsetSize(a - {x}, b - {x});
    }
  }

  function Weight(costs: map<string, real>, x: string): real {
    if x in costs then costs[x] else 0.0
  }

  /** `sum(costs[name] for name in s)`, without rounding. */
  function Cost(costs: map<string, real>, s: set<string>): real {
    if s == {} then 0.0
    else
      var x := LeastName(s);
      Weight(costs, x) + Cost(costs, s - {x})
  }

  ghost predicate NonNegative(costs: map<string, real>) {
    forall x :: x in costs ==> costs[x] >= 0.0
  }

  ghost predicate Positive(costs: map<string, real>) {
    forall x :: x in costs ==> costs[x] > 0.0
  }

  lemma {:induction false} CostRemove(costs: map<string, real>, s: set<string>, x: string)
    requires x in s
    ensures Cost(costs, s) == Weight(costs, x) + Cost(costs, s - {x})
  {
    var m := LeastName(s);
    if m != x {
      CostRemove(costs, s - {m}, x);
      CostRemove(costs, s - {x}, m);
      assert s - {m} - {x} == s - {x} - {m};
    }
  }

  lemma {:induction false} CostMonotone(costs: map<string, real>, s: set<string>, t: set<string>)
    requires NonNegative(costs) && s <= t
    ensures Cost(costs, s) <= Cost(costs, t)
    ensures Positive(costs) && s != t && t <= costs.Keys ==> Cost(costs, s) < Cost(costs, t)
    decreases t
  {
    if s != t {
      var x :| x in t && x !in s;
      CostRemove(costs, t, x);
      CostMonotone(costs, s, t - {x});
    }
  }

  /** `dependencies.get(x, ())`. */
  function Requires(deps: map<string, seq<string>>, x: string): seq<string> {
    if x in deps then deps[x] else []
  }

  ghost predicate Closed(deps: map<string, seq<string>>, s: set<string>) {
    forall x, y :: x in s && y in Requires(deps, x) ==> y in s
  }

  /** A dependency-closed selection from the costed mechanisms. */
  ghost predicate Contract(costs: map<string, real>, deps: map<string, seq<string>>, s: set<string>) {
    s <= costs.Keys && Closed(deps, s)
  }

  predicate Hits(constraint: set<string>, s: set<string>) {
    constraint * s != {}
  }

  ghost predicate HitsAll(constraints: seq<set<string>>, s: set<string>) {
    forall c :: c in constraints ==> Hits(c, s)
  }

  /** Every closed superset of `chosen` contains `s`. */
  ghost predicate Forced(deps: map<string, seq<string>>, chosen: set<string>, s: set<string>) {
    forall t :: chosen <= t && Closed(deps, t) ==> s <= t
  }

  /** Only names still pending may have dependencies outside `s`. */
  ghost predicate Pursued(deps: map<string, seq<string>>, s: set<string>, pending: seq<string>) {
    forall x, y :: x in s && x !in pending && y in Requires(deps, x) ==> y in s
  }

  /** The inner loop of the worklist: adds the dependencies of one name, refusing one that is not allowed. */
  method AddRequired(s: set<string>, pending: seq<string>, needed: seq<string>, allowed: set<string>)
    returns (ok: bool, s': set<string>, pending': seq<string>)
    ensures ok ==> s <= s' && (forall y :: y in needed ==> y in s' && y in allowed)
    ensures ok ==> forall y :: y in s' ==> y in s || y in needed
    ensures ok ==> forall y :: y in pending' <==> y in pending || (y in s' && y !in s)
    ensures ok && s' == s ==> pending' == pending
    ensures !ok ==> exists y :: y in needed && y !in allowed
  {
    ok, s', pending' := true, s, pending;
    for i := 0 to |needed|
      invariant s <= s'
      invariant forall j :: 0 <= j < i ==> needed[j] in s' && needed[j] in allowed
      invariant forall y :: y in s' ==> y in s || y in needed
      invariant forall y :: y in pending' <==> y in pending || (y in s' && y !in s)
      invariant s' == s ==> pending' == pending
    {
      if needed[i] !in allowed {
        ok := false;
        return;
      }
      if needed[i] !in s' {
        s' := s' + {needed[i]};
        pending' := pending' + [needed[i]];
      }
    }
  }

  /** The closure is the least dependency-closed superset of `chosen`; it is refused exactly when
      that superset leaves `allowed`. */
  method DependencyClosure(chosen: set<string>, deps: map<string, seq<string>>, allowed: set<string>)
    returns (r: Option<set<string>>)
    ensures r.Some? ==> chosen <= r.value <= chosen + allowed && Closed(deps, r.value)
    ensures r.Some? ==> forall t :: chosen <= t && Closed(deps, t) ==> r.value <= t
    ensures r.None? ==> forall t :: chosen <= t <= allowed ==> !Closed(deps, t)
  {
    var closure := chosen;
    var pending := SortedNames(chosen);
    while pending != []
      invariant chosen <= closure <= chosen + allowed
      invariant forall x :: x in pending ==> x in closure
      invariant Pursued(deps, closure, pending)
      invariant Forced(deps, chosen, closure)
      decreases (chosen + allowed) - closure, |pending|
    {
      var current, rest := pending[|pending| - 1], pending[..|pending| - 1];
      assert forall x :: x in pending <==> x == current || x in rest;
      var needed := Requires(deps, current);
      var ok, closure', pending' := AddRequired(closure, rest, needed, allowed);
      ForcedRequired(deps, chosen, closure, current);
      if !ok {
        return None;
      }
      closure, pending := closure', pending';
    }
    r := Some(closure);
  }

  lemma ForcedRequired(deps: map<string, seq<string>>, chosen: set<string>, s: set<string>, x: string)
    requires Forced(deps, chosen, s) && x in s
    ensures forall t, y :: chosen <= t && Closed(deps, t) && y in Requires(deps, x) ==> y in t
  {
  }
}
