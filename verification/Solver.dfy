/** The branch-and-bound weighted hitting-set solver `_minimum_weight_contract`. */
module Solver {
  import opened Wrappers
  import opened Order
  import opened Contracts

  // ----- what the solver is for -----

  /** A contract that satisfies every constraint: a dependency-closed hitting set. */
  ghost predicate Solves(costs: map<string, real>, deps: map<string, seq<string>>, constraints: seq<set<string>>, t: set<string>) {
    Contract(costs, deps, t) && HitsAll(constraints, t)
  }

  /** `a` is at least as cheap as `t`; with strictly positive costs, `t` does not beat it on the tie-break either. */
  ghost predicate NoWorse(costs: map<string, real>, a: set<string>, t: set<string>) {
    || Cost(costs, a) < Cost(costs, t)
    || (Cost(costs, a) == Cost(costs, t) && (Positive(costs) ==> !TupleLess(SortedNames(t), SortedNames(a))))
  }

  ghost predicate IsMinimum(costs: map<string, real>, deps: map<string, seq<string>>, constraints: seq<set<string>>, m: set<string>) {
    Solves(costs, deps, constraints, m)
    && forall t :: Solves(costs, deps, constraints, t) ==> NoWorse(costs, m, t)
  }

  lemma NoWorseTransitive(costs: map<string, real>, a: set<string>, b: set<string>, c: set<string>)
    requires NoWorse(costs, a, b) && NoWorse(costs, b, c)
    ensures NoWorse(costs, a, c)
  {
    TupleOrder();
    if Positive(costs) && Cost(costs, a) == Cost(costs, c) {
      var sa, sb, sc := SortedNames(a), SortedNames(b), SortedNames(c);
      assert sa == sb || TupleLess(sa, sb);
      assert sb == sc || TupleLess(sb, sc);
    }
  }

  /** With strictly positive costs the answer is unique, so it does not depend on the order in which
      constraints were listed or branches were explored. */
  lemma MinimumUnique(costs: map<string, real>, deps: map<string, seq<string>>,
                      constraints: seq<set<string>>, constraints': seq<set<string>>,
                      m: set<string>, m': set<string>)
    requires Positive(costs)
    requires forall c :: c in constraints <==> c in constraints'
    requires IsMinimum(costs, deps, constraints, m) && IsMinimum(costs, deps, constraints', m')
    ensures m == m'
  {
    TupleOrder();
    assert Solves(costs, deps, constraints, m') && Solves(costs, deps, constraints', m);
    assert NoWorse(costs, m, m') && NoWorse(costs, m', m);
    SortedNamesInjective(m, m');
  }

  // ----- subsumption reduction -----

  predicate ConstraintLess(a: set<string>, b: set<string>) {
    |a| < |b| || (|a| == |b| && TupleLess(SortedNames(a), SortedNames(b)))
  }

  lemma ConstraintOrder()
    ensures StrictTotal(ConstraintLess)
  {
    TupleOrder();
    forall a: set<string>, b: set<string> ensures a == b || ConstraintLess(a, b) || ConstraintLess(b, a) {
      if SortedNames(a) == SortedNames(b) { SortedNamesInjective(a, b); }
    }
  }

  /** `[existing for existing in reduced if not filtered < existing]` */
  function DropSupersets(reduced: seq<set<string>>, filtered: set<string>): (r: seq<set<string>>)
    ensures forall c :: c in r <==> c in reduced && !(filtered < c)
  {
    if reduced == [] then []
    else (if filtered < reduced[0] then [] else [reduced[0]]) + DropSupersets(reduced[1..], filtered)
  }

  ghost predicate RestrictsOne(r: set<string>, constraints: seq<set<string>>, names: set<string>) {
    exists c :: c in constraints && r == c * names
  }

  ghost predicate Subsumed(c: set<string>, reduced: seq<set<string>>) {
    exists r :: r in reduced && r <= c
  }

  /** `reduced` stands for `constraints` restricted to the costed names. */
  ghost predicate Represents(reduced: seq<set<string>>, constraints: seq<set<string>>, names: set<string>) {
    && (forall r :: r in reduced ==> RestrictsOne(r, constraints, names))
    && (forall c :: c in constraints ==> Subsumed(c, reduced))
  }

  lemma RepresentsHits(reduced: seq<set<string>>, constraints: seq<set<string>>, names: set<string>, t: set<string>)
    requires Represents(reduced, constraints, names) && t <= names
    ensures HitsAll(reduced, t) <==> HitsAll(constraints, t)
  {
    if HitsAll(constraints, t) {
      forall r | r in reduced ensures Hits(r, t) {
        assert RestrictsOne(r, constraints, names);
        var c :| c in constraints && r == c * names;
        assert Hits(c, t);
        var x :| x in c * t;
        assert x in r * t;
      }
    }
    if HitsAll(reduced, t) {
      forall c | c in constraints ensures Hits(c, t) {
        assert Subsumed(c, reduced);
        var r :| r in reduced && r <= c;
        assert Hits(r, t);
        var x :| x in r * t;
        assert x in c * t;
      }
    }
  }

  lemma RepresentsSkip(reduced: seq<set<string>>, done: seq<set<string>>, names: set<string>, c: set<string>)
    requires Represents(reduced, done, names)
    requires Subsumed(c * names, reduced)
    ensures Represents(reduced, done + [c], names)
  {
    forall d | d in done + [c] ensures Subsumed(d, reduced) {
      if d !in done {
        var r :| r in reduced && r <= c * names;
        assert r <= d;
      }
    }
    forall r | r in reduced ensures RestrictsOne(r, done + [c], names) {
      assert RestrictsOne(r, done, names);
      var d :| d in done && r == d * names;
      assert d in done + [c];
    }
  }

  lemma RepresentsAdd(reduced: seq<set<string>>, done: seq<set<string>>, names: set<string>, c: set<string>)
    requires Represents(reduced, done, names)
    ensures Represents(DropSupersets(reduced, c * names) + [c * names], done + [c], names)
  {
    var f := c * names;
    var next := DropSupersets(reduced, f) + [f];
    assert f in next;
    forall d | d in done + [c] ensures Subsumed(d, next) {
      if d in done {
        assert Subsumed(d, reduced);
        var r :| r in reduced && r <= d;
        assert r in next || f < r;
      }
    }
    forall r | r in next ensures RestrictsOne(r, done + [c], names) {
      if r in reduced {
        assert RestrictsOne(r, done, names);
        var d :| d in done && r == d * names;
        assert d in done + [c];
      } else {
        assert c in done + [c];
      }
    }
  }

  /** Filters every constraint to the costed names and keeps the inclusion-minimal ones; refuses when one is empty. */
  method Reduce(constraints: seq<set<string>>, names: set<string>) returns (reduced: Option<seq<set<string>>>)
    ensures reduced.None? ==> exists c :: c in constraints && c * names == {}
    ensures reduced.Some? ==> Represents(reduced.value, constraints, names)
  {
    ConstraintOrder();
    var sorted := SortBy((set c | c in constraints), ConstraintLess);
    var kept: seq<set<string>> := [];
    for i := 0 to |sorted|
      invariant Represents(kept, sorted[..i], names)
    {
      var filtered := sorted[i] * names;
      assert sorted[i] in sorted;
      if filtered == {} {
        return None;
      }
      assert sorted[..i] + [sorted[i]] == sorted[..i + 1];
      if exists e :: e in kept && e <= filtered {
        RepresentsSkip(kept, sorted[..i], names, sorted[i]);
      } else {
        RepresentsAdd(kept, sorted[..i], names, sorted[i]);
        kept := DropSupersets(kept, filtered) + [filtered];
      }
    }
    assert sorted[..|sorted|] == sorted;
    assert forall c :: c in sorted <==> c in constraints;
    reduced := Some(kept);
  }

  // ----- branching -----

  /** The pivot key: size, then total cost, then the sorted names. */
  predicate PivotLess(costs: map<string, real>, a: set<string>, b: set<string>) {
    || |a| < |b|
    || (|a| == |b| && Cost(costs, a) < Cost(costs, b))
    || (|a| == |b| && Cost(costs, a) == Cost(costs, b) && TupleLess(SortedNames(a), SortedNames(b)))
  }

  lemma PivotOrder(costs: map<string, real>, less: (set<string>, set<string>) -> bool)
    requires forall a, b :: less(a, b) == PivotLess(costs, a, b)
    ensures StrictTotal(less)
  {
    TupleOrder();
    forall a: set<string>, b: set<string> ensures a == b || less(a, b) || less(b, a) {
      if SortedNames(a) == SortedNames(b) { SortedNamesInjective(a, b); }
    }
  }

  /** How many of the remaining constraints `name` hits. */
  function Coverage(remaining: seq<set<string>>, name: string): nat {
    if remaining == [] then 0
    else (if name in remaining[0] then 1 else 0) + Coverage(remaining[1..], name)
  }

  /** `costs[name] / max(coverage[name], 1)` */
  function Rate(costs: map<string, real>, remaining: seq<set<string>>, name: string): real {
    var n := Coverage(remaining, name);
    Weight(costs, name) / (if n == 0 then 1 else n) as real
  }

  /** The choice key: cost per covered constraint, then cost, then name. */
  predicate ChoiceLess(costs: map<string, real>, remaining: seq<set<string>>, a: string, b: string) {
    var ra, rb := Rate(costs, remaining, a), Rate(costs, remaining, b);
    || ra < rb
    || (ra == rb && Weight(costs, a) < Weight(costs, b))
    || (ra == rb && Weight(costs, a) == Weight(costs, b) && NameLess(a, b))
  }

  lemma ChoiceOrder(costs: map<string, real>, remaining: seq<set<string>>, less: (string, string) -> bool)
    requires forall a, b :: less(a, b) == ChoiceLess(costs, remaining, a, b)
    ensures StrictTotal(less)
  {
    NameOrder();
  }

  /** `[constraint for constraint in remaining if not (constraint & closed)]` */
  function Unhit(remaining: seq<set<string>>, closed: set<string>): (r: seq<set<string>>)
    ensures forall c :: c in r <==> c in remaining && !Hits(c, closed)
    ensures |r| <= |remaining|
    ensures (exists c :: c in remaining && Hits(c, closed)) ==> |r| < |remaining|
  {
    if remaining == [] then []
    else (if !Hits(remaining[0], closed) then [remaining[0]] else []) + Unhit(remaining[1..], closed)
  }

  /** The cheapest smallest constraint, and its names by increasing cost per covered constraint. */
  method Choices(costs: map<string, real>, remaining: seq<set<string>>) returns (pivot: set<string>, choices: seq<string>)
    requires remaining != []
    ensures pivot in remaining && forall c :: c in remaining ==> c == pivot || PivotLess(costs, pivot, c)
    ensures forall x :: x in choices <==> x in pivot
    ensures forall i, j :: 0 <= i < j < |choices| ==> ChoiceLess(costs, remaining, choices[i], choices[j])
  {
    var pivotLess := (a, b) => PivotLess(costs, a, b);
    PivotOrder(costs, pivotLess);
    pivot := MinBy(remaining, pivotLess);
    var choiceLess := (a, b) => ChoiceLess(costs, remaining, a, b);
    ChoiceOrder(costs, remaining, choiceLess);
    choices := SortBy(pivot, choiceLess);
  }

  /** The two variables the recursion updates through `nonlocal`. */
  class Search {
    const costs: map<string, real>
    const deps: map<string, seq<string>>
    ghost const goal: seq<set<string>>
    var best: Option<set<string>>
    var bestCost: Option<real>   // None stands for float("inf")

    constructor (costs: map<string, real>, deps: map<string, seq<string>>, ghost goal: seq<set<string>>)
      requires NonNegative(costs)
      ensures Valid() && best == None
      ensures this.costs == costs && this.deps == deps && this.goal == goal
    {
      this.costs, this.deps, this.goal := costs, deps, goal;
      best, bestCost := None, None;
    }

    ghost predicate Valid()
      reads this
    {
      && NonNegative(costs)
      && (best.Some? <==> bestCost.Some?)
      && (best.Some? ==> Solves(costs, deps, goal, best.value) && bestCost.value == Cost(costs, best.value))
    }

    /** The incumbent `b` is no worse than `t`. */
    ghost predicate Beats(b: Option<set<string>>, t: set<string>) {
      b.Some? && NoWorse(costs, b.value, t)
    }

    ghost predicate Chosen(names: seq<string>, t: set<string>) {
      exists x :: x in names && x in t
    }

    /** Every solution of `remaining` that extends `selected`. */
    ghost predicate Extends(selected: set<string>, remaining: seq<set<string>>, t: set<string>) {
      selected <= t && Solves(costs, deps, remaining, t)
    }

    ghost predicate Underway(selected: set<string>, remaining: seq<set<string>>)
      reads this
    {
      && Valid() && Contract(costs, deps, selected)
      && (forall c :: c in remaining ==> c <= costs.Keys)
      && (forall c :: c in goal ==> Hits(c, selected) || c in remaining)
    }

    lemma ExtendsCost(selected: set<string>, remaining: seq<set<string>>)
      requires NonNegative(costs)
      ensures forall t :: Extends(selected, remaining, t) ==> Cost(costs, selected) <= Cost(costs, t)
      ensures Positive(costs) ==> forall t :: Extends(selected, remaining, t) && selected != t ==> Cost(costs, selected) < Cost(costs, t)
    {
      forall t | Extends(selected, remaining, t)
        ensures Cost(costs, selected) <= Cost(costs, t) && (Positive(costs) && selected != t ==> Cost(costs, selected) < Cost(costs, t)) {
        CostMonotone(costs, selected, t);
      }
    }

    /** Explores every solution extending `selected`; pruning and dependency closure lose none of them. */
    method Recurse(selected: set<string>, remaining: seq<set<string>>)
      requires Underway(selected, remaining)
      modifies this`best, this`bestCost
      ensures Valid()
      ensures forall t :: Extends(selected, remaining, t) || Beats(old(best), t) ==> Beats(best, t)
      decreases |remaining|, 1
    {
      var currentCost := Cost(costs, selected);
      ExtendsCost(selected, remaining);
      if bestCost.Some? && currentCost > bestCost.value {
        return;
      }
      if remaining == [] {
        Offer(selected);
        return;
      }
      var pivot, choices := Choices(costs, remaining);
      for i := 0 to |choices|
        invariant Underway(selected, remaining)
        invariant forall t :: Beats(old(best), t) ==> Beats(best, t)
        invariant forall t :: Chosen(choices[..i], t) && Extends(selected, remaining, t) ==> Beats(best, t)
      {
        Branch(selected, remaining, pivot, choices[i]);
        ChosenNext(choices, i);
      }
      assert choices[..|choices|] == choices;
      forall t | Extends(selected, remaining, t) ensures Chosen(choices, t) {
        assert Hits(pivot, t);
        var x :| x in pivot * t;
      }
    }

    lemma ChosenNext(names: seq<string>, i: nat)
      requires i < |names|
      ensures forall t :: Chosen(names[..i + 1], t) ==> Chosen(names[..i], t) || names[i] in t
    {
      assert names[..i + 1] == names[..i] + [names[i]];
    }

    /** The leaf of the recursion. */
    method Offer(selected: set<string>)
      requires Underway(selected, [])
      modifies this`best, this`bestCost
      ensures Valid()
      ensures forall t :: Extends(selected, [], t) || Beats(old(best), t) ==> Beats(best, t)
    {
      var currentCost := Cost(costs, selected);
      ExtendsCost(selected, []);
      NoWorseTransitiveForall();
      TupleOrder();
      if bestCost.None? || currentCost < bestCost.value
         || (currentCost == bestCost.value && TupleLess(SortedNames(selected), SortedNames(best.value))) {
        assert best.Some? ==> NoWorse(costs, selected, best.value);
        best, bestCost := Some(selected), Some(currentCost);
      }
      forall t | Extends(selected, [], t) ensures NoWorse(costs, selected, t) {
      }
      assert NoWorse(costs, best.value, selected);
    }

    /** One iteration of the choice loop. */
    method Branch(selected: set<string>, remaining: seq<set<string>>, pivot: set<string>, name: string)
      requires Underway(selected, remaining)
      requires pivot in remaining && name in pivot
      modifies this`best, this`bestCost
      ensures Valid()
      ensures forall t :: (name in t && Extends(selected, remaining, t)) || Beats(old(best), t) ==> Beats(best, t)
      decreases |remaining|, 0
    {
      var closed := DependencyClosure(selected + {name}, deps, costs.Keys);
      if closed.None? {
        forall t ensures !(name in t && Extends(selected, remaining, t)) {
          assert name in t && selected <= t ==> selected + {name} <= t;
        }
        return;
      }
      var rest := Unhit(remaining, closed.value);
      forall t | name in t && Extends(selected, remaining, t) ensures Extends(closed.value, rest, t) {
        assert selected + {name} <= t;
      }
      if bestCost.Some? && Cost(costs, closed.value) > bestCost.value {
        ExtendsCost(closed.value, rest);
        return;
      }
      BranchUnderway(selected, remaining, pivot, name, closed.value);
      Recurse(closed.value, rest);
    }

    lemma BranchUnderway(selected: set<string>, remaining: seq<set<string>>, pivot: set<string>, name: string, closed: set<string>)
      requires Underway(selected, remaining)
      requires pivot in remaining && name in pivot
      requires selected + {name} <= closed && Contract(costs, deps, closed)
      ensures Underway(closed, Unhit(remaining, closed))
      ensures |Unhit(remaining, closed)| < |remaining|
    {
      assert name in pivot * closed;
      assert Hits(pivot, closed);
      forall c | c in goal ensures Hits(c, closed) || c in Unhit(remaining, closed) {
        if Hits(c, selected) {
          var x :| x in c * selected;
          assert x in c * closed;
        }
      }
    }

    lemma NoWorseTransitiveForall()
      ensures forall a, b, c :: NoWorse(costs, a, b) && NoWorse(costs, b, c) ==> NoWorse(costs, a, c)
    {
      forall a, b, c | NoWorse(costs, a, b) && NoWorse(costs, b, c) ensures NoWorse(costs, a, c) {
        NoWorseTransitive(costs, a, b, c);
      }
    }
  }

  // ----- the solver -----

  /** Exact in both directions: refused iff no closed hitting set exists, otherwise a minimum one. */
  method MinimumWeightContract(constraints: seq<set<string>>, costs: map<string, real>, deps: map<string, seq<string>>)
    returns (best: Option<set<string>>)
    requires NonNegative(costs)
    ensures best.None? <==> !exists t :: Solves(costs, deps, constraints, t)
    ensures best.Some? ==> IsMinimum(costs, deps, constraints, best.value)
  {
    var reduced := Reduce(constraints, costs.Keys);
    if reduced.None? {
      ghost var c :| c in constraints && c * costs.Keys == {};
      forall t ensures !Solves(costs, deps, constraints, t) {
        assert t <= costs.Keys ==> c * t == {};
        assert Hits(c, t) <==> c * t != {};
      }
      return None;
    }
    forall t ensures Solves(costs, deps, reduced.value, t) <==> Solves(costs, deps, constraints, t) {
      if t <= costs.Keys { RepresentsHits(reduced.value, constraints, costs.Keys, t); }
    }
    ReducedNames(reduced.value, constraints, costs.Keys);
    var search := new Search(costs, deps, reduced.value);
    search.Recurse({}, reduced.value);
    best := search.best;
    forall t | Solves(costs, deps, constraints, t) ensures best.Some? && NoWorse(costs, best.value, t) {
      assert search.Extends({}, reduced.value, t);
      assert search.Beats(search.best, t);
    }
  }

  lemma ReducedNames(reduced: seq<set<string>>, constraints: seq<set<string>>, names: set<string>)
    requires Represents(reduced, constraints, names)
    ensures forall r :: r in reduced ==> r <= names
  {
    forall r | r in reduced ensures r <= names {
      assert RestrictsOne(r, constraints, names);
    }
  }
}
