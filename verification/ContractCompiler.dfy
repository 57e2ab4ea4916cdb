/** `compile_minimum_contract`: enumeration of every candidate contract under an optional cap. */
module ContractCompiler {
  import opened Wrappers
  import opened Order
  import opened Contracts
  import opened FiniteTables
  import opened Subsets
  import opened ContractSearch

  // ----- candidates -----

  /** A closed candidate, with the positions of the critical pairs it misses. */
  datatype Candidate = Candidate(contract: seq<string>, missing: seq<nat>, cost: real)

  function MissedBefore(edges: seq<set<string>>, t: set<string>, n: nat): (r: seq<nat>)
    requires n <= |edges|
    ensures forall k: nat :: k in r <==> k < n && !Hits(edges[k], t)
  {
    if n == 0 then []
    else MissedBefore(edges, t, n - 1) + if Hits(edges[n - 1], t) then [] else [n - 1]
  }

  lemma NothingMissed(edges: seq<set<string>>, t: set<string>)
    ensures MissedBefore(edges, t, |edges|) == [] <==> HitsAll(edges, t)
  {
    var r := MissedBefore(edges, t, |edges|);
    if r == [] {
      forall c | c in edges ensures Hits(c, t) {
        var k :| 0 <= k < |edges| && edges[k] == c;
        assert k !in r;
      }
    } else {
      assert r[0] in r;
      assert !Hits(edges[r[0]], t) && edges[r[0]] in edges;
    }
  }

  function CandidateFor(p: Problem, edges: seq<set<string>>, subset: seq<string>): Candidate {
    Candidate(subset, MissedBefore(edges, Elements(subset), |edges|), Cost(Prices(p), Elements(subset)))
  }

  ghost function CandidatesIn(p: Problem, edges: seq<set<string>>, subsets: seq<seq<string>>): seq<Candidate> {
    if subsets == [] then []
    else
      var init, last := subsets[..|subsets| - 1], subsets[|subsets| - 1];
      CandidatesIn(p, edges, init) + if Closed(Required(p), Elements(last)) then [CandidateFor(p, edges, last)] else []
  }

  lemma {:induction false} CandidatesExactly(p: Problem, edges: seq<set<string>>, subsets: seq<seq<string>>, c: Candidate)
    ensures c in CandidatesIn(p, edges, subsets) <==>
              c.contract in subsets && Closed(Required(p), Elements(c.contract)) && c == CandidateFor(p, edges, c.contract)
  {
    if subsets != [] {
      var init, last := subsets[..|subsets| - 1], subsets[|subsets| - 1];
      CandidatesExactly(p, edges, init, c);
      assert c.contract in subsets <==> c.contract in init || c.contract == last;
    }
  }

  /** A set is closed when it is its own dependency closure. */
  method IsClosed(p: Problem, t: set<string>) returns (closed: bool)
    requires t <= Admissible(p)
    ensures closed <==> Closed(Required(p), t)
  {
    var closure := DependencyClosure(t, Required(p), Admissible(p));
    closed := closure == Some(t);
    if Closed(Required(p), t) {
      assert t <= t <= Admissible(p);
      assert closure.value == t;
    }
  }

  method Visit(p: Problem, edges: seq<set<string>>, subset: seq<string>) returns (c: seq<Candidate>)
    requires Elements(subset) <= Admissible(p)
    ensures c == if Closed(Required(p), Elements(subset)) then [CandidateFor(p, edges, subset)] else []
  {
    var closed := IsClosed(p, Elements(subset));
    c := if closed then [CandidateFor(p, edges, subset)] else [];
  }

  lemma {:induction false} SmallerGrows(names: seq<string>, size: nat, size': nat)
    requires size <= size'
    ensures |Smaller(names, size)| <= |Smaller(names, size')|
    decreases size'
  {
    if size < size' { SmallerGrows(names, size, size' - 1); }
  }

  lemma CandidatesStep(p: Problem, edges: seq<set<string>>, subsets: seq<seq<string>>, subset: seq<string>)
    ensures CandidatesIn(p, edges, subsets + [subset]) ==
              CandidatesIn(p, edges, subsets) + if Closed(Required(p), Elements(subset)) then [CandidateFor(p, edges, subset)] else []
  {
    var longer := subsets + [subset];
    assert longer[..|longer| - 1] == subsets;
  }

  ghost predicate Progress(p: Problem, edges: seq<set<string>>, visited: seq<seq<string>>,
                           candidates: seq<Candidate>, explored: nat, limit: int) {
    explored == |visited| && (explored == 0 || explored <= limit) && candidates == CandidatesIn(p, edges, visited)
  }

  lemma ProgressStep(p: Problem, edges: seq<set<string>>, visited: seq<seq<string>>,
                     candidates: seq<Candidate>, explored: nat, limit: int, subset: seq<string>)
    requires Progress(p, edges, visited, candidates, explored, limit) && explored < limit
    ensures Progress(p, edges, visited + [subset],
                     candidates + if Closed(Required(p), Elements(subset)) then [CandidateFor(p, edges, subset)] else [],
                     explored + 1, limit)
  {
    CandidatesStep(p, edges, visited, subset);
  }

  lemma AppendNext<T>(before: seq<T>, next: seq<T>, j: nat)
    requires j < |next|
    ensures before + next[..j + 1] == before + next[..j] + [next[j]]
  {
  }

  /** The combinations of one size. Stops at the limit. */
  method VisitSize(p: Problem, edges: seq<set<string>>, subsets: seq<seq<string>>, ghost before: seq<seq<string>>,
                   candidates: seq<Candidate>, explored: nat, limit: int)
    returns (candidates': seq<Candidate>, explored': nat, complete: bool)
    requires forall k :: 0 <= k < |subsets| ==> Elements(subsets[k]) <= Admissible(p)
    requires Progress(p, edges, before, candidates, explored, limit)
    ensures complete ==> Progress(p, edges, before + subsets, candidates', explored', limit)
    ensures !complete ==> limit < |before| + |subsets| && explored' == if limit < 0 then 0 else limit
  {
    candidates', explored' := candidates, explored;
    ghost var visited := before;
    for j := 0 to |subsets|
      invariant visited == before + subsets[..j]
      invariant Progress(p, edges, visited, candidates', explored', limit)
    {
      if explored' >= limit {
        complete := false;
        return;
      }
      var more := Visit(p, edges, subsets[j]);
      ProgressStep(p, edges, visited, candidates', explored', limit, subsets[j]);
      AppendNext(before, subsets, j);
      visited := visited + [subsets[j]];
      candidates', explored' := candidates' + more, explored' + 1;
    }
    assert before + subsets[..|subsets|] == before + subsets;
    complete := true;
  }

  lemma CombinationsAdmissible(p: Problem, names: seq<string>, subsets: seq<seq<string>>, size: nat)
    requires Sorted(NameLess, names) && Elements(names) <= Admissible(p) && subsets == Combinations(names, size)
    ensures forall k :: 0 <= k < |subsets| ==> Elements(subsets[k]) <= Admissible(p)
  {
    forall k | 0 <= k < |subsets| ensures Elements(subsets[k]) <= Admissible(p) {
      CombinationsExactly(names, size, subsets[k]);
      CombinationsAreSorted(NameLess, names, size, subsets[k]);
    }
  }

  /** Explores exactly min(limit, 2^n) states, and finishes exactly when the limit allows all of them. */
  method Explore(p: Problem, names: seq<string>, edges: seq<set<string>>, limit: int)
    returns (candidates: seq<Candidate>, explored: nat, complete: bool)
    requires Sorted(NameLess, names) && Elements(names) <= Admissible(p)
    ensures complete <==> Power(|names|) <= limit
    ensures complete ==> explored == Power(|names|) && candidates == CandidatesIn(p, edges, AllSubsets(names))
    ensures !complete ==> explored == if limit < 0 then 0 else limit
  {
    candidates, explored := [], 0;
    SubsetCount(names);
    for size := 0 to |names| + 1
      invariant Progress(p, edges, Smaller(names, size), candidates, explored, limit)
    {
      var subsets := Combinations(names, size);
      CombinationsAdmissible(p, names, subsets, size);
      SmallerGrows(names, size + 1, |names| + 1);
      candidates, explored, complete := VisitSize(p, edges, subsets, Smaller(names, size), candidates, explored, limit);
      if !complete {
        return;
      }
    }
    complete := true;
    PowerPositive(|names|);
  }

  lemma {:induction false} PowerPositive(n: nat)
    ensures Power(n) > 0
  {
    if n > 0 { PowerPositive(n - 1); }
  }

  // ----- selection -----

  /** The preferred contract is unique, so a verdict does not depend on how it was found. */
  lemma BestUnique(p: Problem, s: seq<string>, t: seq<string>)
    requires IsBest(p, s) && IsBest(p, t)
    ensures s == t
  {
    if Elements(s) != Elements(t) {
      assert Preferred(Prices(p), s, t);
      PreferredAsymmetric(Prices(p), s, t);
    }
  }

  /** `edges` are the separator sets of the critical pairs, over the feasible mechanisms. */
  ghost predicate AreEdges(p: Problem, pairs: seq<(nat, nat)>, edges: seq<set<string>>) {
    && AllCriticalPairs(p, pairs) && |edges| == |pairs|
    && forall k :: 0 <= k < |pairs| ==> IsEdge(p, pairs[k], edges[k])
  }

  ghost predicate IsEdge(p: Problem, pair: (nat, nat), edge: set<string>) {
    Critical(p, pair.0, pair.1) && edge == Separators(p, Feasible(p), pair.0, pair.1)
  }

  method Edges(p: Problem, pairs: seq<(nat, nat)>, feasible: set<string>) returns (edges: seq<set<string>>)
    requires AllCriticalPairs(p, pairs) && feasible == Feasible(p)
    ensures AreEdges(p, pairs, edges)
  {
    edges := [];
    for k := 0 to |pairs|
      invariant |edges| == k && forall l :: 0 <= l < k ==> IsEdge(p, pairs[l], edges[l])
    {
      assert Critical(p, pairs[k].0, pairs[k].1);
      edges := edges + [Separators(p, feasible, pairs[k].0, pairs[k].1)];
    }
  }

  lemma EdgeHit(p: Problem, t: set<string>, i: nat, j: nat)
    requires Critical(p, i, j) && t <= Feasible(p)
    ensures Hits(Separators(p, Feasible(p), i, j), t) <==> Covers(p, t, i, j)
  {
    var all := Separators(p, Feasible(p), i, j);
    assert all * t == Separators(p, t, i, j);
  }

  /** Duality with hitting sets. */
  lemma HittingIsSufficiency(p: Problem, pairs: seq<(nat, nat)>, edges: seq<set<string>>, t: set<string>)
    requires AreEdges(p, pairs, edges) && t <= Feasible(p)
    ensures HitsAll(edges, t) <==> Sufficient(p, t)
  {
    if HitsAll(edges, t) {
      forall i: nat, j: nat ensures Covers(p, t, i, j) {
        if Critical(p, i, j) {
          assert HasPair(pairs, i, j);
          var k :| 0 <= k < |pairs| && pairs[k] == (i, j);
          assert IsEdge(p, pairs[k], edges[k]) && edges[k] in edges;
          EdgeHit(p, t, i, j);
        }
      }
    }
    if Sufficient(p, t) {
      forall c | c in edges ensures Hits(c, t) {
        var k :| 0 <= k < |edges| && edges[k] == c;
        assert IsEdge(p, pairs[k], edges[k]);
        EdgeHit(p, t, pairs[k].0, pairs[k].1);
        assert Covers(p, t, pairs[k].0, pairs[k].1);
      }
    }
  }

  lemma CandidateShape(p: Problem, edges: seq<set<string>>, names: seq<string>, c: Candidate)
    requires names == SortedNames(Feasible(p)) && c in CandidatesIn(p, edges, AllSubsets(names))
    ensures c == CandidateFor(p, edges, c.contract) && Closed(Required(p), Elements(c.contract))
    ensures c.contract == SortedNames(Elements(c.contract)) && Elements(c.contract) <= Feasible(p)
  {
    CandidatesExactly(p, edges, AllSubsets(names), c);
    CandidateIsSorted(names, c.contract);
    assert Elements(names) == Feasible(p);
  }

  /** The candidates without a missed pair are exactly the adequate contracts. */
  lemma CandidatesAreAdequate(p: Problem, pairs: seq<(nat, nat)>, edges: seq<set<string>>, names: seq<string>, c: Candidate)
    requires AreEdges(p, pairs, edges) && names == SortedNames(Feasible(p))
    requires c in CandidatesIn(p, edges, AllSubsets(names))
    ensures c.contract == SortedNames(Elements(c.contract)) && Elements(c.contract) <= Feasible(p)
    ensures c.cost == Cost(Prices(p), Elements(c.contract))
    ensures c.missing == [] <==> Adequate(p, Elements(c.contract))
  {
    CandidateShape(p, edges, names, c);
    var t := Elements(c.contract);
    HittingIsSufficiency(p, pairs, edges, t);
    NothingMissed(edges, t);
    FeasibleIsLargest(p);
    assert Adequate(p, t) <==> Sufficient(p, t);
  }

  /** The candidate table has a row for the contract. */
  ghost predicate Tabled(candidates: seq<Candidate>, t: set<string>) {
    exists k :: 0 <= k < |candidates| && Elements(candidates[k].contract) == t
  }

  /** The candidate table lists exactly the closed sets of feasible mechanisms. */
  lemma CandidateTable(p: Problem, edges: seq<set<string>>, names: seq<string>, t: set<string>)
    requires names == SortedNames(Feasible(p))
    ensures Tabled(CandidatesIn(p, edges, AllSubsets(names)), t) <==> t <= Feasible(p) && Closed(Required(p), t)
  {
    var candidates := CandidatesIn(p, edges, AllSubsets(names));
    if Tabled(candidates, t) {
      var k :| 0 <= k < |candidates| && Elements(candidates[k].contract) == t;
      CandidateShape(p, edges, names, candidates[k]);
    }
    if t <= Feasible(p) && Closed(Required(p), t) {
      var c := ClosedIsCandidate(p, edges, names, t);
      var k :| 0 <= k < |candidates| && candidates[k] == c;
    }
  }

  lemma ClosedIsCandidate(p: Problem, edges: seq<set<string>>, names: seq<string>, t: set<string>) returns (c: Candidate)
    requires names == SortedNames(Feasible(p)) && t <= Feasible(p) && Closed(Required(p), t)
    ensures c == CandidateFor(p, edges, SortedNames(t)) && c in CandidatesIn(p, edges, AllSubsets(names)) && Elements(c.contract) == t
  {
    c := CandidateFor(p, edges, SortedNames(t));
    assert Elements(names) == Feasible(p) && Elements(SortedNames(t)) == t;
    AllSubsetsExactly(names, SortedNames(t));
    CandidatesExactly(p, edges, AllSubsets(names), c);
  }

  lemma BestIsCheapest(p: Problem, selected: seq<string>, t: set<string>)
    requires IsBest(p, selected) && Adequate(p, t)
    ensures Cost(Prices(p), Elements(selected)) <= Cost(Prices(p), t)
  {
    assert Elements(SortedNames(t)) == t;
    assert t != Elements(selected) ==> Preferred(Prices(p), selected, SortedNames(t));
  }

  /** What the optimality certificate claims is always true: no candidate of lower cost separates every pair. */
  lemma LowerCostInfeasible(p: Problem, pairs: seq<(nat, nat)>, edges: seq<set<string>>, names: seq<string>,
                            selected: seq<string>, c: Candidate)
    requires AreEdges(p, pairs, edges) && names == SortedNames(Feasible(p)) && IsBest(p, selected)
    requires c in CandidatesIn(p, edges, AllSubsets(names)) && c.cost < Cost(Prices(p), Elements(selected))
    ensures c.missing != []
  {
    CandidatesAreAdequate(p, pairs, edges, names, c);
    if Adequate(p, Elements(c.contract)) { BestIsCheapest(p, selected, Elements(c.contract)); }
  }

  lemma AdequateIsCandidate(p: Problem, pairs: seq<(nat, nat)>, edges: seq<set<string>>, names: seq<string>, t: set<string>)
    requires AreEdges(p, pairs, edges) && names == SortedNames(Feasible(p)) && Adequate(p, t)
    ensures CandidateFor(p, edges, SortedNames(t)) in CandidatesIn(p, edges, AllSubsets(names))
    ensures CandidateFor(p, edges, SortedNames(t)).missing == []
  {
    FeasibleIsLargest(p);
    var c := ClosedIsCandidate(p, edges, names, t);
    HittingIsSufficiency(p, pairs, edges, t);
    NothingMissed(edges, t);
  }

  /** The candidates with nothing missing. */
  method SufficientContracts(candidates: seq<Candidate>) returns (sufficient: seq<seq<string>>)
    ensures forall s :: s in sufficient <==> exists c :: c in candidates && c.missing == [] && c.contract == s
  {
    sufficient := [];
    for k := 0 to |candidates|
      invariant forall s :: s in sufficient <==> exists c :: c in candidates[..k] && c.missing == [] && c.contract == s
    {
      assert candidates[..k + 1] == candidates[..k] + [candidates[k]];
      if candidates[k].missing == [] {
        sufficient := sufficient + [candidates[k].contract];
      }
    }
    assert candidates[..|candidates|] == candidates;
  }

  lemma SufficientAreAdequate(p: Problem, pairs: seq<(nat, nat)>, edges: seq<set<string>>, names: seq<string>, sufficient: seq<seq<string>>)
    requires AreEdges(p, pairs, edges) && names == SortedNames(Feasible(p))
    requires forall s :: s in sufficient <==> exists c :: c in CandidatesIn(p, edges, AllSubsets(names)) && c.missing == [] && c.contract == s
    ensures forall s :: s in sufficient ==> s == SortedNames(Elements(s)) && Adequate(p, Elements(s))
    ensures forall t :: Adequate(p, t) ==> SortedNames(t) in sufficient
  {
    forall s | s in sufficient ensures s == SortedNames(Elements(s)) && Adequate(p, Elements(s)) {
      var c :| c in CandidatesIn(p, edges, AllSubsets(names)) && c.missing == [] && c.contract == s;
      CandidatesAreAdequate(p, pairs, edges, names, c);
    }
    forall t | Adequate(p, t) ensures SortedNames(t) in sufficient {
      AdequateIsCandidate(p, pairs, edges, names, t);
    }
  }

  method Select(p: Problem, ghost pairs: seq<(nat, nat)>, ghost edges: seq<set<string>>, ghost names: seq<string>, candidates: seq<Candidate>)
    returns (best: Option<seq<string>>)
    requires AreEdges(p, pairs, edges) && names == SortedNames(Feasible(p)) && candidates == CandidatesIn(p, edges, AllSubsets(names))
    ensures best.Some? ==> IsBest(p, best.value)
    ensures best.None? ==> forall t :: !Adequate(p, t)
  {
    var sufficient := SufficientContracts(candidates);
    SufficientAreAdequate(p, pairs, edges, names, sufficient);
    if sufficient == [] {
      return None;
    }
    var selected := PickBest(p, sufficient);
    best := Some(selected);
  }

  method PickBest(p: Problem, sufficient: seq<seq<string>>) returns (selected: seq<string>)
    requires sufficient != []
    requires forall s :: s in sufficient ==> s == SortedNames(Elements(s)) && Adequate(p, Elements(s))
    requires forall t :: Adequate(p, t) ==> SortedNames(t) in sufficient
    ensures IsBest(p, selected)
  {
    var less := (s, t) => Preferred(Prices(p), s, t);
    PreferredOrder(Prices(p), less);
    selected := MinBy(sufficient, less);
    forall t | Adequate(p, t) && t != Elements(selected) ensures Preferred(Prices(p), selected, SortedNames(t)) {
      assert SortedNames(t) in sufficient;
      assert less(selected, SortedNames(t));
    }
  }

  // ----- certificates of the verdict -----

  /** The first critical pair, in order, that no feasible mechanism separates. */
  ghost predicate IsObstruction(p: Problem, pair: (nat, nat)) {
    && IsEdge(p, pair, {})
    && forall i, j :: Critical(p, i, j) && Earlier((i, j), pair) ==> Separators(p, Feasible(p), i, j) != {}
  }

  /** `next(pair for pair in critical_pairs if ...)` */
  method FirstMissed(edges: seq<set<string>>, t: set<string>) returns (k: nat)
    requires !HitsAll(edges, t)
    ensures k < |edges| && !Hits(edges[k], t) && forall l :: 0 <= l < k ==> Hits(edges[l], t)
  {
    k := 0;
    for n := 0 to |edges|
      invariant forall l :: 0 <= l < n ==> Hits(edges[l], t)
    {
      if !Hits(edges[n], t) {
        return n;
      }
    }
    assert false;
  }

  /** Dropping `m` leaves a set that is not closed, or an unseparated critical pair. */
  ghost predicate IsDeletionWitness(p: Problem, reduced: set<string>, w: Option<(nat, nat)>) {
    && (w.None? <==> !Closed(Required(p), reduced))
    && (w.Some? ==> Critical(p, w.value.0, w.value.1) && !Covers(p, reduced, w.value.0, w.value.1))
  }

  /** Costs are positive, so nothing in the selected contract can be spared. */
  lemma BestIsIrredundant(p: Problem, selected: seq<string>, m: string)
    requires Shaped(p) && IsBest(p, selected) && m in selected && Closed(Required(p), Elements(selected) - {m})
    ensures !Sufficient(p, Elements(selected) - {m})
  {
    var s := Elements(selected);
    if Sufficient(p, s - {m}) {
      assert Adequate(p, s - {m});
      assert Preferred(Prices(p), selected, SortedNames(s - {m}));
      assert Elements(SortedNames(s - {m})) == s - {m};
      assert Positive(Prices(p));
      CostMonotone(Prices(p), s - {m}, s);
    }
  }

  method DeletionWitness(p: Problem, pairs: seq<(nat, nat)>, edges: seq<set<string>>, selected: seq<string>, m: string)
    returns (w: Option<(nat, nat)>)
    requires Shaped(p) && AreEdges(p, pairs, edges) && IsBest(p, selected) && m in selected
    ensures IsDeletionWitness(p, Elements(selected) - {m}, w)
  {
    var reduced := Elements(selected) - {m};
    FeasibleIsLargest(p);
    var closed := IsClosed(p, reduced);
    if !closed {
      return None;
    }
    BestIsIrredundant(p, selected, m);
    HittingIsSufficiency(p, pairs, edges, reduced);
    var k := FirstMissed(edges, reduced);
    assert IsEdge(p, pairs[k], edges[k]);
    EdgeHit(p, reduced, pairs[k].0, pairs[k].1);
    w := Some(pairs[k]);
  }

  ghost predicate Witnessed(p: Problem, chosen: set<string>, witnesses: map<string, Option<(nat, nat)>>) {
    forall m :: m in witnesses ==> IsDeletionWitness(p, chosen - {m}, witnesses[m])
  }

  lemma WitnessedNext(p: Problem, chosen: set<string>, witnesses: map<string, Option<(nat, nat)>>, m: string, w: Option<(nat, nat)>)
    requires Witnessed(p, chosen, witnesses) && IsDeletionWitness(p, chosen - {m}, w)
    ensures Witnessed(p, chosen, witnesses[m := w])
  {
  }

  method AddWitness(p: Problem, pairs: seq<(nat, nat)>, edges: seq<set<string>>, selected: seq<string>, m: string,
                    witnesses: map<string, Option<(nat, nat)>>) returns (witnesses': map<string, Option<(nat, nat)>>)
    requires Shaped(p) && AreEdges(p, pairs, edges) && IsBest(p, selected) && m in selected
    requires Witnessed(p, Elements(selected), witnesses)
    ensures witnesses'.Keys == witnesses.Keys + {m} && Witnessed(p, Elements(selected), witnesses')
  {
    var w := DeletionWitness(p, pairs, edges, selected, m);
    WitnessedNext(p, Elements(selected), witnesses, m, w);
    witnesses' := witnesses[m := w];
  }

  method MinimalityCertificate(p: Problem, pairs: seq<(nat, nat)>, edges: seq<set<string>>, selected: seq<string>)
    returns (witnesses: map<string, Option<(nat, nat)>>)
    requires Shaped(p) && AreEdges(p, pairs, edges) && IsBest(p, selected)
    ensures witnesses.Keys == Elements(selected) && Witnessed(p, Elements(selected), witnesses)
  {
    witnesses := map[];
    for k := 0 to |selected|
      invariant witnesses.Keys == Elements(selected[..k])
      invariant Witnessed(p, Elements(selected), witnesses)
    {
      ElementsNext(selected, k);
      witnesses := AddWitness(p, pairs, edges, selected, selected[k], witnesses);
    }
    assert selected[..|selected|] == selected;
  }

  /** Each critical pair with the least selected mechanism that separates it. */
  ghost predicate IsSeparation(p: Problem, pairs: seq<(nat, nat)>, selected: set<string>, separation: seq<string>) {
    && |separation| == |pairs|
    && forall k :: 0 <= k < |pairs| ==>
         Critical(p, pairs[k].0, pairs[k].1) && IsLeast(Separators(p, selected, pairs[k].0, pairs[k].1), separation[k])
  }

  method SeparationCertificate(p: Problem, pairs: seq<(nat, nat)>, edges: seq<set<string>>, selected: seq<string>)
    returns (separation: seq<string>)
    requires AreEdges(p, pairs, edges) && IsBest(p, selected)
    ensures IsSeparation(p, pairs, Elements(selected), separation)
  {
    var chosen := Elements(selected);
    FeasibleIsLargest(p);
    separation := [];
    for k := 0 to |pairs|
      invariant |separation| == k
      invariant forall l :: 0 <= l < k ==>
                  Critical(p, pairs[l].0, pairs[l].1) && IsLeast(Separators(p, chosen, pairs[l].0, pairs[l].1), separation[l])
    {
      assert IsEdge(p, pairs[k], edges[k]) && Covers(p, chosen, pairs[k].0, pairs[k].1);
      assert chosen * edges[k] == Separators(p, chosen, pairs[k].0, pairs[k].1);
      separation := separation + [LeastName(chosen * edges[k])];
    }
  }

  /** `next((pair for pair in critical_pairs if not pair["separators"]), None)` */
  method FirstUnseparated(p: Problem, pairs: seq<(nat, nat)>, edges: seq<set<string>>) returns (r: Option<(nat, nat)>)
    requires AreEdges(p, pairs, edges)
    ensures r.None? <==> Sufficient(p, Feasible(p))
    ensures r.Some? ==> IsObstruction(p, r.value)
  {
    for k := 0 to |pairs|
      invariant forall l :: 0 <= l < k ==> edges[l] != {}
    {
      assert IsEdge(p, pairs[k], edges[k]);
      if edges[k] == {} {
        FirstInOrder(p, pairs, edges, k);
        assert !Covers(p, Feasible(p), pairs[k].0, pairs[k].1);
        return Some(pairs[k]);
      }
    }
    forall i: nat, j: nat ensures Covers(p, Feasible(p), i, j) {
      if Critical(p, i, j) {
        assert HasPair(pairs, i, j);
        var k :| 0 <= k < |pairs| && pairs[k] == (i, j);
        assert IsEdge(p, pairs[k], edges[k]);
      }
    }
    r := None;
  }

  lemma FirstInOrder(p: Problem, pairs: seq<(nat, nat)>, edges: seq<set<string>>, k: nat)
    requires AreEdges(p, pairs, edges) && k < |pairs| && edges[k] == {}
    requires forall l :: 0 <= l < k ==> edges[l] != {}
    ensures IsObstruction(p, pairs[k])
  {
    assert IsEdge(p, pairs[k], edges[k]);
    forall i: nat, j: nat | Critical(p, i, j) && Earlier((i, j), pairs[k]) ensures Separators(p, Feasible(p), i, j) != {} {
      assert HasPair(pairs, i, j);
      var l :| 0 <= l < |pairs| && pairs[l] == (i, j);
      assert l < k;
      assert IsEdge(p, pairs[l], edges[l]);
    }
  }

  // ----- the compiler -----

  datatype Outcome =
    | Incomplete(limit: int, explored: nat)
    | EvidenceGap(obstruction: Option<(nat, nat)>, explored: nat)
    | Compiled(selected: seq<string>, cost: real, pairs: seq<(nat, nat)>, separation: seq<string>,
               minimality: map<string, Option<(nat, nat)>>, explored: nat)

  /** What a completed verdict says. It does not mention the cap. */
  ghost predicate Verdict(p: Problem, r: Outcome) {
    match r
    case Incomplete(_, _) => false
    case EvidenceGap(obstruction, explored) =>
      && explored == Power(|Feasible(p)|) && (forall t :: !Adequate(p, t))
      && obstruction.Some? && IsObstruction(p, obstruction.value)
    case Compiled(selected, cost, pairs, separation, minimality, explored) =>
      && explored == Power(|Feasible(p)|) && IsBest(p, selected) && cost == Cost(Prices(p), Elements(selected))
      && AllCriticalPairs(p, pairs) && IsSeparation(p, pairs, Elements(selected), separation)
      && minimality.Keys == Elements(selected) && Witnessed(p, Elements(selected), minimality)
  }

  method Compile(p: Problem, cap: Option<int>) returns (r: Outcome)
    requires Shaped(p)
    ensures r.Incomplete? <==> cap.Some? && cap.value < Power(|Feasible(p)|)
    ensures r.Incomplete? ==> r.explored == if cap.value < 0 then 0 else cap.value
    ensures !r.Incomplete? ==> Verdict(p, r)
  {
    var feasible := FeasibleMechanisms(p);
    FeasibleIsLargest(p);
    var pairs := CriticalPairs(p);
    var edges := Edges(p, pairs, feasible);
    var names := SortedNames(feasible);
    assert Elements(names) == feasible;
    var limit := if cap.Some? then cap.value else Power(|names|);
    var candidates, explored, complete := Explore(p, names, edges, limit);
    if !complete {
      return Incomplete(limit, explored);
    }
    var best := Select(p, pairs, edges, names, candidates);
    if best.None? {
      GapIsAPair(p);
      var obstruction := FirstUnseparated(p, pairs, edges);
      return EvidenceGap(obstruction, explored);
    }
    r := Certify(p, pairs, edges, best.value, explored);
  }

  method Certify(p: Problem, pairs: seq<(nat, nat)>, edges: seq<set<string>>, selected: seq<string>, explored: nat) returns (r: Outcome)
    requires Shaped(p) && AreEdges(p, pairs, edges) && IsBest(p, selected) && explored == Power(|Feasible(p)|)
    ensures r.Compiled? && Verdict(p, r)
  {
    var separation := SeparationCertificate(p, pairs, edges, selected);
    var minimality := MinimalityCertificate(p, pairs, edges, selected);
    r := Compiled(selected, Cost(Prices(p), Elements(selected)), pairs, separation, minimality, explored);
  }

  /** EVIDENCE_GAP occurs exactly when some critical pair has no feasible separator, and completed verdicts
      under different caps choose the same contract. */
  lemma VerdictDetermined(p: Problem, r: Outcome, r': Outcome)
    requires Verdict(p, r) && Verdict(p, r')
    ensures r.EvidenceGap? <==> !Sufficient(p, Feasible(p))
    ensures r.EvidenceGap? <==> r'.EvidenceGap?
    ensures r.EvidenceGap? ==> r.obstruction == r'.obstruction
    ensures r.Compiled? ==> r.selected == r'.selected && r.cost == r'.cost
  {
    GapIsAPair(p);
    if r.EvidenceGap? {
      var a, b := r.obstruction.value, r'.obstruction.value;
      assert !Earlier(a, b) && !Earlier(b, a);
    } else {
      BestUnique(p, r.selected, r'.selected);
    }
  }

  // ----- normalization -----

  /** The problem the compiler works on, once rows and mechanisms have been normalized. */
  function Normalized(rows: seq<Row<World>>, mechanisms: map<string, MechanismRow>): Option<Problem> {
    var table := Normalize(rows, (w: World) => WorldOk(mechanisms.Keys, w));
    if table.None? || !MechanismsOk(mechanisms) then None else Some(Problem(table.value, mechanisms))
  }

  lemma NormalizedIsShaped(rows: seq<Row<World>>, mechanisms: map<string, MechanismRow>)
    ensures Normalized(rows, mechanisms).Some? ==> Shaped(Normalized(rows, mechanisms).value)
  {
    var ok := (w: World) => WorldOk(mechanisms.Keys, w);
    if Normalized(rows, mechanisms).Some? { NormalizedRows(rows, ok); }
  }

  /** `compile_minimum_contract`. The claim identifier is only checked once enumeration has completed. */
  method CompileMinimumContract(claimId: string, rows: seq<Row<World>>, mechanisms: map<string, MechanismRow>, cap: Option<int>)
    returns (r: Option<Outcome>)
    ensures r.Some? ==> Normalized(rows, mechanisms).Some?
    ensures r.Some? ==> (r.value.Incomplete? <==> cap.Some? && cap.value < Power(|Feasible(Normalized(rows, mechanisms).value)|))
    ensures r.Some? && !r.value.Incomplete? ==> Verdict(Normalized(rows, mechanisms).value, r.value)
    ensures r.None? <==>
              || Normalized(rows, mechanisms).None?
              || (!IsName(claimId) && (cap.Some? ==> Power(|Feasible(Normalized(rows, mechanisms).value)|) <= cap.value))
  {
    var problem := Normalized(rows, mechanisms);
    if problem.None? {
      return None;
    }
    NormalizedIsShaped(rows, mechanisms);
    var outcome := Compile(problem.value, cap);
    r := if !outcome.Incomplete? && !IsName(claimId) then None else Some(outcome);
  }
}
