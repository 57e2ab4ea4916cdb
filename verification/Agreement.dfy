/** The three synthesizers, on the same observations, dependencies and costs. */
module Agreement {
  import opened Order
  import opened Contracts
  import opened Solver
  import opened Compiler
  import opened Synthesis
  import opened Subsets
  import JsonEquality
  import Table = ContractSearch
  import Exhaustive = ContractCompiler
  import Finite = FiniteBackend

  /** The table lists the worlds of the specification, one row each: Python-equal values exactly where the
      specification's answers and observations are equal. */
  ghost predicate Tabulates<W, V>(p: Table.Problem, spec: Spec<W, V, bool>, modes: set<Mode>, weights: CostVector) {
    && Table.Shaped(p) && |p.rows| == |spec.worlds| && p.mechanisms.Keys == spec.mechanisms.Keys
    && (forall m :: m in p.mechanisms ==> SameMechanism(p, spec, modes, weights, m))
    && (forall i, j :: 0 <= i < |p.rows| && 0 <= j < |p.rows| ==> SameWorlds(p, spec, i, j))
  }

  ghost predicate SameMechanism<W, V>(p: Table.Problem, spec: Spec<W, V, bool>, modes: set<Mode>, weights: CostVector, m: string)
    requires m in p.mechanisms && m in spec.mechanisms
  {
    && p.mechanisms[m].required == spec.mechanisms[m].required
    && p.mechanisms[m].cost as real == Weighted(spec.mechanisms[m].cost, weights)
    && (p.mechanisms[m].admissible <==> m in Eligible(spec, modes))
  }

  ghost predicate SameWorlds<W, V>(p: Table.Problem, spec: Spec<W, V, bool>, i: nat, j: nat)
    requires i < |p.rows| && j < |p.rows| && |p.rows| == |spec.worlds|
  {
    var a, b := spec.worlds[i], spec.worlds[j];
    && (JsonEquality.Equal(p.rows[i].data.claim, p.rows[j].data.claim) <==> spec.answer(a) == spec.answer(b))
    && forall m :: m in p.rows[i].data.observations && m in p.rows[j].data.observations ==>
         (JsonEquality.Equal(p.rows[i].data.observations[m], p.rows[j].data.observations[m]) <==> spec.observe(m, a) == spec.observe(m, b))
  }

  lemma PairAgrees<W, V>(p: Table.Problem, spec: Spec<W, V, bool>, modes: set<Mode>, weights: CostVector, t: set<string>, i: nat, j: nat)
    requires Tabulates(p, spec, modes, weights) && t <= p.mechanisms.Keys && i < j < |p.rows|
    ensures Table.Covers(p, t, i, j) <==>
              (LooksAlike(spec, t, spec.worlds[i], spec.worlds[j]) ==> spec.answer(spec.worlds[i]) == spec.answer(spec.worlds[j]))
  {
    assert SameWorlds(p, spec, i, j);
    var a, b := spec.worlds[i], spec.worlds[j];
    forall m | m in t ensures m in Table.Separators(p, t, i, j) <==> spec.observe(m, a) != spec.observe(m, b) {
    }
    if Table.Separators(p, t, i, j) != {} {
      var m :| m in Table.Separators(p, t, i, j);
    }
  }

  lemma SufficientIsDeterminate<W, V>(p: Table.Problem, spec: Spec<W, V, bool>, modes: set<Mode>, weights: CostVector, t: set<string>)
    requires Tabulates(p, spec, modes, weights) && t <= p.mechanisms.Keys
    ensures Table.Sufficient(p, t) <==> Determinate(spec, t)
  {
    if Table.Sufficient(p, t) {
      forall a, b | a in spec.worlds && b in spec.worlds && LooksAlike(spec, t, a, b) ensures spec.answer(a) == spec.answer(b) {
        var i :| 0 <= i < |spec.worlds| && spec.worlds[i] == a;
        var j :| 0 <= j < |spec.worlds| && spec.worlds[j] == b;
        assert Table.Covers(p, t, i, j) && Table.Covers(p, t, j, i);
        if i < j { PairAgrees(p, spec, modes, weights, t, i, j); }
        if j < i { PairAgrees(p, spec, modes, weights, t, j, i); }
      }
    }
    if Determinate(spec, t) {
      forall i: nat, j: nat ensures Table.Covers(p, t, i, j) {
        if i < j < |p.rows| {
          PairAgrees(p, spec, modes, weights, t, i, j);
          assert spec.worlds[i] in spec.worlds && spec.worlds[j] in spec.worlds;
        }
      }
    }
  }

  /** All three look for the same contracts. */
  lemma AdequateIsAssured<W, V>(p: Table.Problem, spec: Spec<W, V, bool>, modes: set<Mode>, weights: CostVector, t: set<string>)
    requires Tabulates(p, spec, modes, weights) && DerivedRequirements(spec.query) == {}
    ensures Table.Adequate(p, t) <==> Assured(spec, modes, t)
  {
    AdmissibleIsEligible(p, spec, modes, weights);
    if t <= Eligible(spec, modes) {
      SufficientIsDeterminate(p, spec, modes, weights, t);
      forall x | x in t ensures Requires(Table.Required(p), x) == Requires(Dependencies(spec, modes), x) {
        assert SameMechanism(p, spec, modes, weights, x);
      }
      SameClosed(Table.Required(p), Dependencies(spec, modes), t);
    }
  }

  lemma AdmissibleIsEligible<W, V>(p: Table.Problem, spec: Spec<W, V, bool>, modes: set<Mode>, weights: CostVector)
    requires Tabulates(p, spec, modes, weights)
    ensures Table.Admissible(p) == Eligible(spec, modes)
  {
    forall m ensures m in Table.Admissible(p) <==> m in Eligible(spec, modes) {
      if m in p.mechanisms { assert SameMechanism(p, spec, modes, weights, m); }
    }
  }

  lemma SameClosed(a: map<string, seq<string>>, b: map<string, seq<string>>, t: set<string>)
    requires forall x :: x in t ==> Requires(a, x) == Requires(b, x)
    ensures Closed(a, t) <==> Closed(b, t)
  {
    if Closed(a, t) {
      forall x, y | x in t && y in Requires(b, x) ensures y in t {
        assert y in Requires(a, x);
      }
    }
    if Closed(b, t) {
      forall x, y | x in t && y in Requires(a, x) ensures y in t {
        assert y in Requires(b, x);
      }
    }
  }

  lemma {:induction false} SameCost(a: map<string, real>, b: map<string, real>, t: set<string>)
    requires forall x :: x in t ==> Weight(a, x) == Weight(b, x)
    ensures Cost(a, t) == Cost(b, t)
  {
    if t != {} {
      SameCost(a, b, t - {LeastName(t)});
    }
  }

  lemma TableCost<W, V>(p: Table.Problem, spec: Spec<W, V, bool>, modes: set<Mode>, weights: CostVector, t: set<string>)
    requires Tabulates(p, spec, modes, weights) && t <= Eligible(spec, modes)
    ensures Cost(Table.Prices(p), t) == Cost(Costs(spec, modes, weights), t)
  {
    forall x | x in t ensures Weight(Table.Prices(p), x) == Weight(Costs(spec, modes, weights), x) {
      assert SameMechanism(p, spec, modes, weights, x);
    }
    SameCost(Table.Prices(p), Costs(spec, modes, weights), t);
  }

  lemma WorksIsAssured<W, V>(spec: Spec<W, V, bool>, modes: set<Mode>, t: set<string>)
    requires Eligible(spec, modes) == spec.mechanisms.Keys && DerivedRequirements(spec.query) == {}
    ensures Finite.Works(spec, t) <==> Assured(spec, modes, t)
  {
    assert Finite.Needs(spec) == Dependencies(spec, modes);
  }

  /** Two optimal contracts cost the same. */
  lemma OptimalCost<W, V>(spec: Spec<W, V, bool>, modes: set<Mode>, weights: CostVector, s: set<string>, t: set<string>)
    requires Optimal(spec, modes, weights, s) && Assured(spec, modes, t)
    requires forall u :: Assured(spec, modes, u) ==> Cost(Costs(spec, modes, weights), t) <= Cost(Costs(spec, modes, weights), u)
    ensures Cost(Costs(spec, modes, weights), s) == Cost(Costs(spec, modes, weights), t)
  {
    assert NoWorse(Costs(spec, modes, weights), s, t);
  }

  /** The counterexample loop and the exhaustive compiler both fail, or both succeed at the same cost. */
  lemma LoopAgreesWithExhaustive<W, V>(spec: Spec<W, V, bool>, modes: set<Mode>, weights: CostVector, maxIterations: int,
                                       p: Table.Problem, loop: SynthesisResult<W, bool>, table: Exhaustive.Outcome)
    requires Tabulates(p, spec, modes, weights) && DerivedRequirements(spec.query) == {}
    requires Exact(spec, modes, weights, maxIterations, loop) && loop.status != Inconclusive
    requires Exhaustive.Verdict(p, table)
    ensures IsAuditable(loop.status) <==> table.Compiled?
    ensures table.Compiled? ==> loop.scalarCost == table.cost
  {
    forall t ensures Table.Adequate(p, t) <==> Assured(spec, modes, t) {
      AdequateIsAssured(p, spec, modes, weights, t);
    }
    if table.Compiled? {
      var chosen := Elements(table.selected);
      assert Table.Adequate(p, chosen);
      CompiledIsCheapest(p, spec, modes, weights, table.selected);
      TableCost(p, spec, modes, weights, chosen);
      OptimalCost(spec, modes, weights, loop.contract, chosen);
    }
  }

  lemma CompiledIsCheapest<W, V>(p: Table.Problem, spec: Spec<W, V, bool>, modes: set<Mode>, weights: CostVector, selected: seq<string>)
    requires Tabulates(p, spec, modes, weights) && Table.IsBest(p, selected)
    requires forall t :: Table.Adequate(p, t) <==> Assured(spec, modes, t)
    ensures forall u :: Assured(spec, modes, u) ==> Cost(Costs(spec, modes, weights), Elements(selected)) <= Cost(Costs(spec, modes, weights), u)
  {
    var chosen := Elements(selected);
    assert Assured(spec, modes, chosen);
    forall u | Assured(spec, modes, u) ensures Cost(Costs(spec, modes, weights), chosen) <= Cost(Costs(spec, modes, weights), u) {
      TableCost(p, spec, modes, weights, chosen);
      TableCost(p, spec, modes, weights, u);
      if u != chosen {
        assert Preferred(Table.Prices(p), selected, SortedNames(u));
        assert Elements(SortedNames(u)) == u;
      }
    }
  }

  /** So do the counterexample loop and the capped backend, when every mechanism is eligible. */
  lemma LoopAgreesWithBackend<W, V>(spec: Spec<W, V, bool>, modes: set<Mode>, weights: CostVector, maxIterations: int,
                                    loop: SynthesisResult<W, bool>, capped: Finite.Outcome)
    requires Eligible(spec, modes) == spec.mechanisms.Keys && DerivedRequirements(spec.query) == {}
    requires Exact(spec, modes, weights, maxIterations, loop) && loop.status != Inconclusive
    requires Finite.Verdict(spec, weights, capped)
    ensures IsAuditable(loop.status) <==> capped.Selected?
    ensures capped.Selected? ==> loop.scalarCost == capped.cost
  {
    forall t ensures Finite.Works(spec, t) <==> Assured(spec, modes, t) {
      WorksIsAssured(spec, modes, t);
    }
    assert Finite.Prices(spec, weights) == Costs(spec, modes, weights);
    if capped.Selected? {
      var chosen := Elements(capped.contract);
      assert Finite.Works(spec, chosen);
      SelectedIsCheapest(spec, modes, weights, capped.contract);
      OptimalCost(spec, modes, weights, loop.contract, chosen);
    }
  }

  lemma SelectedIsCheapest<W, V>(spec: Spec<W, V, bool>, modes: set<Mode>, weights: CostVector, selected: seq<string>)
    requires Finite.IsSelected(spec, weights, selected) && Finite.Prices(spec, weights) == Costs(spec, modes, weights)
    requires forall t :: Finite.Works(spec, t) <==> Assured(spec, modes, t)
    ensures forall u :: Assured(spec, modes, u) ==> Cost(Costs(spec, modes, weights), Elements(selected)) <= Cost(Costs(spec, modes, weights), u)
  {
    forall u | Assured(spec, modes, u)
      ensures Cost(Costs(spec, modes, weights), Elements(selected)) <= Cost(Costs(spec, modes, weights), u) {
      if u != Elements(selected) {
        assert Preferred(Finite.Prices(spec, weights), selected, SortedNames(u));
        assert Elements(SortedNames(u)) == u;
      }
    }
  }

  /** The two exhaustive solvers even choose the same contract: they break ties alike. */
  lemma ExhaustiveAgreesWithBackend<W, V>(spec: Spec<W, V, bool>, modes: set<Mode>, weights: CostVector,
                                          p: Table.Problem, table: Exhaustive.Outcome, capped: Finite.Outcome)
    requires Eligible(spec, modes) == spec.mechanisms.Keys && DerivedRequirements(spec.query) == {}
    requires Tabulates(p, spec, modes, weights)
    requires Exhaustive.Verdict(p, table) && Finite.Verdict(spec, weights, capped)
    ensures table.Compiled? <==> capped.Selected?
    ensures table.Compiled? ==> table.selected == capped.contract && table.cost == capped.cost
  {
    forall t ensures Table.Adequate(p, t) <==> Finite.Works(spec, t) {
      AdequateIsAssured(p, spec, modes, weights, t);
      WorksIsAssured(spec, modes, t);
    }
    SamePrices(p, spec, modes, weights);
    if table.Compiled? && capped.Selected? {
      SameChoice(p, spec, weights, table.selected, capped.contract);
    }
    assert table.Compiled? ==> Table.Adequate(p, Elements(table.selected));
    assert capped.Selected? ==> Finite.Works(spec, Elements(capped.contract));
  }

  lemma SamePrices<W, V>(p: Table.Problem, spec: Spec<W, V, bool>, modes: set<Mode>, weights: CostVector)
    requires Tabulates(p, spec, modes, weights)
    ensures Table.Prices(p) == Finite.Prices(spec, weights)
  {
    forall m | m in p.mechanisms ensures Table.Prices(p)[m] == Finite.Prices(spec, weights)[m] {
      assert SameMechanism(p, spec, modes, weights, m);
    }
  }

  lemma SameChoice<W, V>(p: Table.Problem, spec: Spec<W, V, bool>, weights: CostVector, s: seq<string>, t: seq<string>)
    requires Table.Prices(p) == Finite.Prices(spec, weights)
    requires forall u :: Table.Adequate(p, u) <==> Finite.Works(spec, u)
    requires Table.IsBest(p, s) && Finite.IsSelected(spec, weights, t)
    ensures s == t
  {
    assert Finite.Works(spec, Elements(s)) && Table.Adequate(p, Elements(t));
    if Elements(s) != Elements(t) {
      assert Preferred(Table.Prices(p), s, t);
      PreferredAsymmetric(Table.Prices(p), s, t);
    }
  }
}
