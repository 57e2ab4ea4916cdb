/** The counterexample-guided synthesis loop and its passive-first driver. */
module Synthesis {
  import opened Wrappers
  import opened Order
  import opened Contracts
  import opened Solver
  import opened Compiler

  datatype Status = PassiveAuditable | Auditable | ActiveAuditRequired | NotAuditable | UnrealizableIntervention | Inconclusive

  /** Which of the method's exits produced the result. */
  datatype Exit = Accepted | NoProvider | ClosureUnsatisfiable | StructuralAssuranceFailed
                | Inseparable | ConstraintsUnsatisfiable | LimitReached

  /** Why a selected mechanism cannot be dropped. */
  datatype Witness<W, A> = CriticalPair(twin: Twin<W, A>) | Structural(unmet: set<Capability>, missing: set<string>)

  datatype SynthesisResult<W, A> = SynthesisResult(
    status: Status,
    exit: Exit,
    contract: set<string>,
    scalarCost: real,
    iterations: nat,
    certificatesSeen: nat,
    unresolved: Option<Twin<W, A>>,
    witnesses: map<string, Witness<W, A>>)

  predicate IsAuditable(s: Status) {
    s.PassiveAuditable? || s.Auditable? || s.ActiveAuditRequired?
  }

  function BlockedStatus<W, V, A>(spec: Spec<W, V, A>, modes: set<Mode>, unsatisfied: set<Capability>): Status {
    if spec.query.interventionTarget.None? then NotAuditable
    else
      var target := spec.query.interventionTarget.value;
      if Replay(target) in unsatisfied
         || exists m :: m in spec.mechanisms && spec.mechanisms[m].mode in modes && spec.mechanisms[m].rejections != {}
              && spec.mechanisms[m].mode.Active? && spec.mechanisms[m].replay.Some? && spec.mechanisms[m].replay.value.0 == target
      then UnrealizableIntervention
      else NotAuditable
  }

  // ----- specification -----

  /** An assured contract no dearer than any other assured contract. */
  ghost predicate Optimal<W, V, A>(spec: Spec<W, V, A>, modes: set<Mode>, weights: CostVector, s: set<string>) {
    Assured(spec, modes, s) && forall t :: Assured(spec, modes, t) ==> NoWorse(Costs(spec, modes, weights), s, t)
  }

  /** The answer-differing pairs of worlds. */
  function DifferingPairs<W, V, A(==)>(spec: Spec<W, V, A>): set<(nat, nat)> {
    set i: nat, j: nat | i < |spec.worlds| && j < |spec.worlds| && i < j
                         && spec.answer(spec.worlds[i]) != spec.answer(spec.worlds[j]) :: (i, j)
  }

  // ----- structural constraints -----

  function Providers<W, V, A>(spec: Spec<W, V, A>, modes: set<Mode>, r: Capability): set<string> {
    set m | m in Eligible(spec, modes) && Provides(spec, m, r)
  }

  /** Hitting `constraints` and meeting `requirements` are the same thing. */
  ghost predicate Encodes<W, V, A>(spec: Spec<W, V, A>, modes: set<Mode>, requirements: set<Capability>, constraints: seq<set<string>>) {
    && (forall r :: r in requirements ==> Providers(spec, modes, r) in constraints)
    && (forall c :: c in constraints ==> exists r :: r in requirements && c == Providers(spec, modes, r))
  }

  method StructuralConstraints<W, V, A>(spec: Spec<W, V, A>, modes: set<Mode>)
    returns (constraints: seq<set<string>>, unsatisfied: set<Capability>)
    ensures forall r :: r in unsatisfied <==> r in DerivedRequirements(spec.query) && Providers(spec, modes, r) == {}
    ensures Encodes(spec, modes, DerivedRequirements(spec.query) - unsatisfied, constraints)
  {
    constraints, unsatisfied := [], {};
    var requirements := DerivedRequirements(spec.query);
    var todo := requirements;
    while todo != {}
      invariant todo <= requirements && unsatisfied <= requirements - todo
      invariant forall r :: r in unsatisfied <==> r in requirements - todo && Providers(spec, modes, r) == {}
      invariant Encodes(spec, modes, requirements - todo - unsatisfied, constraints)
      decreases todo
    {
      var r :| r in todo;
      var providers := Providers(spec, modes, r);
      ghost var done := requirements - todo - unsatisfied;
      todo := todo - {r};
      if providers == {} {
        unsatisfied := unsatisfied + {r};
        assert requirements - todo - unsatisfied == done;
      } else {
        EncodesAdd(spec, modes, done, constraints, r);
        constraints := constraints + [providers];
        assert requirements - todo - unsatisfied == done + {r};
      }
    }
    assert requirements - todo - unsatisfied == requirements - unsatisfied;
  }

  lemma EncodesAdd<W, V, A>(spec: Spec<W, V, A>, modes: set<Mode>, requirements: set<Capability>, constraints: seq<set<string>>, r: Capability)
    requires Encodes(spec, modes, requirements, constraints)
    ensures Encodes(spec, modes, requirements + {r}, constraints + [Providers(spec, modes, r)])
  {
    forall c | c in constraints + [Providers(spec, modes, r)]
      ensures exists q :: q in requirements + {r} && c == Providers(spec, modes, q) {
      if c in constraints {
        var q :| q in requirements && c == Providers(spec, modes, q);
        assert q in requirements + {r};
      } else {
        assert r in requirements + {r};
      }
    }
  }

  lemma EncodesRequirements<W, V, A>(spec: Spec<W, V, A>, modes: set<Mode>, constraints: seq<set<string>>, t: set<string>)
    requires Encodes(spec, modes, DerivedRequirements(spec.query), constraints) && t <= Eligible(spec, modes)
    ensures HitsAll(constraints, t) <==> MeetsRequirements(spec, t)
  {
    if HitsAll(constraints, t) {
      forall r | r in DerivedRequirements(spec.query) ensures exists m :: m in t && Provides(spec, m, r) {
        assert Hits(Providers(spec, modes, r), t);
        var m :| m in Providers(spec, modes, r) * t;
      }
    }
    if MeetsRequirements(spec, t) {
      forall c | c in constraints ensures Hits(c, t) {
        var r :| r in DerivedRequirements(spec.query) && c == Providers(spec, modes, r);
        var m :| m in t && Provides(spec, m, r);
        assert m in c * t;
      }
    }
  }

  // ----- the loop invariant -----

  /** Every assured contract satisfies `constraints`, and `constraints` contains the structural ones. */
  ghost predicate Sound<W, V, A>(spec: Spec<W, V, A>, modes: set<Mode>, structural: seq<set<string>>, constraints: seq<set<string>>) {
    && Encodes(spec, modes, DerivedRequirements(spec.query), structural)
    && (forall c :: c in structural ==> c in constraints)
    && (forall t :: Assured(spec, modes, t) ==> HitsAll(constraints, t))
  }

  /** Every pair met so far is an answer-differing pair whose separators are now a constraint. */
  ghost predicate Recorded<W, V, A>(spec: Spec<W, V, A>, modes: set<Mode>, constraints: seq<set<string>>, seen: set<(nat, nat)>) {
    forall p :: p in seen ==>
      && p in DifferingPairs(spec)
      && Separators(spec, Eligible(spec, modes), spec.worlds[p.0], spec.worlds[p.1]) in constraints
  }

  lemma AssuredSolves<W, V, A>(spec: Spec<W, V, A>, modes: set<Mode>, weights: CostVector, structural: seq<set<string>>, constraints: seq<set<string>>)
    requires Sound(spec, modes, structural, constraints)
    ensures forall t :: Assured(spec, modes, t) ==> Solves(Costs(spec, modes, weights), Dependencies(spec, modes), constraints, t)
  {
  }

  lemma SolvesStructure<W, V, A>(spec: Spec<W, V, A>, modes: set<Mode>, weights: CostVector,
                                 structural: seq<set<string>>, constraints: seq<set<string>>, t: set<string>)
    requires Sound(spec, modes, structural, constraints)
    requires Solves(Costs(spec, modes, weights), Dependencies(spec, modes), constraints, t)
    ensures t <= Eligible(spec, modes) && Closed(Dependencies(spec, modes), t) && MeetsRequirements(spec, t)
  {
    EncodesRequirements(spec, modes, structural, t);
  }

  /** A determinate contract hits the separators of every answer-differing pair. */
  lemma DeterminateHits<W, V, A>(spec: Spec<W, V, A>, modes: set<Mode>, t: set<string>, a: W, b: W)
    requires t <= Eligible(spec, modes) && Determinate(spec, t)
    requires a in spec.worlds && b in spec.worlds && spec.answer(a) != spec.answer(b)
    ensures Hits(Separators(spec, Eligible(spec, modes), a, b), t)
  {
    assert !LooksAlike(spec, t, a, b);
    var m :| m in t && spec.observe(m, a) != spec.observe(m, b);
    assert m in Separators(spec, Eligible(spec, modes), a, b) * t;
  }

  /** The twin of a contract is missed by it, so its separators are a new constraint and its pair a new pair. */
  lemma TwinIsNew<W, V, A>(spec: Spec<W, V, A>, modes: set<Mode>, constraints: seq<set<string>>, selected: set<string>,
                           seen: set<(nat, nat)>, t: Twin<W, A>, i: nat, j: nat)
    requires HitsAll(constraints, selected) && Recorded(spec, modes, constraints, seen)
    requires IsTwin(spec, selected, Eligible(spec, modes), t, i, j)
    ensures !Hits(t.separators, selected)
    ensures t.separators !in constraints
    ensures (i, j) !in seen && (i, j) in DifferingPairs(spec)
    ensures Recorded(spec, modes, constraints + [t.separators], seen + {(i, j)})
  {
    assert forall m :: m in t.separators ==> m !in selected;
    assert !Hits(t.separators, selected);
    assert (i, j) in seen ==> t.separators in constraints;
  }

  lemma SoundAdd<W, V, A>(spec: Spec<W, V, A>, modes: set<Mode>, structural: seq<set<string>>, constraints: seq<set<string>>,
                          selected: set<string>, t: Twin<W, A>, i: nat, j: nat)
    requires Sound(spec, modes, structural, constraints)
    requires IsTwin(spec, selected, Eligible(spec, modes), t, i, j)
    ensures Sound(spec, modes, structural, constraints + [t.separators])
    ensures t.separators == {} ==> forall s :: !Assured(spec, modes, s)
  {
    forall s | Assured(spec, modes, s) ensures HitsAll(constraints + [t.separators], s) && t.separators != {} {
      DeterminateHits(spec, modes, s, t.worldA, t.worldB);
    }
  }

  // ----- deletion witnesses -----

  /** A recorded pair really is left unseparated by the reduced contract; otherwise what is recorded is
      exactly the requirements it leaves unmet and the dependencies it lacks. */
  ghost predicate Genuine<W, V, A>(spec: Spec<W, V, A>, modes: set<Mode>, reduced: set<string>, w: Witness<W, A>) {
    match w
    case CriticalPair(twin) => exists i: nat, j: nat :: IsTwin(spec, reduced, Eligible(spec, modes), twin, i, j)
    case Structural(unmet, missing) =>
      && Determinate(spec, reduced)
      && unmet == Unmet(spec, reduced) && missing == Missing(spec, reduced) && (unmet != {} || missing != {})
  }

  method DeletionWitness<W, V(==), A(==)>(spec: Spec<W, V, A>, modes: set<Mode>, reduced: set<string>)
    returns (w: Option<Witness<W, A>>)
    requires reduced <= Eligible(spec, modes)
    ensures w.None? <==> Assured(spec, modes, reduced)
    ensures w.Some? ==> Genuine(spec, modes, reduced, w.value)
  {
    w := None;
    var check, i, j := CheckContract(spec, modes, reduced);
    if check.value.twin.Some? {
      w := Some(CriticalPair(check.value.twin.value));
      assert IsTwin(spec, reduced, Eligible(spec, modes), check.value.twin.value, i, j);
    } else if check.value.unmet != {} || check.value.missing != {} {
      w := Some(Structural(check.value.unmet, check.value.missing));
    }
  }

  method MinimalityWitnesses<W, V(==), A(==)>(spec: Spec<W, V, A>, modes: set<Mode>, selected: set<string>)
    returns (witnesses: map<string, Witness<W, A>>)
    requires selected <= Eligible(spec, modes)
    ensures witnesses.Keys <= selected
    ensures forall m :: m in selected ==> (m in witnesses <==> !Assured(spec, modes, selected - {m}))
    ensures forall m :: m in witnesses ==> Genuine(spec, modes, selected - {m}, witnesses[m])
  {
    witnesses := map[];
    var names := SortedNames(selected);
    for n := 0 to |names|
      invariant forall m :: m in witnesses ==> m in names[..n]
      invariant forall k :: 0 <= k < n ==> (names[k] in witnesses <==> !Assured(spec, modes, selected - {names[k]}))
      invariant forall m :: m in witnesses ==> Genuine(spec, modes, selected - {m}, witnesses[m])
    {
      var w := DeletionWitness(spec, modes, selected - {names[n]});
      if w.Some? {
        witnesses := witnesses[names[n] := w.value];
      }
    }
  }

  /** With strictly positive costs nothing in an optimal contract can be dropped. */
  lemma OptimalIsIrredundant<W, V, A>(spec: Spec<W, V, A>, modes: set<Mode>, weights: CostVector, s: set<string>, m: string)
    requires Optimal(spec, modes, weights, s) && Positive(Costs(spec, modes, weights)) && m in s
    ensures !Assured(spec, modes, s - {m})
  {
    CostMonotone(Costs(spec, modes, weights), s - {m}, s);
  }

  lemma WeightedNonNegative<W, V, A>(spec: Spec<W, V, A>, modes: set<Mode>, weights: CostVector)
    requires ValidInput(spec, weights)
    ensures NonNegative(Costs(spec, modes, weights))
  {
    forall m | m in Costs(spec, modes, weights) ensures Costs(spec, modes, weights)[m] >= 0.0 {
      var c := spec.mechanisms[m].cost;
      assert weights.bytes * c.bytes >= 0.0 && weights.privacy * c.privacy >= 0.0;
      assert weights.latencyMs * c.latencyMs >= 0.0 && weights.fragility * c.fragility >= 0.0;
    }
  }

  // ----- _synthesize_with_modes -----

  function Refused<W, V, A>(spec: Spec<W, V, A>, modes: set<Mode>, exit: Exit): SynthesisResult<W, A> {
    SynthesisResult(BlockedStatus(spec, modes, DerivedRequirements(spec.query)), exit, {}, 0.0, 0, 0, None, map[])
  }

  /** The reason given for a failure: requirements nobody provides, an unsatisfiable closure, or two worlds
      with different answers that look alike to every eligible mechanism. */
  ghost predicate Explained<W, V, A>(spec: Spec<W, V, A>, modes: set<Mode>, r: SynthesisResult<W, A>) {
    && (IsAuditable(r.status) <==> r.exit.Accepted?)
    && (r.status.Inconclusive? <==> r.exit.LimitReached?)
    && (r.unresolved.Some? <==> r.exit.Inseparable?)
    && match r.exit
       case NoProvider =>
         r.status == BlockedStatus(spec, modes, set q | q in DerivedRequirements(spec.query) && Providers(spec, modes, q) == {})
       case Inseparable => r.status == BlockedStatus(spec, modes, {}) && InseparablePair(spec, modes, r.unresolved.value)
       case StructuralAssuranceFailed => false
       case Accepted => true
       case LimitReached => true
       case _ => r.status == BlockedStatus(spec, modes, DerivedRequirements(spec.query))
  }

  ghost predicate InseparablePair<W, V, A>(spec: Spec<W, V, A>, modes: set<Mode>, t: Twin<W, A>) {
    t.separators == {} && exists i: nat, j: nat :: IsTwin(spec, Eligible(spec, modes), Eligible(spec, modes), t, i, j)
  }

  /** What the caller may conclude from a result. */
  ghost predicate Exact<W, V, A>(spec: Spec<W, V, A>, modes: set<Mode>, weights: CostVector, maxIterations: int, r: SynthesisResult<W, A>) {
    && (IsAuditable(r.status) ==>
          && Optimal(spec, modes, weights, r.contract)
          && r.scalarCost == Cost(Costs(spec, modes, weights), r.contract)
          && (Positive(Costs(spec, modes, weights)) ==> r.witnesses.Keys == r.contract))
    && (r.status.PassiveAuditable? ==> forall m :: m in r.contract ==> spec.mechanisms[m].mode.Passive?)
    && (r.status.Auditable? ==> exists m :: m in r.contract && spec.mechanisms[m].mode.Active?)
    && (!IsAuditable(r.status) && r.status != Inconclusive ==> forall t :: !Assured(spec, modes, t))
    && (r.status == Inconclusive ==> maxIterations <= |DifferingPairs(spec)|)
    && Explained(spec, modes, r)
    && r.iterations <= |DifferingPairs(spec)| + 1
    && !r.status.ActiveAuditRequired?
  }

  /** The loop invariant: `selected` is a minimum solution of sound constraints, one new pair per past round. */
  ghost predicate Running<W, V, A>(spec: Spec<W, V, A>, modes: set<Mode>, weights: CostVector, structural: seq<set<string>>,
                                   constraints: seq<set<string>>, selected: set<string>, seen: set<(nat, nat)>) {
    && Sound(spec, modes, structural, constraints)
    && IsMinimum(Costs(spec, modes, weights), Dependencies(spec, modes), constraints, selected)
    && Recorded(spec, modes, constraints, seen)
  }

  lemma RunningOptimal<W, V, A>(spec: Spec<W, V, A>, modes: set<Mode>, weights: CostVector, structural: seq<set<string>>,
                                constraints: seq<set<string>>, selected: set<string>, seen: set<(nat, nat)>)
    requires Running(spec, modes, weights, structural, constraints, selected, seen)
    ensures Assured(spec, modes, selected) ==> Optimal(spec, modes, weights, selected)
    ensures selected <= Eligible(spec, modes) && Closed(Dependencies(spec, modes), selected) && MeetsRequirements(spec, selected)
    ensures |seen| <= |DifferingPairs(spec)|
  {
    AssuredSolves(spec, modes, weights, structural, constraints);
    SolvesStructure(spec, modes, weights, structural, constraints, selected);
    SeenBound(spec, modes, constraints, seen);
  }

  /** One iteration of the loop: an answer, or one more constraint and the next minimum. */
  method Round<W, V(==), A(==)>(spec: Spec<W, V, A>, modes: set<Mode>, weights: CostVector, iteration: nat, ghost maxIterations: int,
                                ghost structural: seq<set<string>>, constraints: seq<set<string>>, selected: set<string>, ghost seen: set<(nat, nat)>)
    returns (r: Option<SynthesisResult<W, A>>, constraints': seq<set<string>>, selected': set<string>, ghost seen': set<(nat, nat)>)
    requires ValidInput(spec, weights) && iteration == |seen| + 1
    requires Running(spec, modes, weights, structural, constraints, selected, seen)
    ensures r.Some? ==> Exact(spec, modes, weights, maxIterations, r.value)
    ensures r.None? ==> Running(spec, modes, weights, structural, constraints', selected', seen') && |seen'| == |seen| + 1
  {
    r, constraints', selected', seen' := None, constraints, selected, seen;
    var costs, deps := Costs(spec, modes, weights), Dependencies(spec, modes);
    WeightedNonNegative(spec, modes, weights);
    RunningOptimal(spec, modes, weights, structural, constraints, selected, seen);
    var check, i, j := CheckContract(spec, modes, selected);
    if check.value.auditable {
      var accepted := Accept(spec, modes, weights, maxIterations, selected, iteration, iteration - 1);
      r := Some(accepted);
      return;
    }
    if check.value.twin.None? {
      assert false;
      r := Some(Refused(spec, modes, StructuralAssuranceFailed));
      return;
    }
    var twin := check.value.twin.value;
    SoundAdd(spec, modes, structural, constraints, selected, twin, i, j);
    if twin.separators == {} {
      var blocked := SynthesisResult(BlockedStatus(spec, modes, {}), Inseparable, selected, Cost(costs, selected), iteration, iteration, Some(twin), map[]);
      BlockedIsExact(spec, modes, weights, maxIterations, blocked, i, j);
      r := Some(blocked);
      return;
    }
    r, constraints', selected', seen' := Refine(spec, modes, weights, structural, constraints, selected, seen, twin, i, j);
    if r.Some? { RefusedIsExact(spec, modes, weights, maxIterations, ConstraintsUnsatisfiable); }
  }

  lemma RefusedIsExact<W, V, A>(spec: Spec<W, V, A>, modes: set<Mode>, weights: CostVector, maxIterations: int, exit: Exit)
    requires exit.ConstraintsUnsatisfiable? || exit.ClosureUnsatisfiable?
    requires forall t :: !Assured(spec, modes, t)
    ensures Exact(spec, modes, weights, maxIterations, Refused(spec, modes, exit))
  {
  }

  lemma BlockedIsExact<W, V, A>(spec: Spec<W, V, A>, modes: set<Mode>, weights: CostVector, maxIterations: int,
                                r: SynthesisResult<W, A>, i: nat, j: nat)
    requires r.status == BlockedStatus(spec, modes, {}) && r.exit.Inseparable? && r.unresolved.Some?
    requires IsTwin(spec, r.contract, Eligible(spec, modes), r.unresolved.value, i, j) && r.unresolved.value.separators == {}
    requires forall t :: !Assured(spec, modes, t)
    requires r.iterations <= |DifferingPairs(spec)| + 1
    ensures Exact(spec, modes, weights, maxIterations, r)
  {
    NothingSeparates(spec, modes, r.contract, r.unresolved.value, i, j);
  }

  lemma NothingSeparates<W, V, A>(spec: Spec<W, V, A>, modes: set<Mode>, selected: set<string>, twin: Twin<W, A>, i: nat, j: nat)
    requires IsTwin(spec, selected, Eligible(spec, modes), twin, i, j) && twin.separators == {}
    ensures InseparablePair(spec, modes, twin)
  {
    forall m | m in Eligible(spec, modes) ensures spec.observe(m, twin.worldA) == spec.observe(m, twin.worldB) {
      assert m !in Separators(spec, Eligible(spec, modes), twin.worldA, twin.worldB);
    }
    assert IsTwin(spec, Eligible(spec, modes), Eligible(spec, modes), twin, i, j);
  }

  lemma Progress<W, V, A>(spec: Spec<W, V, A>, modes: set<Mode>, weights: CostVector, structural: seq<set<string>>,
                          constraints: seq<set<string>>, selected: set<string>, seen: set<(nat, nat)>,
                          twin: Twin<W, A>, i: nat, j: nat)
    requires Running(spec, modes, weights, structural, constraints, selected, seen)
    requires IsTwin(spec, selected, Eligible(spec, modes), twin, i, j)
    ensures twin.separators !in constraints && (i, j) !in seen
    ensures Sound(spec, modes, structural, constraints + [twin.separators])
    ensures Recorded(spec, modes, constraints + [twin.separators], seen + {(i, j)})
    ensures forall t :: Assured(spec, modes, t) ==>
              Solves(Costs(spec, modes, weights), Dependencies(spec, modes), constraints + [twin.separators], t)
  {
    SoundAdd(spec, modes, structural, constraints, selected, twin, i, j);
    TwinIsNew(spec, modes, constraints, selected, seen, twin, i, j);
    AssuredSolves(spec, modes, weights, structural, constraints + [twin.separators]);
  }

  /** Adds the twin's separators as a constraint and re-solves. */
  method Refine<W, V(==), A(==)>(spec: Spec<W, V, A>, modes: set<Mode>, weights: CostVector, ghost structural: seq<set<string>>,
                                 constraints: seq<set<string>>, selected: set<string>, ghost seen: set<(nat, nat)>,
                                 twin: Twin<W, A>, ghost i: nat, ghost j: nat)
    returns (r: Option<SynthesisResult<W, A>>, constraints': seq<set<string>>, selected': set<string>, ghost seen': set<(nat, nat)>)
    requires ValidInput(spec, weights)
    requires Running(spec, modes, weights, structural, constraints, selected, seen)
    requires IsTwin(spec, selected, Eligible(spec, modes), twin, i, j)
    ensures r.Some? ==> r.value == Refused(spec, modes, ConstraintsUnsatisfiable) && forall t :: !Assured(spec, modes, t)
    ensures r.None? ==> Running(spec, modes, weights, structural, constraints', selected', seen') && |seen'| == |seen| + 1
  {
    r, constraints', selected' := None, constraints, selected;
    WeightedNonNegative(spec, modes, weights);
    Progress(spec, modes, weights, structural, constraints, selected, seen, twin, i, j);
    seen' := seen + {(i, j)};
    if twin.separators !in constraints {
      constraints' := constraints + [twin.separators];
    }
    var next := MinimumWeightContract(constraints', Costs(spec, modes, weights), Dependencies(spec, modes));
    if next.None? {
      r := Some(Refused(spec, modes, ConstraintsUnsatisfiable));
    } else {
      selected' := next.value;
    }
  }

  method SynthesizeWithModes<W, V(==), A(==)>(spec: Spec<W, V, A>, modes: set<Mode>, weights: CostVector, maxIterations: int)
    returns (r: SynthesisResult<W, A>)
    requires ValidInput(spec, weights)
    ensures Exact(spec, modes, weights, maxIterations, r)
  {
    var costs, deps := Costs(spec, modes, weights), Dependencies(spec, modes);
    WeightedNonNegative(spec, modes, weights);
    var constraints, unsatisfied := StructuralConstraints(spec, modes);
    if unsatisfied != {} {
      ProviderNeeded(spec, modes, unsatisfied);
      return SynthesisResult(BlockedStatus(spec, modes, unsatisfied), NoProvider, {}, 0.0, 0, 0, None, map[]);
    }
    assert DerivedRequirements(spec.query) - unsatisfied == DerivedRequirements(spec.query);
    ghost var structural := constraints;
    StructuralSound(spec, modes, structural);
    var first := MinimumWeightContract(constraints, costs, deps);
    if first.None? {
      AssuredSolves(spec, modes, weights, structural, constraints);
      RefusedIsExact(spec, modes, weights, maxIterations, ClosureUnsatisfiable);
      return Refused(spec, modes, ClosureUnsatisfiable);
    }
    var selected := first.value;
    ghost var seen: set<(nat, nat)> := {};
    var limit := if maxIterations < 0 then 0 else maxIterations;
    for iteration := 1 to limit + 1
      invariant Running(spec, modes, weights, structural, constraints, selected, seen)
      invariant |seen| == iteration - 1
    {
      var done;
      done, constraints, selected, seen := Round(spec, modes, weights, iteration, maxIterations, structural, constraints, selected, seen);
      if done.Some? {
        return done.value;
      }
    }
    RunningOptimal(spec, modes, weights, structural, constraints, selected, seen);
    r := SynthesisResult(Inconclusive, LimitReached, selected, Cost(costs, selected), limit, limit, None, map[]);
  }

  lemma SeenBound<W, V, A>(spec: Spec<W, V, A>, modes: set<Mode>, constraints: seq<set<string>>, seen: set<(nat, nat)>)
    requires Recorded(spec, modes, constraints, seen)
    ensures |seen| <= |DifferingPairs(spec)|
  {
    assert seen <= DifferingPairs(spec);
    SubsetSize(seen, DifferingPairs(spec));
  }

  lemma ProviderNeeded<W, V, A>(spec: Spec<W, V, A>, modes: set<Mode>, unsatisfied: set<Capability>)
    requires unsatisfied != {}
    requires forall r :: r in unsatisfied ==> r in DerivedRequirements(spec.query) && Providers(spec, modes, r) == {}
    ensures forall t :: !Assured(spec, modes, t)
  {
    var r :| r in unsatisfied;
    forall t, m | t <= Eligible(spec, modes) && m in t ensures !Provides(spec, m, r) {
      assert m !in Providers(spec, modes, r);
    }
  }

  lemma StructuralSound<W, V, A>(spec: Spec<W, V, A>, modes: set<Mode>, structural: seq<set<string>>)
    requires Encodes(spec, modes, DerivedRequirements(spec.query), structural)
    ensures Sound(spec, modes, structural, structural)
  {
    forall t | Assured(spec, modes, t) ensures HitsAll(structural, t) {
      EncodesRequirements(spec, modes, structural, t);
    }
  }

  /** The success exit. */
  method Accept<W, V(==), A(==)>(spec: Spec<W, V, A>, modes: set<Mode>, weights: CostVector, ghost maxIterations: int,
                                 selected: set<string>, iteration: nat, certificates: nat)
    returns (r: SynthesisResult<W, A>)
    requires Optimal(spec, modes, weights, selected) && iteration <= |DifferingPairs(spec)| + 1
    ensures r.contract == selected && r.iterations == iteration && r.exit.Accepted?
    ensures Exact(spec, modes, weights, maxIterations, r)
  {
    var status := if exists m :: m in selected && spec.mechanisms[m].mode.Active? then Auditable else PassiveAuditable;
    var witnesses := MinimalityWitnesses(spec, modes, selected);
    if Positive(Costs(spec, modes, weights)) {
      forall m | m in selected ensures m in witnesses {
        OptimalIsIrredundant(spec, modes, weights, selected, m);
      }
    }
    r := SynthesisResult(status, Accepted, selected, Cost(Costs(spec, modes, weights), selected), iteration, certificates, None, witnesses);
  }

  // ----- synthesize -----

  datatype Policy = PassiveOnly | All | Auto

  lemma PassiveIsAssured<W, V, A>(spec: Spec<W, V, A>, t: set<string>)
    requires Assured(spec, {Passive}, t)
    ensures Assured(spec, {Passive, Active}, t)
  {
    var narrow, wide := Dependencies(spec, {Passive}), Dependencies(spec, {Passive, Active});
    forall x, y | x in t && y in Requires(wide, x) ensures y in t {
      assert y in Requires(narrow, x);
    }
  }

  /** Passive first. With an iteration cap above the number of answer-differing pairs the outcome is
      decided by existence alone: a passive contract whenever one exists, an active one only when none does. */
  method Synthesize<W, V(==), A(==)>(spec: Spec<W, V, A>, policy: Policy, weights: CostVector, maxIterations: int)
    returns (r: Option<SynthesisResult<W, A>>)
    ensures r.None? <==> !ValidInput(spec, weights)
    ensures r.Some? && policy.PassiveOnly? ==> Exact(spec, {Passive}, weights, maxIterations, r.value)
    ensures r.Some? && policy.All? ==> Exact(spec, {Passive, Active}, weights, maxIterations, r.value)
    ensures r.Some? && IsAuditable(r.value.status) ==> Assured(spec, {Passive, Active}, r.value.contract)
    ensures r.Some? && r.value.unresolved.Some? ==>
              InseparablePair(spec, if policy.PassiveOnly? then {Passive} else {Passive, Active}, r.value.unresolved.value)
    ensures r.Some? && policy.Auto? && r.value.status.ActiveAuditRequired? ==>
              Optimal(spec, {Passive, Active}, weights, r.value.contract)
    ensures r.Some? && policy.Auto? && maxIterations > |DifferingPairs(spec)| ==>
              && r.value.status != Inconclusive
              && (r.value.status.PassiveAuditable? <==> exists t :: Assured(spec, {Passive}, t))
              && (r.value.status.PassiveAuditable? ==> Optimal(spec, {Passive}, weights, r.value.contract))
              && (IsAuditable(r.value.status) <==> exists t :: Assured(spec, {Passive, Active}, t))
  {
    if !ValidInput(spec, weights) {
      return None;
    }
    if policy.Auto? {
      forall t | Assured(spec, {Passive}, t) ensures Assured(spec, {Passive, Active}, t) {
        PassiveIsAssured(spec, t);
      }
      var passive := SynthesizeWithModes(spec, {Passive}, weights, maxIterations);
      if passive.status.PassiveAuditable? {
        return Some(passive);
      }
      PassiveNeverActive(spec, weights, maxIterations, passive);
      var complete := SynthesizeWithModes(spec, {Passive, Active}, weights, maxIterations);
      if complete.status.PassiveAuditable? {
        PassiveContract(spec, complete.contract);
      }
      if complete.status.Auditable? {
        complete := complete.(status := ActiveAuditRequired);
      }
      return Some(complete);
    }
    var modes := if policy.PassiveOnly? then {Passive} else {Passive, Active};
    var one := SynthesizeWithModes(spec, modes, weights, maxIterations);
    if IsAuditable(one.status) && policy.PassiveOnly? {
      PassiveIsAssured(spec, one.contract);
    }
    r := Some(one);
  }

  lemma PassiveNeverActive<W, V, A>(spec: Spec<W, V, A>, weights: CostVector, maxIterations: int, r: SynthesisResult<W, A>)
    requires Exact(spec, {Passive}, weights, maxIterations, r)
    ensures !r.status.Auditable?
  {
  }

  /** A contract assured over all mechanisms that happens to be passive is assured over the passive ones. */
  lemma PassiveContract<W, V, A>(spec: Spec<W, V, A>, t: set<string>)
    requires Assured(spec, {Passive, Active}, t) && forall m :: m in t ==> spec.mechanisms[m].mode.Passive?
    ensures Assured(spec, {Passive}, t)
  {
    var narrow, wide := Dependencies(spec, {Passive}), Dependencies(spec, {Passive, Active});
    forall x, y | x in t && y in Requires(narrow, x) ensures y in t {
      assert y in Requires(wide, x);
    }
  }
}
