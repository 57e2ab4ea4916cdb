/** Contract checking and the counterexample-guided synthesis loop of the audit compiler. */
module Compiler {
  import opened Wrappers
  import opened Order
  import opened Contracts

  // ----- specifications -----

  datatype Mode = Passive | Active

  /** Structural guarantees a query can demand and a mechanism can provide. */
  datatype Capability =
    | Bind(source: string, target: string)
    | Coverage(channel: string)
    | Replay(target: string)
    | Other(name: string)

  datatype CostVector = CostVector(bytes: real, privacy: real, latencyMs: real, fragility: real)

  datatype Mechanism = Mechanism(
    mode: Mode,
    required: seq<string>,
    cost: CostVector,
    rejections: set<string>,            // threat-model, adapter and replay-contract reasons
    declared: set<Capability>,
    bindings: seq<(string, string)>,
    coverageChannel: Option<string>,
    capturePoint: string,
    adapterValid: bool,
    replay: Option<(string, bool)>)     // target, and whether the replay contract validates

  datatype Fact = Fact(entity: string, negativeChannel: Option<string>)

  datatype Query = Query(
    anchorEntity: string,
    facts: seq<Fact>,                   // the facts the query expression references
    required: set<Capability>,
    interventionTarget: Option<string>) // present exactly for causality queries

  /** One query over finite worlds under one threat model. `mediator` holds the channels whose
      mediation proof is valid, with the proven mediator. */
  datatype Spec<!W, !V, !A> = Spec(
    worlds: seq<W>,
    observe: (string, W) -> V,
    answer: W -> A,
    query: Query,
    mechanisms: map<string, Mechanism>,
    mediator: map<string, string>)

  predicate ValidCost(c: CostVector) {
    c.bytes >= 0.0 && c.privacy >= 0.0 && c.latencyMs >= 0.0 && c.fragility >= 0.0
  }

  /** What the constructor and `synthesize` check before any work. */
  predicate ValidInput<W, V, A>(spec: Spec<W, V, A>, weights: CostVector) {
    spec.worlds != [] && ValidCost(weights) && forall m :: m in spec.mechanisms ==> ValidCost(spec.mechanisms[m].cost)
  }

  function Weighted(c: CostVector, weights: CostVector): real {
    weights.bytes * c.bytes + weights.privacy * c.privacy + weights.latencyMs * c.latencyMs + weights.fragility * c.fragility
  }

  function EffectiveCapabilities<W, V, A>(spec: Spec<W, V, A>, m: Mechanism): set<Capability> {
    (set c | c in m.declared && c.Other?)
    + (if m.adapterValid then (set e | e in m.bindings :: Bind(e.0, e.1)) else {})
    + (if m.adapterValid && m.coverageChannel.Some? && m.coverageChannel.value in spec.mediator
          && spec.mediator[m.coverageChannel.value] == m.capturePoint
       then {Coverage(m.coverageChannel.value)} else {})
    + (if m.mode.Active? && m.replay.Some? && m.replay.value.1 then {Replay(m.replay.value.0)} else {})
  }

  function DerivedRequirements(q: Query): set<Capability> {
    q.required
    + (set f | f in q.facts && f.entity != q.anchorEntity :: Bind(q.anchorEntity, f.entity))
    + (set f | f in q.facts && f.negativeChannel.Some? :: Coverage(f.negativeChannel.value))
    + (if q.interventionTarget.Some? then {Replay(q.interventionTarget.value)} else {})
  }

  function Eligible<W, V, A>(spec: Spec<W, V, A>, modes: set<Mode>): set<string> {
    set m | m in spec.mechanisms && spec.mechanisms[m].mode in modes && spec.mechanisms[m].rejections == {}
  }

  function Costs<W, V, A>(spec: Spec<W, V, A>, modes: set<Mode>, weights: CostVector): map<string, real> {
    map m | m in Eligible(spec, modes) :: Weighted(spec.mechanisms[m].cost, weights)
  }

  function Dependencies<W, V, A>(spec: Spec<W, V, A>, modes: set<Mode>): map<string, seq<string>> {
    map m | m in Eligible(spec, modes) :: spec.mechanisms[m].required
  }

  predicate Provides<W, V, A>(spec: Spec<W, V, A>, m: string, r: Capability) {
    m in spec.mechanisms && r in EffectiveCapabilities(spec, spec.mechanisms[m])
  }

  // ----- what a contract must do -----

  /** The two worlds cannot be told apart by the contract. */
  predicate LooksAlike<W, V(==), A>(spec: Spec<W, V, A>, contract: set<string>, a: W, b: W) {
    forall m :: m in contract ==> spec.observe(m, a) == spec.observe(m, b)
  }

  /** The contract's observations determine the answer over the declared worlds. */
  ghost predicate Determinate<W, V, A>(spec: Spec<W, V, A>, contract: set<string>) {
    forall a, b :: a in spec.worlds && b in spec.worlds && LooksAlike(spec, contract, a, b) ==> spec.answer(a) == spec.answer(b)
  }

  ghost predicate MeetsRequirements<W, V, A>(spec: Spec<W, V, A>, contract: set<string>) {
    forall r :: r in DerivedRequirements(spec.query) ==> exists m :: m in contract && Provides(spec, m, r)
  }

  /** An eligible, dependency-closed, requirement-meeting and determinate contract. */
  ghost predicate Assured<W, V, A>(spec: Spec<W, V, A>, modes: set<Mode>, t: set<string>) {
    && t <= Eligible(spec, modes)
    && Closed(Dependencies(spec, modes), t)
    && MeetsRequirements(spec, t)
    && Determinate(spec, t)
  }

  // ----- check_contract -----

  datatype Twin<W, A> = Twin(worldA: W, worldB: W, answerA: A, answerB: A, separators: set<string>)

  datatype Check<W, A> = Check(auditable: bool, twin: Option<Twin<W, A>>, unmet: set<Capability>, missing: set<string>)

  function Observations<W, V, A>(spec: Spec<W, V, A>, names: seq<string>, w: W): seq<(string, V)> {
    if names == [] then [] else [(names[0], spec.observe(names[0], w))] + Observations(spec, names[1..], w)
  }

  lemma {:induction false} ObservationsAt<W, V, A>(spec: Spec<W, V, A>, names: seq<string>, w: W)
    ensures |Observations(spec, names, w)| == |names|
    ensures forall i :: 0 <= i < |names| ==> Observations(spec, names, w)[i] == (names[i], spec.observe(names[i], w))
  {
    if names != [] { ObservationsAt(spec, names[1..], w); }
  }

  lemma ObservationsDecide<W, V, A>(spec: Spec<W, V, A>, contract: set<string>, a: W, b: W)
    ensures Observations(spec, SortedNames(contract), a) == Observations(spec, SortedNames(contract), b)
      <==> LooksAlike(spec, contract, a, b)
  {
    var names := SortedNames(contract);
    var oa, ob := Observations(spec, names, a), Observations(spec, names, b);
    ObservationsAt(spec, names, a);
    ObservationsAt(spec, names, b);
    if oa == ob {
      forall m | m in contract ensures spec.observe(m, a) == spec.observe(m, b) {
        var i :| 0 <= i < |names| && names[i] == m;
        assert oa[i] == ob[i];
      }
    }
    if LooksAlike(spec, contract, a, b) {
      forall i | 0 <= i < |names| ensures oa[i] == ob[i] {
        assert names[i] in contract;
      }
    }
  }

  /** A pair of worlds the contract cannot tell apart although their answers differ, with everything
      in the catalog that separates them. */
  ghost predicate IsTwin<W, V, A>(spec: Spec<W, V, A>, contract: set<string>, eligible: set<string>, t: Twin<W, A>, i: nat, j: nat) {
    && i < j < |spec.worlds| && t.worldA == spec.worlds[i] && t.worldB == spec.worlds[j]
    && t.answerA == spec.answer(t.worldA) && t.answerB == spec.answer(t.worldB) && t.answerA != t.answerB
    && LooksAlike(spec, contract, t.worldA, t.worldB)
    && t.separators == Separators(spec, eligible, t.worldA, t.worldB)
  }

  function Separators<W, V(==), A>(spec: Spec<W, V, A>, eligible: set<string>, a: W, b: W): set<string> {
    set m | m in eligible && spec.observe(m, a) != spec.observe(m, b)
  }

  /** The buckets hold, for every observation of the first `n` worlds, one world that produced it and
      the answer all of them share. */
  ghost predicate BucketsFor<W, V, A>(spec: Spec<W, V, A>, names: seq<string>, buckets: map<seq<(string, V)>, (A, nat)>, n: nat)
    requires n <= |spec.worlds|
  {
    && (forall k :: k in buckets ==>
          buckets[k].1 < n && k == Observations(spec, names, spec.worlds[buckets[k].1])
          && buckets[k].0 == spec.answer(spec.worlds[buckets[k].1]))
    && (forall i :: 0 <= i < n ==>
          Observations(spec, names, spec.worlds[i]) in buckets
          && buckets[Observations(spec, names, spec.worlds[i])].0 == spec.answer(spec.worlds[i]))
  }

  method FindTwin<W, V(==), A(==)>(spec: Spec<W, V, A>, contract: set<string>, eligible: set<string>)
    returns (twin: Option<Twin<W, A>>, ghost i: nat, ghost j: nat)
    ensures twin.None? <==> Determinate(spec, contract)
    ensures twin.Some? ==> IsTwin(spec, contract, eligible, twin.value, i, j)
  {
    i, j := 0, 0;
    var names := SortedNames(contract);
    var buckets: map<seq<(string, V)>, (A, nat)> := map[];
    for n := 0 to |spec.worlds|
      invariant BucketsFor(spec, names, buckets, n)
    {
      var world := spec.worlds[n];
      var obs, answer := Observations(spec, names, world), spec.answer(world);
      if obs in buckets {
        var (priorAnswer, prior) := buckets[obs];
        if priorAnswer != answer {
          var priorWorld := spec.worlds[prior];
          i, j := prior, n;
          twin := Some(Twin(priorWorld, world, priorAnswer, answer, Separators(spec, eligible, priorWorld, world)));
          TwinRefutes(spec, contract, eligible, twin.value, i, j);
          return;
        }
        BucketsKeep(spec, names, buckets, n);
      } else {
        BucketsAdd(spec, names, buckets, n);
        buckets := buckets[obs := (answer, n)];
      }
    }
    BucketsDeterminate(spec, contract, buckets);
    twin := None;
  }

  lemma TwinRefutes<W, V, A>(spec: Spec<W, V, A>, contract: set<string>, eligible: set<string>, t: Twin<W, A>, i: nat, j: nat)
    requires i < j < |spec.worlds| && t.worldA == spec.worlds[i] && t.worldB == spec.worlds[j]
    requires t.answerA == spec.answer(t.worldA) && t.answerB == spec.answer(t.worldB) && t.answerA != t.answerB
    requires t.separators == Separators(spec, eligible, t.worldA, t.worldB)
    requires Observations(spec, SortedNames(contract), t.worldA) == Observations(spec, SortedNames(contract), t.worldB)
    ensures IsTwin(spec, contract, eligible, t, i, j) && !Determinate(spec, contract)
  {
    ObservationsDecide(spec, contract, t.worldA, t.worldB);
    assert t.worldA in spec.worlds && t.worldB in spec.worlds;
  }

  lemma BucketsKeep<W, V, A>(spec: Spec<W, V, A>, names: seq<string>, buckets: map<seq<(string, V)>, (A, nat)>, n: nat)
    requires n < |spec.worlds| && BucketsFor(spec, names, buckets, n)
    requires Observations(spec, names, spec.worlds[n]) in buckets
    requires buckets[Observations(spec, names, spec.worlds[n])].0 == spec.answer(spec.worlds[n])
    ensures BucketsFor(spec, names, buckets, n + 1)
  {
  }

  lemma BucketsAdd<W, V, A>(spec: Spec<W, V, A>, names: seq<string>, buckets: map<seq<(string, V)>, (A, nat)>, n: nat)
    requires n < |spec.worlds| && BucketsFor(spec, names, buckets, n)
    requires Observations(spec, names, spec.worlds[n]) !in buckets
    ensures BucketsFor(spec, names, buckets[Observations(spec, names, spec.worlds[n]) := (spec.answer(spec.worlds[n]), n)], n + 1)
  {
  }

  lemma BucketsDeterminate<W, V, A>(spec: Spec<W, V, A>, contract: set<string>, buckets: map<seq<(string, V)>, (A, nat)>)
    requires BucketsFor(spec, SortedNames(contract), buckets, |spec.worlds|)
    ensures Determinate(spec, contract)
  {
    forall a, b | a in spec.worlds && b in spec.worlds && LooksAlike(spec, contract, a, b)
      ensures spec.answer(a) == spec.answer(b) {
      ObservationsDecide(spec, contract, a, b);
    }
  }

  function Unmet<W, V, A>(spec: Spec<W, V, A>, contract: set<string>): set<Capability> {
    set r | r in DerivedRequirements(spec.query) && forall m :: m in contract ==> !Provides(spec, m, r)
  }

  function Missing<W, V, A>(spec: Spec<W, V, A>, contract: set<string>): set<string> {
    set m, d | m in contract && m in spec.mechanisms && d in spec.mechanisms[m].required && d !in contract :: d
  }

  /** Refuses unavailable mechanisms; otherwise decides assurance exactly. */
  method CheckContract<W, V(==), A(==)>(spec: Spec<W, V, A>, modes: set<Mode>, contract: set<string>)
    returns (r: Result<Check<W, A>, set<string>>, ghost i: nat, ghost j: nat)
    ensures r.Err? <==> !(contract <= Eligible(spec, modes))
    ensures r.Err? ==> r.error == contract - Eligible(spec, modes)
    ensures r.Ok? ==> (r.value.auditable <==> Assured(spec, modes, contract))
    ensures r.Ok? ==> (r.value.twin.None? <==> Determinate(spec, contract))
    ensures r.Ok? && r.value.twin.Some? ==> IsTwin(spec, contract, Eligible(spec, modes), r.value.twin.value, i, j)
    ensures r.Ok? ==> r.value.unmet == Unmet(spec, contract) && r.value.missing == Missing(spec, contract)
    ensures r.Ok? ==> (r.value.unmet == {} <==> MeetsRequirements(spec, contract))
    ensures r.Ok? ==> (r.value.missing == {} <==> Closed(Dependencies(spec, modes), contract))
  {
    i, j := 0, 0;
    var eligible := Eligible(spec, modes);
    var unavailable := contract - eligible;
    assert forall m :: m in contract && m !in eligible ==> m in unavailable;
    if unavailable != {} {
      return Err(unavailable), 0, 0;
    }
    var unmet, missing := Unmet(spec, contract), Missing(spec, contract);
    StructuralAssurance(spec, modes, contract);
    var twin;
    twin, i, j := FindTwin(spec, contract, eligible);
    r := Ok(Check(twin.None? && unmet == {} && missing == {}, twin, unmet, missing));
  }

  lemma StructuralAssurance<W, V, A>(spec: Spec<W, V, A>, modes: set<Mode>, contract: set<string>)
    requires contract <= Eligible(spec, modes)
    ensures Unmet(spec, contract) == {} <==> MeetsRequirements(spec, contract)
    ensures Missing(spec, contract) == {} <==> Closed(Dependencies(spec, modes), contract)
  {
    var deps := Dependencies(spec, modes);
    if MeetsRequirements(spec, contract) {
      forall r ensures r !in Unmet(spec, contract) {
      }
    } else {
      var r :| r in DerivedRequirements(spec.query) && !exists m :: m in contract && Provides(spec, m, r);
      assert r in Unmet(spec, contract);
    }
    if Closed(deps, contract) {
      forall m, d | m in contract && d in spec.mechanisms[m].required ensures d in contract {
        assert d in Requires(deps, m);
      }
    } else {
      var m, d :| m in contract && d in Requires(deps, m) && d !in contract;
      assert d in Missing(spec, contract);
    }
  }
}
