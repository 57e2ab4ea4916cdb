/** Model adequacy before evidence determinacy: does the abstract world decide the external truth, and does
    the compiled contract decide the abstract answer? */
module Adequacy {
  import opened Wrappers
  import opened Compiler
  import opened Synthesis

  /** Concrete executions extend a released world with external values. */
  type Execution<W, E> = (W, E)

  /** The query may have any answer; `holds` is Python's truth value of an answer. */
  datatype Case<!W, !E, !A> = Case(
    externals: seq<E>,
    admits: Execution<W, E> -> bool,
    abstraction: Execution<W, E> -> W,
    truth: Execution<W, E> -> bool,
    query: Option<W -> A>,
    holds: A -> bool)

  predicate Answer<W, E, A>(c: Case<W, E, A>, w: W)
    requires c.query.Some?
  {
    c.holds(c.query.value(w))
  }

  // ----- concrete executions -----

  ghost predicate InDomain<W(!new), E(!new), A>(worlds: seq<W>, c: Case<W, E, A>, x: Execution<W, E>) {
    x.0 in worlds && x.1 in c.externals && c.admits(x)
  }

  /** `concrete_executions`: every world with every external combination that satisfies the constraints. */
  method ConcreteExecutions<W(!new), E(!new), A>(worlds: seq<W>, c: Case<W, E, A>) returns (xs: seq<Execution<W, E>>)
    ensures forall x :: x in xs <==> InDomain(worlds, c, x)
  {
    xs := [];
    for i := 0 to |worlds|
      invariant forall x :: x in xs <==> x.0 in worlds[..i] && x.1 in c.externals && c.admits(x)
    {
      for j := 0 to |c.externals|
        invariant forall x :: x in xs <==>
                    c.admits(x) && ((x.0 in worlds[..i] && x.1 in c.externals) || (x.0 == worlds[i] && x.1 in c.externals[..j]))
      {
        if c.admits((worlds[i], c.externals[j])) {
          xs := xs + [(worlds[i], c.externals[j])];
        }
      }
    }
  }

  // ----- check -----

  datatype Verdict = ModelGap | QueryGap | InterventionGap | EvidenceGap | TcbGap | ContractReady | VerificationFailure

  datatype ModelTwin<W, E> = ModelTwin(a: Execution<W, E>, b: Execution<W, E>, abstractWorld: W, truthA: bool, truthB: bool)

  datatype Finding<W, E> = Finding(
    adequate: bool, verdict: Option<Verdict>, checked: nat, abstractWorlds: nat,
    certificate: Option<ModelTwin<W, E>>, disagreement: Option<Execution<W, E>>)

  datatype Failure = OutsideModel | NoExecutions

  /** Two executions collapse to one abstract world although the external truth differs. */
  ghost predicate Collapse<W(!new), E(!new), A>(c: Case<W, E, A>, x: Execution<W, E>, y: Execution<W, E>) {
    c.abstraction(x) == c.abstraction(y) && c.truth(x) != c.truth(y)
  }

  ghost predicate ModelInadequate<W(!new), E(!new), A>(worlds: seq<W>, c: Case<W, E, A>) {
    exists x, y :: InDomain(worlds, c, x) && InDomain(worlds, c, y) && Collapse(c, x, y)
  }

  /** The query, evaluated on the abstraction, is the external truth. */
  ghost predicate Faithful<W(!new), E(!new), A>(worlds: seq<W>, c: Case<W, E, A>) {
    c.query.Some? && forall x :: InDomain(worlds, c, x) ==> Answer(c, c.abstraction(x)) == c.truth(x)
  }

  ghost predicate Total<W(!new), E(!new), A>(worlds: seq<W>, c: Case<W, E, A>) {
    forall x :: InDomain(worlds, c, x) ==> c.abstraction(x) in worlds
  }

  /** What `seen` holds after the first `n` executions. */
  ghost predicate Seen<W(!new), E(!new), A>(worlds: seq<W>, c: Case<W, E, A>, xs: seq<Execution<W, E>>, n: nat, seen: map<W, (bool, Execution<W, E>)>) {
    && n <= |xs|
    && (forall w :: w in seen ==> seen[w].1 in xs[..n] && c.abstraction(seen[w].1) == w && c.truth(seen[w].1) == seen[w].0)
    && (forall i :: 0 <= i < n ==> Recorded(worlds, c, seen, xs[i]))
  }

  ghost predicate Recorded<W(!new), E(!new), A>(worlds: seq<W>, c: Case<W, E, A>, seen: map<W, (bool, Execution<W, E>)>, x: Execution<W, E>) {
    var w := c.abstraction(x);
    w in worlds && w in seen && seen[w].0 == c.truth(x)
  }

  /** The first execution on which the supplied query disagrees. */
  ghost predicate Mismatch<W(!new), E(!new), A>(c: Case<W, E, A>, xs: seq<Execution<W, E>>, n: nat, disagreement: Option<Execution<W, E>>)
    requires n <= |xs|
  {
    && (disagreement.Some? ==> c.query.Some? && disagreement.value in xs[..n] && Answer(c, c.abstraction(disagreement.value)) != c.truth(disagreement.value))
    && (disagreement.None? && c.query.Some? ==> forall i :: 0 <= i < n ==> Answer(c, c.abstraction(xs[i])) == c.truth(xs[i]))
  }

  lemma SeenNext<W(!new), E(!new), A>(worlds: seq<W>, c: Case<W, E, A>, xs: seq<Execution<W, E>>, n: nat, seen: map<W, (bool, Execution<W, E>)>)
    requires n < |xs| && Seen(worlds, c, xs, n, seen) && c.abstraction(xs[n]) in worlds
    requires c.abstraction(xs[n]) in seen ==> seen[c.abstraction(xs[n])].0 == c.truth(xs[n])
    ensures var w := c.abstraction(xs[n]);
      Seen(worlds, c, xs, n + 1, if w in seen then seen else seen[w := (c.truth(xs[n]), xs[n])])
  {
    assert xs[..n + 1] == xs[..n] + [xs[n]];
    var w := c.abstraction(xs[n]);
    var seen' := if w in seen then seen else seen[w := (c.truth(xs[n]), xs[n])];
    forall i | 0 <= i < n + 1 ensures Recorded(worlds, c, seen', xs[i]) {
      if i < n { assert Recorded(worlds, c, seen, xs[i]); }
    }
  }

  lemma MismatchNext<W(!new), E(!new), A>(c: Case<W, E, A>, xs: seq<Execution<W, E>>, n: nat, disagreement: Option<Execution<W, E>>)
    requires n < |xs| && Mismatch(c, xs, n, disagreement)
    ensures var x := xs[n];
      Mismatch(c, xs, n + 1, if disagreement.None? && c.query.Some? && Answer(c, c.abstraction(x)) != c.truth(x) then Some(x) else disagreement)
  {
    assert xs[..n + 1] == xs[..n] + [xs[n]];
  }

  /** The world of execution `n` was seen before with the other truth. */
  lemma TwinFound<W(!new), E(!new), A>(worlds: seq<W>, c: Case<W, E, A>, xs: seq<Execution<W, E>>, n: nat, seen: map<W, (bool, Execution<W, E>)>)
    requires n < |xs| && Seen(worlds, c, xs, n, seen) && forall x :: x in xs <==> InDomain(worlds, c, x)
    requires var w := c.abstraction(xs[n]); w in worlds && w in seen && seen[w].0 != c.truth(xs[n])
    ensures var w := c.abstraction(xs[n]);
      IsModelTwin(worlds, c, ModelTwin(seen[w].1, xs[n], w, seen[w].0, c.truth(xs[n])))
    ensures ModelInadequate(worlds, c) && !Faithful(worlds, c)
  {
    var prior := seen[c.abstraction(xs[n])].1;
    assert prior in xs && InDomain(worlds, c, prior) && InDomain(worlds, c, xs[n]) && Collapse(c, prior, xs[n]);
  }

  /** Whatever the abstraction leaves undistinguished has one truth. */
  lemma SeenAll<W(!new), E(!new), A>(worlds: seq<W>, c: Case<W, E, A>, xs: seq<Execution<W, E>>, seen: map<W, (bool, Execution<W, E>)>)
    requires Seen(worlds, c, xs, |xs|, seen)
    requires forall x :: x in xs <==> InDomain(worlds, c, x)
    ensures !ModelInadequate(worlds, c) && Total(worlds, c)
  {
    forall x | InDomain(worlds, c, x) ensures Recorded(worlds, c, seen, x) {
      var i :| 0 <= i < |xs| && xs[i] == x;
    }
  }

  /** What `check` reports. */
  ghost predicate IsFinding<W(!new), E(!new), A>(worlds: seq<W>, c: Case<W, E, A>, f: Finding<W, E>) {
    && (f.adequate <==> f.verdict.None?)
    && (f.verdict.Some? ==> f.verdict.value.ModelGap? || f.verdict.value.QueryGap?)
    && (f.adequate ==> Total(worlds, c) && Faithful(worlds, c))
    && (f.verdict == Some(ModelGap) ==> f.certificate.Some? && IsModelTwin(worlds, c, f.certificate.value))
    && (f.verdict == Some(QueryGap) ==> Total(worlds, c) && !ModelInadequate(worlds, c) && !Faithful(worlds, c))
    && (f.disagreement.Some? ==>
          && c.query.Some? && InDomain(worlds, c, f.disagreement.value)
          && Answer(c, c.abstraction(f.disagreement.value)) != c.truth(f.disagreement.value))
  }

  ghost predicate IsModelTwin<W(!new), E(!new), A>(worlds: seq<W>, c: Case<W, E, A>, t: ModelTwin<W, E>) {
    && InDomain(worlds, c, t.a) && InDomain(worlds, c, t.b)
    && c.abstraction(t.a) == t.abstractWorld && c.abstraction(t.b) == t.abstractWorld && t.abstractWorld in worlds
    && t.truthA == c.truth(t.a) && t.truthB == c.truth(t.b) && t.truthA != t.truthB
  }

  /** One pass: adequate exactly when truth is the query on every abstraction; MODEL_GAP exactly when two
      executions collapse with different truth. */
  method CheckAdequacy<W(!new, ==), E(!new), A>(worlds: seq<W>, c: Case<W, E, A>) returns (r: Result<Finding<W, E>, Failure>)
    ensures r.Ok? ==> IsFinding(worlds, c, r.value)
    ensures r == Err(NoExecutions) <==> forall x :: !InDomain(worlds, c, x)
    ensures r == Err(OutsideModel) ==> !Total(worlds, c)
    ensures Total(worlds, c) && r.Ok? ==>
              && (r.value.adequate <==> Faithful(worlds, c))
              && (r.value.verdict == Some(ModelGap) <==> ModelInadequate(worlds, c))
  {
    var xs := ConcreteExecutions(worlds, c);
    var seen: map<W, (bool, Execution<W, E>)> := map[];
    var disagreement: Option<Execution<W, E>> := None;
    for n := 0 to |xs|
      invariant Seen(worlds, c, xs, n, seen)
      invariant Mismatch(c, xs, n, disagreement)
    {
      var x := xs[n];
      assert InDomain(worlds, c, x);
      var w, truth := c.abstraction(x), c.truth(x);
      if w !in worlds {
        return Err(OutsideModel);
      }
      if w in seen && seen[w].0 != truth {
        var (priorTruth, prior) := seen[w];
        var twin := ModelTwin(prior, x, w, priorTruth, truth);
        TwinFound(worlds, c, xs, n, seen);
        return Ok(Finding(false, Some(ModelGap), n + 1, |seen|, Some(twin), None));
      }
      SeenNext(worlds, c, xs, n, seen);
      if w !in seen {
        seen := seen[w := (truth, x)];
      }
      MismatchNext(c, xs, n, disagreement);
      if c.query.Some? && Answer(c, w) != truth && disagreement.None? {
        disagreement := Some(x);
      }
    }
    if |xs| == 0 {
      return Err(NoExecutions);
    }
    SeenAll(worlds, c, xs, seen);
    assert InDomain(worlds, c, xs[0]);
    assert xs[..|xs|] == xs;
    if disagreement.Some? {
      assert InDomain(worlds, c, disagreement.value);
      return Ok(Finding(false, Some(QueryGap), |xs|, |seen|, None, disagreement));
    }
    if c.query.None? {
      return Ok(Finding(false, Some(QueryGap), |xs|, |seen|, None, None));
    }
    r := Ok(Finding(true, None, |xs|, |seen|, None, None));
  }

  /** A model twin exists exactly when the model is inadequate. */
  lemma TwinsWitnessInadequacy<W(!new), E(!new), A>(worlds: seq<W>, c: Case<W, E, A>)
    requires Total(worlds, c)
    ensures (exists t :: IsModelTwin(worlds, c, t)) <==> ModelInadequate(worlds, c)
  {
    forall t | IsModelTwin(worlds, c, t) ensures ModelInadequate(worlds, c) {
      assert Collapse(c, t.a, t.b);
    }
    if ModelInadequate(worlds, c) {
      var x, y :| InDomain(worlds, c, x) && InDomain(worlds, c, y) && Collapse(c, x, y);
      assert IsModelTwin(worlds, c, ModelTwin(x, y, c.abstraction(x), c.truth(x), c.truth(y)));
    }
  }

  // ----- compile -----

  datatype Assurance<W, E, A> = Assurance(verdict: Verdict, adequacy: Finding<W, E>, synthesis: Option<SynthesisResult<W, A>>)

  datatype Stop = Unchecked(reason: Failure) | InvalidInput

  function VerdictFor<W, A>(r: SynthesisResult<W, A>): Verdict {
    if r.status.UnrealizableIntervention? then InterventionGap
    else if r.status.NotAuditable? then (if r.unresolved.Some? then EvidenceGap else TcbGap)
    else if IsAuditable(r.status) then ContractReady
    else VerificationFailure
  }

  /** The specification whose answer is the case's query, as it evaluates. */
  function Working<W, V, E, A>(spec: Spec<W, V, A>, c: Case<W, E, A>): Spec<W, V, A>
    requires c.query.Some?
  {
    spec.(answer := c.query.value)
  }

  /** Whatever the contract shows of two executions' abstract worlds decides the external truth. */
  ghost predicate DecidesTruth<W(!new), V, E(!new), A>(spec: Spec<W, V, A>, c: Case<W, E, A>, contract: set<string>) {
    forall x, y :: InDomain(spec.worlds, c, x) && InDomain(spec.worlds, c, y) ==>
      LooksAlike(spec, contract, c.abstraction(x), c.abstraction(y)) ==> c.truth(x) == c.truth(y)
  }

  /** Adequacy and determinacy compose. */
  lemma Composition<W(!new), V, E(!new), A>(spec: Spec<W, V, A>, c: Case<W, E, A>, contract: set<string>)
    requires Total(spec.worlds, c) && Faithful(spec.worlds, c) && Determinate(Working(spec, c), contract)
    ensures DecidesTruth(spec, c, contract)
  {
    forall x, y | InDomain(spec.worlds, c, x) && InDomain(spec.worlds, c, y)
      && LooksAlike(spec, contract, c.abstraction(x), c.abstraction(y)) ensures c.truth(x) == c.truth(y) {
      var work := Working(spec, c);
      assert LooksAlike(work, contract, c.abstraction(x), c.abstraction(y));
      assert work.answer(c.abstraction(x)) == work.answer(c.abstraction(y));
    }
  }

  /** No contract can decide the truth of an inadequate model: a collapsed pair looks alike to everything. */
  lemma InadequacyIsFinal<W(!new), V, E(!new), A>(spec: Spec<W, V, A>, c: Case<W, E, A>, contract: set<string>)
    requires ModelInadequate(spec.worlds, c)
    ensures !DecidesTruth(spec, c, contract)
  {
    var x, y :| InDomain(spec.worlds, c, x) && InDomain(spec.worlds, c, y) && Collapse(c, x, y);
    assert LooksAlike(spec, contract, c.abstraction(x), c.abstraction(y));
  }

  /** `AuditAssuranceCompiler.compile` */
  method CompileAssurance<W(!new, ==), V(==), E(!new), A(==)>(spec: Spec<W, V, A>, c: Case<W, E, A>, policy: Policy, weights: CostVector, maxIterations: int)
    returns (r: Result<Assurance<W, E, A>, Stop>)
    ensures r.Ok? ==> IsFinding(spec.worlds, c, r.value.adequacy)
    ensures r.Ok? && r.value.synthesis.None? ==> Some(r.value.verdict) == r.value.adequacy.verdict
    ensures r.Ok? ==> (r.value.synthesis.Some? <==> r.value.adequacy.adequate)
    ensures r.Ok? && r.value.verdict.ContractReady? ==>
              && r.value.synthesis.Some? && Faithful(spec.worlds, c)
              && Assured(Working(spec, c), {Passive, Active}, r.value.synthesis.value.contract)
              && DecidesTruth(spec, c, r.value.synthesis.value.contract)
    ensures r.Ok? && r.value.verdict.EvidenceGap? ==>
              && r.value.synthesis.Some? && r.value.synthesis.value.unresolved.Some? && c.query.Some?
              && InseparablePair(Working(spec, c), if policy.PassiveOnly? then {Passive} else {Passive, Active},
                                 r.value.synthesis.value.unresolved.value)
    ensures r.Ok? && Total(spec.worlds, c) && policy.Auto? && c.query.Some? && maxIterations > |DifferingPairs(Working(spec, c))| ==>
              (r.value.verdict.ContractReady? <==>
                 Faithful(spec.worlds, c) && exists t :: Assured(Working(spec, c), {Passive, Active}, t))
  {
    var adequacy := CheckAdequacy(spec.worlds, c);
    if adequacy.Err? {
      return Err(Unchecked(adequacy.error));
    }
    if !adequacy.value.adequate {
      return Ok(Assurance(adequacy.value.verdict.value, adequacy.value, None));
    }
    var synthesis := Synthesize(Working(spec, c), policy, weights, maxIterations);
    if synthesis.None? {
      return Err(InvalidInput);
    }
    if IsAuditable(synthesis.value.status) {
      Composition(spec, c, synthesis.value.contract);
    }
    r := Ok(Assurance(VerdictFor(synthesis.value), adequacy.value, synthesis));
  }

  // ----- answers that are not Boolean -----

  /** The contract determines the truth value of the answer. */
  ghost predicate DeterminesTruth<W, V, E, A>(spec: Spec<W, V, A>, c: Case<W, E, A>, t: set<string>)
    requires c.query.Some?
  {
    forall a, b :: a in spec.worlds && b in spec.worlds && LooksAlike(spec, t, a, b) ==> Answer(c, a) == Answer(c, b)
  }

  /** Adequacy looks at the truth value of the query's answer, the compiler at the answer itself: the worlds have
      different answers that mean the same. */
  predicate Overdistinguished<W, E, A(==)>(c: Case<W, E, A>, a: W, b: W)
    requires c.query.Some?
  {
    c.query.value(a) != c.query.value(b) && Answer(c, a) == Answer(c, b)
  }

  /** What the compiler demands of a contract beyond deciding truth: no two worlds it leaves alike may be
      overdistinguished. */
  lemma RawAnswersExactly<W, V, E, A>(spec: Spec<W, V, A>, c: Case<W, E, A>, t: set<string>)
    requires c.query.Some?
    ensures Determinate(Working(spec, c), t) <==>
              && DeterminesTruth(spec, c, t)
              && forall a, b :: a in spec.worlds && b in spec.worlds && LooksAlike(spec, t, a, b) ==> !Overdistinguished(c, a, b)
  {
    var work := Working(spec, c);
    forall a, b ensures LooksAlike(work, t, a, b) <==> LooksAlike(spec, t, a, b) {
    }
  }

  /** Two worlds ask the same of every contract under both readings exactly when they are not overdistinguished. */
  lemma AnswersAgreeExactly<W, V, E, A>(spec: Spec<W, V, A>, c: Case<W, E, A>, a: W, b: W)
    requires c.query.Some?
    ensures !Overdistinguished(c, a, b) <==>
              forall t :: (LooksAlike(spec, t, a, b) ==> c.query.value(a) == c.query.value(b))
                          <==> (LooksAlike(spec, t, a, b) ==> Answer(c, a) == Answer(c, b))
  {
    assert LooksAlike(spec, {}, a, b);
  }

  /** With one answer for each truth value, the compiler looks for exactly the contracts that decide truth. */
  lemma TruthIsAnswer<W, V, E, A>(spec: Spec<W, V, A>, c: Case<W, E, A>, t: set<string>)
    requires c.query.Some?
    requires forall a, b :: a in spec.worlds && b in spec.worlds ==> !Overdistinguished(c, a, b)
    ensures Determinate(Working(spec, c), t) <==> DeterminesTruth(spec, c, t)
  {
    RawAnswersExactly(spec, c, t);
  }

  /** A query that counts, for an obligation that always holds. */
  function CountingCase(): Case<int, (), int> {
    Case([()], _ => true, (x: (int, ())) => x.0, _ => true, Some((n: int) => n), (n: int) => n != 0)
  }

  /** Over two worlds the query is faithful and the empty contract decides the truth, but no contract is assured,
      so the verdict is not CONTRACT_READY. */
  lemma CountingQueryIsNotReady<V>(spec: Spec<int, V, int>, modes: set<Mode>)
    requires spec.worlds == [1, 2] && spec.mechanisms == map[]
    ensures var c := CountingCase();
      && Total(spec.worlds, c) && Faithful(spec.worlds, c) && DecidesTruth(spec, c, {}) && Overdistinguished(c, 1, 2)
      && forall t :: !Assured(Working(spec, c), modes, t)
  {
    var c := CountingCase();
    var work := Working(spec, c);
    forall t ensures !Assured(work, modes, t) {
      if t <= Eligible(work, modes) {
        assert t == {};
        assert LooksAlike(work, t, 1, 2) && work.answer(1) != work.answer(2);
        assert 1 in work.worlds && 2 in work.worlds;
      }
    }
  }
}
