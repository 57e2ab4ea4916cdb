/** The capped exhaustive backend: determinacy checks and synthesis that count the worlds they look at. */
module FiniteBackend {
  import opened Wrappers
  import opened Order
  import opened Contracts
  import opened Subsets
  import opened Compiler

  type Catalog<!W, !V> = Spec<W, V, bool>

  // ----- what a pass over the worlds finds -----

  /** World `j` gives the observations of an earlier world, but another answer. */
  ghost predicate Clashes<W, V>(spec: Catalog<W, V>, t: set<string>, i: nat, j: nat) {
    i < j < |spec.worlds| && LooksAlike(spec, t, spec.worlds[i], spec.worlds[j]) && spec.answer(spec.worlds[i]) != spec.answer(spec.worlds[j])
  }

  ghost predicate ClashAt<W, V>(spec: Catalog<W, V>, t: set<string>, j: nat) {
    exists i :: Clashes(spec, t, i, j)
  }

  /** How many worlds an uncapped pass looks at, from `n` on. */
  ghost function NeededFrom<W, V>(spec: Catalog<W, V>, t: set<string>, n: nat): (r: nat)
    requires n <= |spec.worlds|
    ensures n <= r <= |spec.worlds|
    decreases |spec.worlds| - n
  {
    if n == |spec.worlds| then n else if ClashAt(spec, t, n) then n + 1 else NeededFrom(spec, t, n + 1)
  }

  ghost function Needed<W, V>(spec: Catalog<W, V>, t: set<string>): nat {
    NeededFrom(spec, t, 0)
  }

  /** The buckets hold one world for every observation among the first `n`, whose answers all agree. */
  ghost predicate Agreed<W, V>(spec: Catalog<W, V>, t: set<string>, n: nat) {
    n <= |spec.worlds| && forall i: nat, j: nat :: j < n ==> !Clashes(spec, t, i, j)
  }

  lemma AgreedAll<W, V>(spec: Catalog<W, V>, t: set<string>)
    requires Agreed(spec, t, |spec.worlds|)
    ensures Determinate(spec, t)
  {
    forall a, b | a in spec.worlds && b in spec.worlds && LooksAlike(spec, t, a, b) ensures spec.answer(a) == spec.answer(b) {
      var i :| 0 <= i < |spec.worlds| && spec.worlds[i] == a;
      var j :| 0 <= j < |spec.worlds| && spec.worlds[j] == b;
      assert !Clashes(spec, t, i, j) && !Clashes(spec, t, j, i);
    }
  }

  lemma ClashRefutes<W, V>(spec: Catalog<W, V>, t: set<string>, i: nat, j: nat)
    requires Clashes(spec, t, i, j)
    ensures !Determinate(spec, t)
  {
    assert spec.worlds[i] in spec.worlds && spec.worlds[j] in spec.worlds;
  }

  /** Whether the pass was cut short, the pair it found, and how many worlds it used. */
  datatype Pass = Pass(limited: bool, twin: Option<(nat, nat)>, used: nat)

  ghost predicate IsPass<W, V>(spec: Catalog<W, V>, t: set<string>, remaining: int, r: Pass) {
    && (r.limited <==> Needed(spec, t) > 0 && remaining < Needed(spec, t))
    && r.used == (if !r.limited then Needed(spec, t) else if remaining < 0 then 0 else remaining)
    && (r.limited ==> r.twin.None?)
    && (r.twin.Some? ==> Clashes(spec, t, r.twin.value.0, r.twin.value.1))
    && (!r.limited ==> (r.twin.None? <==> Determinate(spec, t)))
  }

  /** Buckets keyed by observations; each holds its first world. */
  ghost predicate Filled<W, V>(spec: Catalog<W, V>, names: seq<string>, buckets: map<seq<(string, V)>, nat>, n: nat)
    requires n <= |spec.worlds|
  {
    && (forall k :: k in buckets ==> buckets[k] < n && k == Observations(spec, names, spec.worlds[buckets[k]]))
    && (forall i :: 0 <= i < n ==> InBucket(spec, names, buckets, i))
  }

  ghost predicate InBucket<W, V>(spec: Catalog<W, V>, names: seq<string>, buckets: map<seq<(string, V)>, nat>, i: nat)
    requires i < |spec.worlds|
  {
    var key := Observations(spec, names, spec.worlds[i]);
    key in buckets && buckets[key] < |spec.worlds| && spec.answer(spec.worlds[buckets[key]]) == spec.answer(spec.worlds[i])
  }

  /** The state of a pass after `n` worlds. */
  ghost predicate Scanned<W, V>(spec: Catalog<W, V>, t: set<string>, buckets: map<seq<(string, V)>, nat>, n: nat) {
    && Agreed(spec, t, n) && Filled(spec, SortedNames(t), buckets, n)
    && NeededFrom(spec, t, n) == Needed(spec, t)
  }

  /** The bucket of world `n` holds a world with another answer. */
  predicate Conflicts<W, V(==)>(spec: Catalog<W, V>, buckets: map<seq<(string, V)>, nat>, key: seq<(string, V)>, n: nat)
    requires n < |spec.worlds|
  {
    key in buckets && buckets[key] < |spec.worlds| && spec.answer(spec.worlds[buckets[key]]) != spec.answer(spec.worlds[n])
  }

  /** `_check_determinacy` */
  method CheckDeterminacy<W, V(==)>(spec: Catalog<W, V>, t: set<string>, remaining: int) returns (r: Pass)
    ensures IsPass(spec, t, remaining, r)
  {
    var names := SortedNames(t);
    var buckets: map<seq<(string, V)>, nat> := map[];
    for n := 0 to |spec.worlds|
      invariant n == 0 || n <= remaining
      invariant Scanned(spec, t, buckets, n)
    {
      if n >= remaining {
        return Pass(true, None, n);
      }
      var key := Observations(spec, names, spec.worlds[n]);
      if Conflicts(spec, buckets, key, n) {
        ConflictIsClash(spec, t, buckets, n);
        return Pass(false, Some((buckets[key], n)), n + 1);
      }
      ScanNext(spec, t, buckets, n);
      if key !in buckets {
        buckets := buckets[key := n];
      }
    }
    AgreedAll(spec, t);
    r := Pass(false, None, |spec.worlds|);
  }

  lemma ConflictIsClash<W, V>(spec: Catalog<W, V>, t: set<string>, buckets: map<seq<(string, V)>, nat>, n: nat)
    requires n < |spec.worlds| && Scanned(spec, t, buckets, n)
    requires Conflicts(spec, buckets, Observations(spec, SortedNames(t), spec.worlds[n]), n)
    ensures var i := buckets[Observations(spec, SortedNames(t), spec.worlds[n])];
      Clashes(spec, t, i, n) && !Determinate(spec, t) && Needed(spec, t) == n + 1
  {
    var i := buckets[Observations(spec, SortedNames(t), spec.worlds[n])];
    ObservationsDecide(spec, t, spec.worlds[i], spec.worlds[n]);
    assert Clashes(spec, t, i, n);
    ClashRefutes(spec, t, i, n);
  }

  lemma ScanNext<W, V>(spec: Catalog<W, V>, t: set<string>, buckets: map<seq<(string, V)>, nat>, n: nat)
    requires n < |spec.worlds| && Scanned(spec, t, buckets, n)
    requires !Conflicts(spec, buckets, Observations(spec, SortedNames(t), spec.worlds[n]), n)
    ensures var key := Observations(spec, SortedNames(t), spec.worlds[n]);
      Scanned(spec, t, if key in buckets then buckets else buckets[key := n], n + 1)
  {
    NoClashYet(spec, t, buckets, n);
    FilledNext(spec, SortedNames(t), buckets, n);
  }

  lemma NoClashYet<W, V>(spec: Catalog<W, V>, t: set<string>, buckets: map<seq<(string, V)>, nat>, n: nat)
    requires n < |spec.worlds| && Filled(spec, SortedNames(t), buckets, n)
    requires !Conflicts(spec, buckets, Observations(spec, SortedNames(t), spec.worlds[n]), n)
    ensures !ClashAt(spec, t, n)
  {
    forall i: nat ensures !Clashes(spec, t, i, n) {
      if i < n {
        ObservationsDecide(spec, t, spec.worlds[i], spec.worlds[n]);
        assert InBucket(spec, SortedNames(t), buckets, i);
      }
    }
  }

  lemma FilledNext<W, V>(spec: Catalog<W, V>, names: seq<string>, buckets: map<seq<(string, V)>, nat>, n: nat)
    requires n < |spec.worlds| && Filled(spec, names, buckets, n)
    requires var key := Observations(spec, names, spec.worlds[n]);
      key in buckets ==> spec.answer(spec.worlds[buckets[key]]) == spec.answer(spec.worlds[n])
    ensures var key := Observations(spec, names, spec.worlds[n]);
      Filled(spec, names, if key in buckets then buckets else buckets[key := n], n + 1)
  {
    var key := Observations(spec, names, spec.worlds[n]);
    var buckets' := if key in buckets then buckets else buckets[key := n];
    forall i | 0 <= i < n + 1 ensures InBucket(spec, names, buckets', i) {
      if i < n { assert InBucket(spec, names, buckets, i); }
    }
  }

  // ----- candidates -----

  function Needs<W, V>(spec: Catalog<W, V>): map<string, seq<string>> {
    map m | m in spec.mechanisms :: spec.mechanisms[m].required
  }

  function Prices<W, V>(spec: Catalog<W, V>, weights: CostVector): map<string, real> {
    map m | m in spec.mechanisms :: Weighted(spec.mechanisms[m].cost, weights)
  }

  /** `contract_is_dependency_closed` */
  predicate ContractClosed<W, V>(spec: Catalog<W, V>, contract: seq<string>) {
    forall x, d :: x in Elements(contract) && d in Requires(Needs(spec), x) ==> d in Elements(contract)
  }

  function Sum(a: CostVector, b: CostVector): CostVector {
    CostVector(a.bytes + b.bytes, a.privacy + b.privacy, a.latencyMs + b.latencyMs, a.fragility + b.fragility)
  }

  function Declared<W, V>(spec: Catalog<W, V>, m: string): CostVector {
    if m in spec.mechanisms then spec.mechanisms[m].cost else CostVector(0.0, 0.0, 0.0, 0.0)
  }

  /** The cost vector accumulated over the contract. */
  function Total<W, V>(spec: Catalog<W, V>, contract: seq<string>): CostVector {
    if contract == [] then CostVector(0.0, 0.0, 0.0, 0.0)
    else Sum(Total(spec, contract[..|contract| - 1]), Declared(spec, contract[|contract| - 1]))
  }

  lemma ScalarAdds(a: CostVector, b: CostVector, w: CostVector)
    ensures Weighted(Sum(a, b), w) == Weighted(a, w) + Weighted(b, w)
  {
    assert w.bytes * (a.bytes + b.bytes) == w.bytes * a.bytes + w.bytes * b.bytes;
    assert w.privacy * (a.privacy + b.privacy) == w.privacy * a.privacy + w.privacy * b.privacy;
    assert w.latencyMs * (a.latencyMs + b.latencyMs) == w.latencyMs * a.latencyMs + w.latencyMs * b.latencyMs;
    assert w.fragility * (a.fragility + b.fragility) == w.fragility * a.fragility + w.fragility * b.fragility;
  }

  /** Weighing the total is totalling the weights. */
  lemma {:induction false} TotalIsCost<W, V>(spec: Catalog<W, V>, contract: seq<string>, weights: CostVector)
    requires forall i, j :: 0 <= i < j < |contract| ==> contract[i] != contract[j]
    ensures Weighted(Total(spec, contract), weights) == Cost(Prices(spec, weights), Elements(contract))
  {
    if contract != [] {
      var init, last := contract[..|contract| - 1], contract[|contract| - 1];
      TotalIsCost(spec, init, weights);
      ScalarAdds(Total(spec, init), Declared(spec, last), weights);
      assert Elements(contract) - {last} == Elements(init);
      CostRemove(Prices(spec, weights), Elements(contract), last);
      assert Weighted(Declared(spec, last), weights) == Weight(Prices(spec, weights), last);
    }
  }

  datatype Candidate = Candidate(contract: seq<string>, cost: CostVector, twin: Option<(nat, nat)>)

  ghost predicate IsCandidate<W, V>(spec: Catalog<W, V>, c: Candidate) {
    && ContractClosed(spec, c.contract) && c.cost == Total(spec, c.contract)
    && (c.twin.None? <==> Determinate(spec, Elements(c.contract)))
    && (c.twin.Some? ==> Clashes(spec, Elements(c.contract), c.twin.value.0, c.twin.value.1))
  }

  /** The worlds an uncapped run looks at, over all closed candidates. */
  ghost function Work<W, V>(spec: Catalog<W, V>, subsets: seq<seq<string>>): nat {
    if subsets == [] then 0
    else
      var init, last := subsets[..|subsets| - 1], subsets[|subsets| - 1];
      Work(spec, init) + if ContractClosed(spec, last) then Needed(spec, Elements(last)) else 0
  }

  lemma {:induction false} WorkGrows<W, V>(spec: Catalog<W, V>, a: seq<seq<string>>, b: seq<seq<string>>)
    ensures Work(spec, a) <= Work(spec, a + b)
  {
    if b != [] {
      var init := b[..|b| - 1];
      WorkGrows(spec, a, init);
      assert (a + b)[..|a + b| - 1] == a + init;
    } else {
      assert a + b == a;
    }
  }

  ghost predicate HasContract(candidates: seq<Candidate>, s: seq<string>) {
    exists k :: 0 <= k < |candidates| && candidates[k].contract == s
  }

  /** The closed candidates among the first `n` subsets have been checked. */
  ghost predicate Checked<W, V>(spec: Catalog<W, V>, subsets: seq<seq<string>>, n: nat, candidates: seq<Candidate>) {
    && n <= |subsets|
    && (forall k :: 0 <= k < |candidates| ==> IsCandidate(spec, candidates[k]) && candidates[k].contract in subsets)
    && (forall i :: 0 <= i < n && ContractClosed(spec, subsets[i]) ==> HasContract(candidates, subsets[i]))
  }

  lemma CheckedNext<W, V>(spec: Catalog<W, V>, subsets: seq<seq<string>>, n: nat, candidates: seq<Candidate>, c: Candidate)
    requires Checked(spec, subsets, n, candidates) && n < |subsets|
    requires IsCandidate(spec, c) && c.contract == subsets[n]
    ensures Checked(spec, subsets, n + 1, candidates + [c])
  {
    var longer := candidates + [c];
    forall i | 0 <= i < n + 1 && ContractClosed(spec, subsets[i]) ensures HasContract(longer, subsets[i]) {
      if i == n {
        assert longer[|candidates|].contract == subsets[n];
      } else {
        var k :| 0 <= k < |candidates| && candidates[k].contract == subsets[i];
        assert longer[k].contract == subsets[i];
      }
    }
  }

  lemma WorkNext<W, V>(spec: Catalog<W, V>, subsets: seq<seq<string>>, n: nat)
    requires n < |subsets|
    ensures Work(spec, subsets[..n + 1]) ==
              Work(spec, subsets[..n]) + if ContractClosed(spec, subsets[n]) then Needed(spec, Elements(subsets[n])) else 0
    ensures Work(spec, subsets[..n + 1]) <= Work(spec, subsets)
  {
    var upto := subsets[..n + 1];
    assert upto[..|upto| - 1] == subsets[..n];
    WorkGrows(spec, upto, subsets[n + 1..]);
    assert upto + subsets[n + 1..] == subsets;
  }

  /** Never looks at more than `cap` worlds, and is cut short exactly when the work exceeds the cap. */
  method Enumerate<W, V(==)>(spec: Catalog<W, V>, subsets: seq<seq<string>>, cap: nat)
    returns (candidates: seq<Candidate>, explored: nat, limited: bool)
    ensures limited <==> cap < Work(spec, subsets)
    ensures explored == if limited then cap else Work(spec, subsets)
    ensures !limited ==> Checked(spec, subsets, |subsets|, candidates)
  {
    candidates, explored := [], 0;
    ghost var work := 0;
    for n := 0 to |subsets|
      invariant work == Work(spec, subsets[..n]) && explored == work <= cap
      invariant Checked(spec, subsets, n, candidates)
    {
      WorkNext(spec, subsets, n);
      work := Work(spec, subsets[..n + 1]);
      if ContractClosed(spec, subsets[n]) {
        var candidate, used := Check(spec, subsets[n], cap - explored);
        explored := explored + used;
        if candidate.None? {
          limited := true;
          return;
        }
        CheckedNext(spec, subsets, n, candidates, candidate.value);
        candidates := candidates + [candidate.value];
      }
    }
    assert subsets[..|subsets|] == subsets;
    limited := false;
  }

  method Check<W, V(==)>(spec: Catalog<W, V>, subset: seq<string>, remaining: nat) returns (c: Option<Candidate>, used: nat)
    requires ContractClosed(spec, subset)
    ensures c.None? <==> remaining < Needed(spec, Elements(subset))
    ensures used == if c.None? then remaining else Needed(spec, Elements(subset))
    ensures c.Some? ==> c.value.contract == subset && IsCandidate(spec, c.value)
  {
    var pass := CheckDeterminacy(spec, Elements(subset), remaining);
    c, used := if pass.limited then None else Some(Candidate(subset, Total(spec, subset), pass.twin)), pass.used;
  }

  // ----- synthesis -----

  /** A closed determinate contract from the catalog. */
  ghost predicate Works<W, V>(spec: Catalog<W, V>, t: set<string>) {
    t <= spec.mechanisms.Keys && Closed(Needs(spec), t) && Determinate(spec, t)
  }

  ghost predicate IsSelected<W, V>(spec: Catalog<W, V>, weights: CostVector, selected: seq<string>) {
    && selected == SortedNames(Elements(selected)) && Works(spec, Elements(selected))
    && forall t :: Works(spec, t) && t != Elements(selected) ==> Preferred(Prices(spec, weights), selected, SortedNames(t))
  }

  /** Why a selected mechanism cannot be dropped. */
  datatype Reason = StillRequired(dependents: seq<string>) | Reopens(twin: (nat, nat)) | CostOnly

  ghost predicate IsReason<W, V>(spec: Catalog<W, V>, selected: seq<string>, m: string, reason: Reason) {
    var reduced := Elements(selected) - {m};
    match reason
    case StillRequired(dependents) => dependents != [] && forall x :: x in dependents <==> x in selected && m in Requires(Needs(spec), x)
    case Reopens(twin) => Clashes(spec, reduced, twin.0, twin.1)
    case CostOnly => Works(spec, reduced)
  }

  datatype Outcome =
    | Incomplete(explored: nat)
    | Gap(contract: seq<string>, twin: (nat, nat), explored: nat)
    | Selected(contract: seq<string>, cost: real, reasons: map<string, Reason>, explored: nat)

  /** What a completed run reports. It does not mention the cap. */
  ghost predicate Verdict<W, V>(spec: Catalog<W, V>, weights: CostVector, r: Outcome) {
    match r
    case Incomplete(_) => false
    case Gap(contract, twin, _) =>
      && (forall t :: !Works(spec, t)) && ContractClosed(spec, contract)
      && Clashes(spec, Elements(contract), twin.0, twin.1)
    case Selected(contract, cost, reasons, _) =>
      && IsSelected(spec, weights, contract) && cost == Cost(Prices(spec, weights), Elements(contract))
      && reasons.Keys == Elements(contract) && Justified(spec, contract, reasons)
  }

  ghost predicate ValidCosts<W, V>(spec: Catalog<W, V>, weights: CostVector) {
    ValidCost(weights) && forall m :: m in spec.mechanisms ==> ValidCost(spec.mechanisms[m].cost)
  }

  lemma PricesNonNegative<W, V>(spec: Catalog<W, V>, weights: CostVector)
    requires ValidCosts(spec, weights)
    ensures NonNegative(Prices(spec, weights))
  {
    forall m | m in Prices(spec, weights) ensures Prices(spec, weights)[m] >= 0.0 {
      var c := spec.mechanisms[m].cost;
      assert weights.bytes * c.bytes >= 0.0 && weights.privacy * c.privacy >= 0.0;
      assert weights.latencyMs * c.latencyMs >= 0.0 && weights.fragility * c.fragility >= 0.0;
    }
  }

  /** Even where costs are zero, fewer mechanisms are preferred, so nothing selected can be spared. */
  lemma SelectedIsIrredundant<W, V>(spec: Catalog<W, V>, weights: CostVector, selected: seq<string>, m: string)
    requires ValidCosts(spec, weights) && IsSelected(spec, weights, selected) && m in selected
    ensures !Works(spec, Elements(selected) - {m})
  {
    var s := Elements(selected);
    var reduced := SortedNames(s - {m});
    assert Elements(reduced) == s - {m} && |reduced| < |SortedNames(s)|;
    PricesNonNegative(spec, weights);
    CostMonotone(Prices(spec, weights), s - {m}, s);
    PreferredAsymmetric(Prices(spec, weights), reduced, selected);
  }

  method RequiredBy<W, V>(spec: Catalog<W, V>, selected: seq<string>, m: string) returns (dependents: seq<string>)
    ensures forall x :: x in dependents <==> x in selected && m in Requires(Needs(spec), x)
  {
    dependents := [];
    for k := 0 to |selected|
      invariant forall x :: x in dependents <==> x in selected[..k] && m in Requires(Needs(spec), x)
    {
      if m in Requires(Needs(spec), selected[k]) {
        dependents := dependents + [selected[k]];
      }
    }
  }

  lemma DependentExists<W, V>(spec: Catalog<W, V>, selected: seq<string>, m: string)
    requires Closed(Needs(spec), Elements(selected)) && !Closed(Needs(spec), Elements(selected) - {m})
    ensures exists x :: x in selected && m in Requires(Needs(spec), x)
  {
    var x, d :| x in Elements(selected) - {m} && d in Requires(Needs(spec), x) && d !in Elements(selected) - {m};
    assert d in Elements(selected);
  }

  method ReasonFor<W, V(==)>(spec: Catalog<W, V>, ghost weights: CostVector, selected: seq<string>, m: string) returns (reason: Reason)
    requires ValidCosts(spec, weights) && IsSelected(spec, weights, selected) && m in selected
    ensures IsReason(spec, selected, m, reason) && !reason.CostOnly?
  {
    SelectedIsIrredundant(spec, weights, selected, m);
    var reduced := SortedNames(Elements(selected) - {m});
    assert Elements(reduced) == Elements(selected) - {m};
    if !ContractClosed(spec, reduced) {
      var dependents := RequiredBy(spec, selected, m);
      DependentExists(spec, selected, m);
      return StillRequired(dependents);
    }
    var pass := CheckDeterminacy(spec, Elements(selected) - {m}, |spec.worlds| + 1);
    reason := if pass.twin.Some? then Reopens(pass.twin.value) else CostOnly;
  }

  ghost predicate Justified<W, V>(spec: Catalog<W, V>, selected: seq<string>, reasons: map<string, Reason>) {
    forall m :: m in reasons ==> IsReason(spec, selected, m, reasons[m]) && !reasons[m].CostOnly?
  }

  lemma JustifiedNext<W, V>(spec: Catalog<W, V>, selected: seq<string>, reasons: map<string, Reason>, m: string, r: Reason)
    requires Justified(spec, selected, reasons) && IsReason(spec, selected, m, r) && !r.CostOnly?
    ensures Justified(spec, selected, reasons[m := r])
  {
  }

  method Reasons<W, V(==)>(spec: Catalog<W, V>, ghost weights: CostVector, selected: seq<string>) returns (reasons: map<string, Reason>)
    requires ValidCosts(spec, weights) && IsSelected(spec, weights, selected)
    ensures reasons.Keys == Elements(selected) && Justified(spec, selected, reasons)
  {
    reasons := map[];
    for k := 0 to |selected|
      invariant reasons.Keys == Elements(selected[..k])
      invariant Justified(spec, selected, reasons)
    {
      ElementsNext(selected, k);
      var reason := ReasonFor(spec, weights, selected, selected[k]);
      JustifiedNext(spec, selected, reasons, selected[k], reason);
      reasons := reasons[selected[k] := reason];
    }
    assert selected[..|selected|] == selected;
  }

  /** The contracts that work, as sorted tuples. */
  ghost predicate AreWorking<W, V>(spec: Catalog<W, V>, feasible: seq<seq<string>>) {
    && (forall s :: s in feasible ==> s == SortedNames(Elements(s)) && Works(spec, Elements(s)))
    && (forall t :: Works(spec, t) ==> SortedNames(t) in feasible)
  }

  /** The determinate candidates, and the last pair that refuted one. */
  method Split(candidates: seq<Candidate>) returns (feasible: seq<seq<string>>, last: Option<Candidate>)
    ensures forall s :: s in feasible <==> exists k :: 0 <= k < |candidates| && candidates[k].twin.None? && candidates[k].contract == s
    ensures last.Some? ==> last.value in candidates && last.value.twin.Some?
    ensures last.None? ==> forall k :: 0 <= k < |candidates| ==> candidates[k].twin.None?
  {
    feasible, last := [], None;
    for n := 0 to |candidates|
      invariant forall s :: s in feasible <==> exists k :: 0 <= k < n && candidates[k].twin.None? && candidates[k].contract == s
      invariant last.Some? ==> last.value in candidates && last.value.twin.Some?
      invariant last.None? ==> forall k :: 0 <= k < n ==> candidates[k].twin.None?
    {
      if candidates[n].twin.None? {
        feasible := feasible + [candidates[n].contract];
      } else {
        last := Some(candidates[n]);
      }
    }
  }

  lemma FeasibleAreWorking<W, V>(spec: Catalog<W, V>, names: seq<string>, candidates: seq<Candidate>, feasible: seq<seq<string>>)
    requires names == SortedNames(spec.mechanisms.Keys)
    requires Checked(spec, AllSubsets(names), |AllSubsets(names)|, candidates)
    requires forall s :: s in feasible <==> exists k :: 0 <= k < |candidates| && candidates[k].twin.None? && candidates[k].contract == s
    ensures AreWorking(spec, feasible)
  {
    forall s | s in feasible ensures s == SortedNames(Elements(s)) && Works(spec, Elements(s)) {
      var k :| 0 <= k < |candidates| && candidates[k].twin.None? && candidates[k].contract == s;
      CandidateWorks(spec, names, candidates, k);
    }
    forall t | Works(spec, t) ensures SortedNames(t) in feasible {
      WorkingIsFeasible(spec, names, candidates, t);
    }
  }

  lemma CheckedAt<W, V>(spec: Catalog<W, V>, subsets: seq<seq<string>>, candidates: seq<Candidate>, k: nat)
    requires Checked(spec, subsets, |subsets|, candidates) && k < |candidates|
    ensures IsCandidate(spec, candidates[k]) && candidates[k].contract in subsets
  {
  }

  lemma CandidateWorks<W, V>(spec: Catalog<W, V>, names: seq<string>, candidates: seq<Candidate>, k: nat)
    requires names == SortedNames(spec.mechanisms.Keys) && k < |candidates| && candidates[k].twin.None?
    requires Checked(spec, AllSubsets(names), |AllSubsets(names)|, candidates)
    ensures candidates[k].contract == SortedNames(Elements(candidates[k].contract)) && Works(spec, Elements(candidates[k].contract))
  {
    var s := candidates[k].contract;
    assert Elements(names) == spec.mechanisms.Keys;
    CheckedAt(spec, AllSubsets(names), candidates, k);
    CandidateIsSorted(names, s);
  }

  lemma WorkingIsFeasible<W, V>(spec: Catalog<W, V>, names: seq<string>, candidates: seq<Candidate>, t: set<string>)
    requires names == SortedNames(spec.mechanisms.Keys) && Works(spec, t)
    requires Checked(spec, AllSubsets(names), |AllSubsets(names)|, candidates)
    ensures exists k :: 0 <= k < |candidates| && candidates[k].twin.None? && candidates[k].contract == SortedNames(t)
  {
    assert Elements(names) == spec.mechanisms.Keys && Elements(SortedNames(t)) == t;
    AllSubsetsExactly(names, SortedNames(t));
    var i :| 0 <= i < |AllSubsets(names)| && AllSubsets(names)[i] == SortedNames(t);
    assert ContractClosed(spec, AllSubsets(names)[i]);
    var k :| 0 <= k < |candidates| && candidates[k].contract == SortedNames(t);
    assert IsCandidate(spec, candidates[k]);
  }

  method Pick<W, V>(spec: Catalog<W, V>, weights: CostVector, feasible: seq<seq<string>>) returns (selected: seq<string>)
    requires feasible != [] && AreWorking(spec, feasible)
    ensures IsSelected(spec, weights, selected)
  {
    var costs := Prices(spec, weights);
    var less := (s, t) => Preferred(costs, s, t);
    PreferredOrder(costs, less);
    selected := MinBy(feasible, less);
    forall t | Works(spec, t) && t != Elements(selected) ensures Preferred(costs, selected, SortedNames(t)) {
      assert SortedNames(t) in feasible;
      assert less(selected, SortedNames(t));
    }
  }

  ghost function TotalWork<W, V>(spec: Catalog<W, V>): nat {
    Work(spec, AllSubsets(SortedNames(spec.mechanisms.Keys)))
  }

  /** The empty contract is always a candidate, so a failed search always has a last pair to report. */
  lemma EmptyIsCandidate<W, V>(spec: Catalog<W, V>, names: seq<string>, candidates: seq<Candidate>)
    requires Checked(spec, AllSubsets(names), |AllSubsets(names)|, candidates) && Sorted(NameLess, names)
    ensures candidates != []
  {
    AllSubsetsExactly(names, SortedNames({}));
    assert {} <= Elements(names) && SortedNames({}) in AllSubsets(names);
    var i :| 0 <= i < |AllSubsets(names)| && AllSubsets(names)[i] == SortedNames({});
    assert ContractClosed(spec, AllSubsets(names)[i]);
  }

  /** `synthesize`. Both the verdict and when it is reached are exact: the cap decides only whether the
      run completes. */
  method SynthesizeFinite<W, V(==)>(spec: Catalog<W, V>, weights: CostVector, stateCap: int) returns (r: Option<Outcome>)
    requires ValidCosts(spec, weights)
    ensures r.None? <==> stateCap < 0
    ensures r.Some? ==> (r.value.Incomplete? <==> stateCap < TotalWork(spec))
    ensures r.Some? ==> r.value.explored == if stateCap < TotalWork(spec) then stateCap else TotalWork(spec)
    ensures r.Some? && !r.value.Incomplete? ==> Verdict(spec, weights, r.value)
  {
    if stateCap < 0 {
      return None;
    }
    var names := SortedNames(spec.mechanisms.Keys);
    var candidates, explored, limited := Enumerate(spec, AllSubsets(names), stateCap);
    if limited {
      return Some(Incomplete(explored));
    }
    var outcome := Conclude(spec, weights, names, candidates, explored);
    r := Some(outcome);
  }

  method Conclude<W, V(==)>(spec: Catalog<W, V>, weights: CostVector, ghost names: seq<string>, candidates: seq<Candidate>, explored: nat)
    returns (r: Outcome)
    requires ValidCosts(spec, weights) && names == SortedNames(spec.mechanisms.Keys)
    requires Checked(spec, AllSubsets(names), |AllSubsets(names)|, candidates)
    ensures !r.Incomplete? && r.explored == explored && Verdict(spec, weights, r)
  {
    var feasible, last := Split(candidates);
    FeasibleAreWorking(spec, names, candidates, feasible);
    if feasible == [] {
      NothingWorks(spec, names, candidates, feasible, last);
      return Gap(last.value.contract, last.value.twin.value, explored);
    }
    r := Report(spec, weights, feasible, explored);
  }

  method Report<W, V(==)>(spec: Catalog<W, V>, weights: CostVector, feasible: seq<seq<string>>, explored: nat) returns (r: Outcome)
    requires ValidCosts(spec, weights) && feasible != [] && AreWorking(spec, feasible)
    ensures r.Selected? && r.explored == explored && Verdict(spec, weights, r)
  {
    var selected := Pick(spec, weights, feasible);
    var reasons := Reasons(spec, weights, selected);
    SortedNamesDistinct(selected);
    TotalIsCost(spec, selected, weights);
    r := Selected(selected, Weighted(Total(spec, selected), weights), reasons, explored);
  }

  lemma SortedNamesDistinct(s: seq<string>)
    requires s == SortedNames(Elements(s))
    ensures forall i, j :: 0 <= i < j < |s| ==> s[i] != s[j]
  {
    NameOrder();
  }

  lemma NothingWorks<W, V>(spec: Catalog<W, V>, names: seq<string>, candidates: seq<Candidate>, feasible: seq<seq<string>>, last: Option<Candidate>)
    requires Checked(spec, AllSubsets(names), |AllSubsets(names)|, candidates) && Sorted(NameLess, names)
    requires feasible == [] && AreWorking(spec, feasible)
    requires forall s :: s in feasible <==> exists k :: 0 <= k < |candidates| && candidates[k].twin.None? && candidates[k].contract == s
    requires last.Some? ==> last.value in candidates && last.value.twin.Some?
    requires last.None? ==> forall k :: 0 <= k < |candidates| ==> candidates[k].twin.None?
    ensures last.Some? && IsCandidate(spec, last.value) && last.value.twin.Some?
    ensures forall t :: !Works(spec, t)
  {
    EmptyIsCandidate(spec, names, candidates);
    assert candidates[0].contract !in feasible;
    var k :| 0 <= k < |candidates| && candidates[k] == last.value;
    CheckedAt(spec, AllSubsets(names), candidates, k);
    forall t ensures !Works(spec, t) {
      assert SortedNames(t) !in feasible;
    }
  }

  /** A completed verdict is unchanged under any other cap that also lets the run complete. */
  lemma CapIrrelevant<W, V>(spec: Catalog<W, V>, weights: CostVector, r: Outcome, r': Outcome)
    requires Verdict(spec, weights, r) && Verdict(spec, weights, r')
    ensures r.Gap? <==> r'.Gap?
    ensures r.Selected? ==> r.contract == r'.contract && r.cost == r'.cost
  {
    forall o | o == r || o == r' ensures o.Selected? <==> exists t :: Works(spec, t) {
      if o.Selected? { assert Works(spec, Elements(o.contract)); }
    }
    if r.Selected? && Elements(r.contract) != Elements(r'.contract) {
      assert Preferred(Prices(spec, weights), r.contract, r'.contract);
      PreferredAsymmetric(Prices(spec, weights), r.contract, r'.contract);
    }
  }
}
