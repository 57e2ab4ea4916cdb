/** Sufficient contracts and factorization: what the compiler's critical pairs have to do with the twins
    the auditability analysis looks for. */
module ContractDuality {
  import opened Order
  import opened Wrappers
  import opened Canonical
  import opened Reader
  import opened FiniteTables
  import opened InformationOrder
  import opened JsonEquality
  import opened ContractSearch
  import opened ContractCompiler

  // ----- joint observations -----

  function NameText(s: string): (t: Text)
    ensures |t| == |s|
  {
    seq(|s|, i requires 0 <= i < |s| => s[i] as int)
  }

  lemma NameTextInjective(a: string, b: string)
    requires NameText(a) == NameText(b)
    ensures a == b
  {
    assert |a| == |b|;
    forall i | 0 <= i < |a| ensures a[i] == b[i] {
      assert NameText(a)[i] == NameText(b)[i];
    }
  }

  function JointFields(names: seq<string>, observations: map<string, Value>): (r: seq<(Text, Json)>)
    requires forall m :: m in names ==> m in observations
    ensures |r| == |names|
    ensures forall k :: 0 <= k < |r| ==> r[k].0 == NameText(names[k]) && r[k].1 == observations[names[k]]
  {
    seq(|names|, k requires 0 <= k < |names| => (NameText(names[k]), observations[names[k]]))
  }

  /** Everything the contract shows of one world, as one JSON object. */
  function Joint(t: set<string>, observations: map<string, Value>): (v: Value)
    requires t <= observations.Keys
  {
    var fields := JointFields(SortedNames(t), observations);
    JointWellFormed(t, observations);
    Obj(fields)
  }

  lemma JointWellFormed(t: set<string>, observations: map<string, Value>)
    requires t <= observations.Keys
    ensures WellFormed(Obj(JointFields(SortedNames(t), observations)))
  {
    var names := SortedNames(t);
    var fields := JointFields(names, observations);
    NameOrder();
    forall i, j | 0 <= i < j < |fields| ensures fields[i].0 != fields[j].0 {
      if fields[i].0 == fields[j].0 { NameTextInjective(names[i], names[j]); }
    }
    forall f | f in fields ensures WellFormed(f.1) {
      var k :| 0 <= k < |fields| && fields[k] == f;
      var v: Value := observations[names[k]];
    }
  }

  /** The fields of the normalized joint observation, before they are sorted. */
  function JointNormals(names: seq<string>, observations: map<string, Value>): (r: seq<(Text, Json)>)
    requires forall m :: m in names ==> m in observations
    ensures |r| == |names|
    ensures forall k :: 0 <= k < |r| ==> r[k].0 == NameText(names[k]) && r[k].1 == Normal(observations[names[k]])
  {
    NormalKeys(JointFields(names, observations));
    NormalFields(JointFields(names, observations))
  }

  lemma JointNormal(t: set<string>, observations: map<string, Value>)
    requires t <= observations.Keys
    ensures Normal(Joint(t, observations)) == Obj(SortByKey(JointNormals(SortedNames(t), observations)))
  {
  }

  lemma SortedNamesDistinct(t: set<string>)
    ensures forall i, j :: 0 <= i < j < |SortedNames(t)| ==> SortedNames(t)[i] != SortedNames(t)[j]
  {
    NameOrder();
  }

  /** Joint observations are equal exactly when every mechanism's observations are. */
  lemma JointSame(t: set<string>, a: map<string, Value>, b: map<string, Value>)
    requires t <= a.Keys && t <= b.Keys
    ensures Same(Joint(t, a), Joint(t, b)) <==> forall m :: m in t ==> Same(a[m], b[m])
  {
    JointNormal(t, a);
    JointNormal(t, b);
    SortedNamesDistinct(t);
    SameNormals(SortedNames(t), a, b);
  }

  lemma SameNormals(names: seq<string>, a: map<string, Value>, b: map<string, Value>)
    requires forall m :: m in names ==> m in a && m in b
    requires forall i, j :: 0 <= i < j < |names| ==> names[i] != names[j]
    ensures SortByKey(JointNormals(names, a)) == SortByKey(JointNormals(names, b)) <==> forall m :: m in names ==> Normal(a[m]) == Normal(b[m])
  {
    var na, nb := JointNormals(names, a), JointNormals(names, b);
    if SortByKey(na) == SortByKey(nb) {
      forall m | m in names ensures Normal(a[m]) == Normal(b[m]) {
        var k :| 0 <= k < |names| && names[k] == m;
        SameFieldAt(names, na, nb, k);
      }
    }
    if forall m :: m in names ==> Normal(a[m]) == Normal(b[m]) {
      forall k | 0 <= k < |names| ensures na[k] == nb[k] {
        assert names[k] in names;
      }
      assert na == nb;
    }
  }

  lemma SameFieldAt(names: seq<string>, a: seq<(Text, Json)>, b: seq<(Text, Json)>, k: nat)
    requires |a| == |b| == |names| && k < |names| && SortByKey(a) == SortByKey(b)
    requires forall i, j :: 0 <= i < j < |names| ==> names[i] != names[j]
    requires forall i :: 0 <= i < |names| ==> a[i].0 == NameText(names[i]) && b[i].0 == NameText(names[i])
    ensures a[k] == b[k]
  {
    var l := FieldAt(a, b, k);
    NameTextInjective(names[k], names[l]);
  }

  lemma FieldAt(a: seq<(Text, Json)>, b: seq<(Text, Json)>, k: nat) returns (l: nat)
    requires k < |a| && SortByKey(a) == SortByKey(b)
    ensures l < |b| && b[l] == a[k]
  {
    SortHas(a, a[k]);
    SortHas(b, a[k]);
    assert Has(a, a[k]);
    l :| 0 <= l < |b| && b[l] == a[k];
  }

  /** The channel an auditability analysis of the contract would look at. */
  function JointReadings(p: Problem, t: set<string>): (r: seq<Reading>)
    requires forall i :: 0 <= i < |p.rows| ==> t <= p.rows[i].data.observations.Keys
    ensures |r| == |p.rows|
  {
    seq(|p.rows|, i requires 0 <= i < |p.rows| => Reading(Joint(t, p.rows[i].data.observations), p.rows[i].data.claim))
  }

  // ----- duality -----

  ghost predicate Observed(p: Problem, t: set<string>) {
    forall i :: 0 <= i < |p.rows| ==> t <= p.rows[i].data.observations.Keys
  }

  /** The two rows are no twin for an analysis of the contract's joint observations. */
  ghost predicate PairFactors(p: Problem, t: set<string>, i: nat, j: nat)
    requires Observed(p, t) && i < |p.rows| && j < |p.rows|
  {
    Same(JointReadings(p, t)[i].value, JointReadings(p, t)[j].value) ==> Same(JointReadings(p, t)[i].claim, JointReadings(p, t)[j].claim)
  }

  /** Python equality blurs the pair: equal but different claims, or different claims with an equal but
      different observation. */
  predicate BlurredPair(p: Problem, i: nat, j: nat)
    requires i < |p.rows| && j < |p.rows|
  {
    var a, b := p.rows[i].data, p.rows[j].data;
    || Confused(a.claim, b.claim)
    || (!Equal(a.claim, b.claim) && exists m :: m in a.observations && m in b.observations && Confused(a.observations[m], b.observations[m]))
  }

  lemma PairDuality(p: Problem, t: set<string>, i: nat, j: nat)
    requires Observed(p, t) && i < j < |p.rows| && !BlurredPair(p, i, j)
    ensures Covers(p, t, i, j) <==> PairFactors(p, t, i, j)
  {
    var a, b := p.rows[i].data, p.rows[j].data;
    JointSame(t, a.observations, b.observations);
    if Same(a.claim, b.claim) { SameIsEqual(a.claim, b.claim); }
    if Critical(p, i, j) {
      if Separators(p, t, i, j) != {} {
        var m :| m in Separators(p, t, i, j);
        if Same(a.observations[m], b.observations[m]) { SameIsEqual(a.observations[m], b.observations[m]); }
      } else {
        forall m | m in t ensures Same(a.observations[m], b.observations[m]) {
          assert m !in Separators(p, t, i, j);
          assert !Separates(p, m, i, j);
        }
      }
    }
  }

  /** The exact condition, pair by pair: covering the pair means that it is no twin, whatever the contract,
      if and only if the pair is not blurred. */
  lemma DualityExactly(p: Problem, i: nat, j: nat)
    requires Shaped(p) && i < j < |p.rows|
    ensures !BlurredPair(p, i, j) <==>
              forall t :: t <= p.mechanisms.Keys ==> (Covers(p, t, i, j) <==> Observed(p, t) && PairFactors(p, t, i, j))
  {
    var a, b := p.rows[i].data, p.rows[j].data;
    forall t | t <= p.mechanisms.Keys ensures Observed(p, t) {
    }
    if !BlurredPair(p, i, j) {
      forall t | t <= p.mechanisms.Keys ensures Covers(p, t, i, j) <==> PairFactors(p, t, i, j) {
        PairDuality(p, t, i, j);
      }
    } else if Confused(a.claim, b.claim) {
      JointSame({}, a.observations, b.observations);
      assert Covers(p, {}, i, j) && !PairFactors(p, {}, i, j);
    } else {
      var m :| m in a.observations && m in b.observations && Confused(a.observations[m], b.observations[m]);
      JointSame({m}, a.observations, b.observations);
      assert Separators(p, {m}, i, j) == {};
      assert {m} <= p.mechanisms.Keys;
      assert !Covers(p, {m}, i, j) && PairFactors(p, {m}, i, j);
    }
  }

  /** Duality: over a table with no blurred pair, a contract is sufficient exactly when the claim factors
      through its joint observations. */
  lemma Duality(p: Problem, t: set<string>)
    requires Observed(p, t)
    requires forall i, j :: 0 <= i < j < |p.rows| ==> !BlurredPair(p, i, j)
    ensures Sufficient(p, t) <==> Factors(JointReadings(p, t))
  {
    var r := JointReadings(p, t);
    if Sufficient(p, t) {
      forall i, j | 0 <= i < |r| && 0 <= j < |r| && Same(r[i].value, r[j].value) ensures Same(r[i].claim, r[j].claim) {
        if i < j {
          PairDuality(p, t, i, j);
          assert Covers(p, t, i, j);
        } else if j < i {
          PairDuality(p, t, j, i);
          assert Covers(p, t, j, i);
        }
      }
    }
    if Factors(r) {
      forall i: nat, j: nat ensures Covers(p, t, i, j) {
        if Critical(p, i, j) {
          PairDuality(p, t, i, j);
        }
      }
    }
  }

  /** A catalog of one free-standing mechanism, and a table of two worlds. */
  const ONE_MECHANISM: map<string, MechanismRow> := map["m" := MechanismRow(1, [], true)]

  function TwoWorlds(a: World, b: World): seq<Row<World>> {
    [Row("a", a), Row("b", b)]
  }

  lemma TwoNames()
    ensures "a" != "b" && NameLess("a", "b") && IsName("a") && IsName("b") && MechanismsOk(ONE_MECHANISM)
  {
    assert "a"[0] != "b"[0] && CharLess("a"[0], "b"[0]);
    assert IsName("m") && "m" in ONE_MECHANISM;
  }

  lemma TwoRowsKept(rows: seq<Row<World>>, ok: World -> bool)
    requires |rows| == 2 && IsName(rows[0].id) && IsName(rows[1].id) && NameLess(rows[0].id, rows[1].id) && rows[0].id != rows[1].id
    requires ok(rows[0].data) && ok(rows[1].data)
    ensures Normalize(rows, ok) == Some(rows)
  {
    CollectDistinct(rows);
    NormalizedRows(rows, ok);
    AlreadySorted(rows, Normalize(rows, ok).value);
  }

  lemma AlreadySorted(rows: seq<Row<World>>, t: seq<Row<World>>)
    requires |rows| == 2 && SameRows(rows, t) && NameLess(rows[0].id, rows[1].id)
    requires forall i, j :: 0 <= i < j < |t| ==> NameLess(t[i].id, t[j].id)
    ensures t == rows
  {
    SortedRowsEqual(rows, t);
  }

  /** The compiler accepts such input as it stands. */
  lemma TwoWorldsAccepted(a: World, b: World)
    requires WorldOk(ONE_MECHANISM.Keys, a) && WorldOk(ONE_MECHANISM.Keys, b)
    ensures Normalized(TwoWorlds(a, b), ONE_MECHANISM) == Some(Problem(TwoWorlds(a, b), ONE_MECHANISM))
  {
    TwoNames();
    TwoRowsKept(TwoWorlds(a, b), (w: World) => WorldOk(ONE_MECHANISM.Keys, w));
  }

  /** Blurred claims: the empty contract is reported sufficient for `True` and `1`, although an analysis of
      the same table finds a twin. */
  lemma BlurredClaims(p: Problem)
    requires p == Problem(TwoWorlds(World(Bool(true), map["m" := Null]), World(Int(1), map["m" := Null])), ONE_MECHANISM)
    ensures Normalized(p.rows, p.mechanisms) == Some(p)
    ensures Sufficient(p, {}) && !Factors(JointReadings(p, {}))
  {
    TwoWorldsAccepted(p.rows[0].data, p.rows[1].data);
    JointSame({}, p.rows[0].data.observations, p.rows[1].data.observations);
    TwoRows(p, {});
    assert Confused(p.rows[0].data.claim, p.rows[1].data.claim);
  }

  lemma TwoRows(p: Problem, t: set<string>)
    requires |p.rows| == 2 && Observed(p, t)
    ensures Sufficient(p, t) <==> Covers(p, t, 0, 1)
    ensures Factors(JointReadings(p, t)) <==> PairFactors(p, t, 0, 1)
  {
    if Covers(p, t, 0, 1) {
      forall i: nat, j: nat ensures Covers(p, t, i, j) {
        if Critical(p, i, j) { assert i == 0 && j == 1; }
      }
    }
    var r := JointReadings(p, t);
    if Factors(r) {
      assert Same(r[0].value, r[1].value) ==> Same(r[0].claim, r[1].claim);
    }
    if PairFactors(p, t, 0, 1) {
      forall i, j | 0 <= i < |r| && 0 <= j < |r| && Same(r[i].value, r[j].value) ensures Same(r[i].claim, r[j].claim) {
        assert i == j || (i == 0 && j == 1) || (i == 1 && j == 0);
      }
    }
  }

  lemma ConfusedNeverSeparates(p: Problem, m: string)
    requires |p.rows| == 2 && Observed(p, {m}) && !Equal(p.rows[0].data.claim, p.rows[1].data.claim)
    requires Confused(p.rows[0].data.observations[m], p.rows[1].data.observations[m])
    ensures !Sufficient(p, {m}) && Factors(JointReadings(p, {m}))
  {
    JointSame({m}, p.rows[0].data.observations, p.rows[1].data.observations);
    TwoRows(p, {m});
    assert Separators(p, {m}, 0, 1) == {};
  }

  lemma TrueIsOne()
    ensures Confused(Bool(true), Int(1)) && !Equal(Int(0), Int(2))
  {
  }

  /** Blurred observations: `True` against `1` is reported not to separate, although the claim factors. */
  lemma BlurredObservations(p: Problem)
    requires p == Problem(TwoWorlds(World(Int(0), map["m" := Bool(true)]), World(Int(2), map["m" := Int(1)])), ONE_MECHANISM)
    ensures Normalized(p.rows, p.mechanisms) == Some(p)
    ensures Observed(p, {"m"}) && !Sufficient(p, {"m"}) && Factors(JointReadings(p, {"m"}))
  {
    TwoWorldsAccepted(p.rows[0].data, p.rows[1].data);
    TrueIsOne();
    assert p.rows[0].data.observations.Keys == {"m"} && p.rows[1].data.observations.Keys == {"m"};
    assert p.rows[0].data.claim == Int(0) && p.rows[1].data.claim == Int(2);
    ConfusedNeverSeparates(p, "m");
  }
}
