/** The exhaustive contract compiler: critical pairs of a finite table, and the cheapest dependency-closed
    set of admissible mechanisms that separates all of them. */
module ContractSearch {
  import opened Order
  import opened Contracts
  import opened FiniteTables
  import opened JsonEquality
  import opened Subsets

  // ----- the problem -----

  datatype World = World(claim: Value, observations: map<string, Value>)

  datatype MechanismRow = MechanismRow(cost: int, required: seq<string>, admissible: bool)

  datatype Problem = Problem(rows: seq<Row<World>>, mechanisms: map<string, MechanismRow>)

  predicate WorldOk(names: set<string>, w: World) {
    Printable(w.claim) && w.observations.Keys == names && forall m :: m in w.observations ==> Printable(w.observations[m])
  }

  predicate MechanismsOk(mechanisms: map<string, MechanismRow>) {
    && mechanisms != map[]
    && forall m :: m in mechanisms ==>
         IsName(m) && mechanisms[m].cost > 0 && forall d :: d in mechanisms[m].required ==> IsName(d)
  }

  /** What normalization of rows and mechanisms leaves. */
  ghost predicate Shaped(p: Problem) {
    && (forall i :: 0 <= i < |p.rows| ==> p.rows[i].data.observations.Keys == p.mechanisms.Keys)
    && (forall m :: m in p.mechanisms ==> p.mechanisms[m].cost > 0)
  }

  function Admissible(p: Problem): set<string> {
    set m | m in p.mechanisms && p.mechanisms[m].admissible
  }

  function Required(p: Problem): map<string, seq<string>> {
    map m | m in p.mechanisms :: p.mechanisms[m].required
  }

  function Prices(p: Problem): map<string, real> {
    map m | m in p.mechanisms :: p.mechanisms[m].cost as real
  }

  /** Some closed admissible contract contains `m`. */
  ghost predicate Realizable(p: Problem, m: string) {
    exists t :: m in t && t <= Admissible(p) && Closed(Required(p), t)
  }

  ghost function Feasible(p: Problem): set<string> {
    set m | m in Admissible(p) && Realizable(p, m)
  }

  predicate Critical(p: Problem, i: nat, j: nat) {
    i < j < |p.rows| && !Equal(p.rows[i].data.claim, p.rows[j].data.claim)
  }

  predicate Separates(p: Problem, m: string, i: nat, j: nat)
    requires i < |p.rows| && j < |p.rows|
  {
    && m in p.rows[i].data.observations && m in p.rows[j].data.observations
    && !Equal(p.rows[i].data.observations[m], p.rows[j].data.observations[m])
  }

  function Separators(p: Problem, names: set<string>, i: nat, j: nat): set<string>
    requires i < |p.rows| && j < |p.rows|
  {
    set m | m in names && Separates(p, m, i, j)
  }

  ghost predicate Covers(p: Problem, t: set<string>, i: nat, j: nat) {
    Critical(p, i, j) ==> Separators(p, t, i, j) != {}
  }

  ghost predicate Sufficient(p: Problem, t: set<string>) {
    forall i, j :: Covers(p, t, i, j)
  }

  /** What the compiler looks for. */
  ghost predicate Adequate(p: Problem, t: set<string>) {
    t <= Admissible(p) && Closed(Required(p), t) && Sufficient(p, t)
  }

  ghost predicate IsBest(p: Problem, selected: seq<string>) {
    && selected == SortedNames(Elements(selected)) && Adequate(p, Elements(selected))
    && forall t :: Adequate(p, t) && t != Elements(selected) ==> Preferred(Prices(p), selected, SortedNames(t))
  }

  // ----- feasibility -----

  /** The feasible mechanisms form the largest closed admissible contract. */
  lemma FeasibleIsLargest(p: Problem)
    ensures Feasible(p) <= Admissible(p) && Closed(Required(p), Feasible(p))
    ensures forall t :: t <= Admissible(p) && Closed(Required(p), t) ==> t <= Feasible(p)
  {
    var deps := Required(p);
    forall x, y | x in Feasible(p) && y in Requires(deps, x) ensures y in Feasible(p) {
      var t :| x in t && t <= Admissible(p) && Closed(deps, t);
      assert y in t;
    }
    forall t | t <= Admissible(p) && Closed(deps, t) ensures t <= Feasible(p) {
      forall m | m in t ensures m in Feasible(p) {
      }
    }
  }

  lemma SeparatorsMonotone(p: Problem, s: set<string>, t: set<string>, i: nat, j: nat)
    requires s <= t && i < |p.rows| && j < |p.rows| && Separators(p, s, i, j) != {}
    ensures Separators(p, t, i, j) != {}
  {
    var m :| m in Separators(p, s, i, j);
    assert m in Separators(p, t, i, j);
  }

  /** A gap is always an unseparable pair: some contract is adequate exactly when every critical pair
      has a feasible separator. */
  lemma GapIsAPair(p: Problem)
    ensures (exists t :: Adequate(p, t)) <==> Sufficient(p, Feasible(p))
  {
    FeasibleIsLargest(p);
    forall t | Adequate(p, t) ensures Sufficient(p, Feasible(p)) {
      forall i, j ensures Covers(p, Feasible(p), i, j) {
        assert Covers(p, t, i, j);
        if Critical(p, i, j) { SeparatorsMonotone(p, t, Feasible(p), i, j); }
      }
    }
    if Sufficient(p, Feasible(p)) { assert Adequate(p, Feasible(p)); }
  }

  method FeasibleMechanisms(p: Problem) returns (feasible: set<string>)
    ensures feasible == Feasible(p)
  {
    feasible := {};
    var admissible := SortedNames(Admissible(p));
    for n := 0 to |admissible|
      invariant forall m :: m in feasible <==> m in admissible[..n] && Realizable(p, m)
    {
      var closure := DependencyClosure({admissible[n]}, Required(p), Admissible(p));
      assert closure.Some? <==> Realizable(p, admissible[n]);
      if closure.Some? {
        feasible := feasible + {admissible[n]};
      }
    }
  }

  // ----- critical pairs -----

  predicate Earlier(a: (nat, nat), b: (nat, nat)) {
    a.0 < b.0 || (a.0 == b.0 && a.1 < b.1)
  }

  /** The critical pairs before `(i, j)`, in order. */
  ghost predicate PairsBefore(p: Problem, pairs: seq<(nat, nat)>, i: nat, j: nat) {
    InOrder(pairs, i, j) && AreCritical(p, pairs) && AllListed(p, pairs, i, j)
  }

  ghost predicate InOrder(pairs: seq<(nat, nat)>, i: nat, j: nat) {
    && (forall k :: 0 <= k < |pairs| ==> Earlier(pairs[k], (i, j)))
    && (forall k, l :: 0 <= k < l < |pairs| ==> Earlier(pairs[k], pairs[l]))
  }

  ghost predicate AreCritical(p: Problem, pairs: seq<(nat, nat)>) {
    forall k :: 0 <= k < |pairs| ==> Critical(p, pairs[k].0, pairs[k].1)
  }

  ghost predicate AllListed(p: Problem, pairs: seq<(nat, nat)>, i: nat, j: nat) {
    forall a, b :: Critical(p, a, b) && Earlier((a, b), (i, j)) ==> HasPair(pairs, a, b)
  }

  ghost predicate HasPair(pairs: seq<(nat, nat)>, a: nat, b: nat) {
    exists k :: 0 <= k < |pairs| && pairs[k] == (a, b)
  }

  ghost predicate AllCriticalPairs(p: Problem, pairs: seq<(nat, nat)>) {
    PairsBefore(p, pairs, |p.rows|, 0)
  }

  /** `_critical_pairs` */
  method CriticalPairs(p: Problem) returns (pairs: seq<(nat, nat)>)
    ensures AllCriticalPairs(p, pairs)
  {
    pairs := [];
    for i := 0 to |p.rows|
      invariant PairsBefore(p, pairs, i, 0)
    {
      for j := i + 1 to |p.rows|
        invariant PairsBefore(p, pairs, i, j)
      {
        PairsStep(p, pairs, i, j);
        if !Equal(p.rows[i].data.claim, p.rows[j].data.claim) {
          pairs := pairs + [(i, j)];
        }
      }
    }
  }

  lemma PairsStep(p: Problem, pairs: seq<(nat, nat)>, i: nat, j: nat)
    requires PairsBefore(p, pairs, i, j)
    ensures PairsBefore(p, if Critical(p, i, j) then pairs + [(i, j)] else pairs, i, j + 1)
  {
    var longer := if Critical(p, i, j) then pairs + [(i, j)] else pairs;
    assert InOrder(longer, i, j + 1);
    assert AreCritical(p, longer);
    ListedStep(p, pairs, i, j);
  }

  lemma ListedStep(p: Problem, pairs: seq<(nat, nat)>, i: nat, j: nat)
    requires AllListed(p, pairs, i, j)
    ensures AllListed(p, if Critical(p, i, j) then pairs + [(i, j)] else pairs, i, j + 1)
  {
    var longer := if Critical(p, i, j) then pairs + [(i, j)] else pairs;
    forall a: nat, b: nat | Critical(p, a, b) && Earlier((a, b), (i, j + 1)) ensures HasPair(longer, a, b) {
      if a == i && b == j {
        assert longer[|pairs|] == (a, b);
      } else {
        assert HasPair(pairs, a, b);
        var k :| 0 <= k < |pairs| && pairs[k] == (a, b);
        assert longer[k] == (a, b);
      }
    }
  }
}
