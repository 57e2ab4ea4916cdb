/** The candidate enumeration of the exhaustive compilers: all subsets by size, as `itertools.combinations` lists them. */
module Subsets {
  import opened Order
  import opened Contracts

  function Prefixed<T>(x: T, rest: seq<seq<T>>): (r: seq<seq<T>>)
    ensures |r| == |rest| && forall i :: 0 <= i < |r| ==> r[i] == [x] + rest[i]
  {
    seq(|rest|, i requires 0 <= i < |rest| => [x] + rest[i])
  }

  /** `itertools.combinations(names, size)` */
  function Combinations<T>(names: seq<T>, size: nat): seq<seq<T>> {
    if size == 0 then [[]]
    else if names == [] then []
    else Prefixed(names[0], Combinations(names[1..], size - 1)) + Combinations(names[1..], size)
  }

  /** The combinations of sizes 0, ..., `size - 1`, in that order. */
  function Smaller<T>(names: seq<T>, size: nat): seq<seq<T>> {
    if size == 0 then [] else Smaller(names, size - 1) + Combinations(names, size - 1)
  }

  function AllSubsets<T>(names: seq<T>): seq<seq<T>> {
    Smaller(names, |names| + 1)
  }

  function Power(n: nat): nat {
    if n == 0 then 1 else 2 * Power(n - 1)
  }

  function Elements(names: seq<string>): set<string> {
    set x | x in names
  }

  // ----- how many -----

  lemma {:induction false} TooMany<T>(names: seq<T>, size: nat)
    requires size > |names|
    ensures Combinations(names, size) == []
  {
    if names != [] {
      TooMany(names[1..], size - 1);
      TooMany(names[1..], size);
    }
  }

  /** Pascal's rule, summed over sizes. */
  lemma {:induction false} SmallerCount<T>(names: seq<T>, size: nat)
    requires names != [] && size > 0
    ensures |Smaller(names, size)| == |Smaller(names[1..], size)| + |Smaller(names[1..], size - 1)|
  {
    if size > 1 { SmallerCount(names, size - 1); }
  }

  /** Enumeration without a cap visits exactly 2^n candidates. */
  lemma {:induction false} SubsetCount<T>(names: seq<T>)
    ensures |AllSubsets(names)| == Power(|names|)
  {
    if names == [] {
      assert Smaller(names, 1) == Smaller(names, 0) + Combinations(names, 0);
    } else {
      SmallerCount(names, |names| + 1);
      TooMany(names[1..], |names|);
      assert Smaller(names[1..], |names| + 1) == Smaller(names[1..], |names|);
      SubsetCount(names[1..]);
    }
  }

  // ----- which ones -----

  ghost predicate Within<T>(c: seq<T>, names: seq<T>) {
    forall k :: 0 <= k < |c| ==> c[k] in names
  }

  /** A combination either starts with the first name or leaves it out. */
  lemma InCombinations<T>(names: seq<T>, size: nat, c: seq<T>)
    requires names != [] && size > 0
    ensures c in Combinations(names, size) <==>
              (c != [] && c[0] == names[0] && c[1..] in Combinations(names[1..], size - 1)) || c in Combinations(names[1..], size)
  {
    var with, without := Combinations(names[1..], size - 1), Combinations(names[1..], size);
    assert c in Combinations(names, size) <==> c in Prefixed(names[0], with) || c in without;
    InPrefixed(names[0], with, c);
  }

  lemma InPrefixed<T>(x: T, rest: seq<seq<T>>, c: seq<T>)
    ensures c in Prefixed(x, rest) <==> c != [] && c[0] == x && c[1..] in rest
  {
    if c in Prefixed(x, rest) {
      var i :| 0 <= i < |rest| && c == [x] + rest[i];
      assert c[1..] == rest[i];
    }
    if c != [] && c[0] == x && c[1..] in rest {
      var i :| 0 <= i < |rest| && c[1..] == rest[i];
      assert c == [x] + c[1..] && Prefixed(x, rest)[i] == c;
    }
  }

  /** What it means to be a combination, without listing all of them. */
  ghost predicate IsCombination<T>(names: seq<T>, size: nat, c: seq<T>) {
    if size == 0 then c == []
    else names != [] && (Starts(names, size, c) || IsCombination(names[1..], size, c))
  }

  ghost predicate Starts<T>(names: seq<T>, size: nat, c: seq<T>)
    requires names != [] && size > 0
    decreases names, 0
  {
    c != [] && c[0] == names[0] && IsCombination(names[1..], size - 1, c[1..])
  }

  lemma {:induction false} CombinationsExactly<T>(names: seq<T>, size: nat, c: seq<T>)
    ensures c in Combinations(names, size) <==> IsCombination(names, size, c)
  {
    if size > 0 && names != [] {
      InCombinations(names, size, c);
      CombinationsExactly(names[1..], size, c);
      if c != [] { CombinationsExactly(names[1..], size - 1, c[1..]); }
    }
  }

  /** A combination of a sorted tuple is a sorted tuple of some of its members. */
  lemma {:induction false} CombinationsAreSorted<T(!new)>(less: (T, T) -> bool, names: seq<T>, size: nat, c: seq<T>)
    requires Sorted(less, names) && IsCombination(names, size, c)
    ensures Sorted(less, c) && |c| == size && Within(c, names)
  {
    if size > 0 {
      if Starts(names, size, c) {
        CombinationsAreSorted(less, names[1..], size - 1, c[1..]);
        ConsSorted(less, names, c);
      } else {
        CombinationsAreSorted(less, names[1..], size, c);
      }
    }
  }

  lemma ConsSorted<T(!new)>(less: (T, T) -> bool, names: seq<T>, c: seq<T>)
    requires names != [] && c != [] && c[0] == names[0]
    requires Sorted(less, names) && Sorted(less, c[1..]) && Within(c[1..], names[1..])
    ensures Sorted(less, c) && Within(c, names)
  {
    forall k | 1 <= k < |c| ensures less(names[0], c[k]) && c[k] in names {
      assert c[k] == c[1..][k - 1];
      var m :| 0 <= m < |names[1..]| && names[1..][m] == c[k];
      assert names[m + 1] == c[k];
    }
    forall i, j | 1 <= i < j < |c| ensures less(c[i], c[j]) {
      assert less(c[1..][i - 1], c[1..][j - 1]);
    }
  }

  /** Every sorted tuple of members is visited, among the combinations of its size. */
  lemma {:induction false} SortedVisited<T(!new)>(less: (T, T) -> bool, names: seq<T>, c: seq<T>)
    requires StrictTotal(less) && Sorted(less, names) && Sorted(less, c) && Within(c, names)
    ensures IsCombination(names, |c|, c)
    decreases |names|
  {
    if c != [] {
      assert c[0] in names;
      if c[0] == names[0] {
        TailWithin(less, names, c);
        SortedVisited(less, names[1..], c[1..]);
      } else {
        AllWithin(less, names, c);
        SortedVisited(less, names[1..], c);
      }
    }
  }

  lemma TailWithin<T(!new)>(less: (T, T) -> bool, names: seq<T>, c: seq<T>)
    requires StrictTotal(less) && Sorted(less, c) && Within(c, names) && c != [] && names != [] && c[0] == names[0]
    ensures Sorted(less, c[1..]) && Within(c[1..], names[1..])
  {
    forall k | 0 <= k < |c[1..]| ensures c[1..][k] in names[1..] {
      assert less(c[0], c[k + 1]) && c[k + 1] in names;
      var m :| 0 <= m < |names| && names[m] == c[k + 1];
      assert names[1..][m - 1] == c[k + 1];
    }
  }

  lemma AllWithin<T(!new)>(less: (T, T) -> bool, names: seq<T>, c: seq<T>)
    requires StrictTotal(less) && Sorted(less, names) && Sorted(less, c) && Within(c, names)
    requires c != [] && names != [] && c[0] != names[0]
    ensures Within(c, names[1..])
  {
    var j :| 0 <= j < |names| && names[j] == c[0];
    assert less(names[0], c[0]);
    forall k | 0 <= k < |c| ensures c[k] in names[1..] {
      assert c[k] in names && (k > 0 ==> less(c[0], c[k]));
      var m :| 0 <= m < |names| && names[m] == c[k];
      assert m > 0 && names[1..][m - 1] == c[k];
    }
  }

  lemma {:induction false} SmallerContains<T>(names: seq<T>, size: nat, k: nat, c: seq<T>)
    requires k < size && c in Combinations(names, k)
    ensures c in Smaller(names, size)
  {
    InSmaller(names, size, c);
    if k < size - 1 { SmallerContains(names, size - 1, k, c); }
  }

  lemma InSmaller<T>(names: seq<T>, size: nat, c: seq<T>)
    requires size > 0
    ensures c in Smaller(names, size) <==> c in Smaller(names, size - 1) || c in Combinations(names, size - 1)
  {
  }

  lemma {:induction false} SmallerFrom<T>(names: seq<T>, size: nat, c: seq<T>) returns (k: nat)
    requires c in Smaller(names, size)
    ensures k < size && c in Combinations(names, k)
  {
    if c in Combinations(names, size - 1) { k := size - 1; } else { k := SmallerFrom(names, size - 1, c); }
  }

  lemma CandidateIsSorted(names: seq<string>, c: seq<string>)
    requires Sorted(NameLess, names) && c in AllSubsets(names)
    ensures c == SortedNames(Elements(c)) && Elements(c) <= Elements(names)
  {
    NameOrder();
    var k := SmallerFrom(names, |names| + 1, c);
    CombinationsExactly(names, k, c);
    CombinationsAreSorted(NameLess, names, k, c);
    SortedOnce(NameLess, c, SortedNames(Elements(c)));
  }

  lemma SubsetVisited(names: seq<string>, t: set<string>)
    requires Sorted(NameLess, names) && t <= Elements(names)
    ensures SortedNames(t) in AllSubsets(names)
  {
    NameOrder();
    var c := SortedNames(t);
    forall k | 0 <= k < |c| ensures c[k] in names {
      assert c[k] in Elements(names);
    }
    SortedVisited(NameLess, names, c);
    CombinationsExactly(names, |c|, c);
    ElementsSize(names);
    SubsetSize(t, Elements(names));
    SmallerContains(names, |names| + 1, |t|, SortedNames(t));
  }

  /** The candidates are exactly the sorted tuples of the subsets. */
  lemma AllSubsetsExactly(names: seq<string>, c: seq<string>)
    requires Sorted(NameLess, names)
    ensures c in AllSubsets(names) <==> exists t :: t <= Elements(names) && c == SortedNames(t)
  {
    if c in AllSubsets(names) { CandidateIsSorted(names, c); }
    forall t | t <= Elements(names) && c == SortedNames(t) ensures c in AllSubsets(names) {
      SubsetVisited(names, t);
    }
  }

  lemma ElementsNext(names: seq<string>, k: nat)
    requires k < |names|
    ensures Elements(names[..k + 1]) == Elements(names[..k]) + {names[k]}
  {
    assert names[..k + 1] == names[..k] + [names[k]];
  }

  lemma {:induction false} ElementsSize(names: seq<string>)
    ensures |Elements(names)| <= |names|
  {
    if names != [] {
      assert Elements(names) == {names[0]} + Elements(names[1..]);
      ElementsSize(names[1..]);
    }
  }

  // ----- the tie-break -----

  /** Cost, then cardinality, then the sorted tuple of names. */
  predicate Preferred(costs: map<string, real>, s: seq<string>, t: seq<string>) {
    var cs, ct := Cost(costs, Elements(s)), Cost(costs, Elements(t));
    cs < ct || (cs == ct && (|s| < |t| || (|s| == |t| && TupleLess(s, t))))
  }

  lemma PreferredOrder(costs: map<string, real>, less: (seq<string>, seq<string>) -> bool)
    requires forall s, t :: less(s, t) == Preferred(costs, s, t)
    ensures StrictTotal(less)
  {
    TupleOrder();
  }

  lemma PreferredAsymmetric(costs: map<string, real>, s: seq<string>, t: seq<string>)
    requires Preferred(costs, s, t)
    ensures !Preferred(costs, t, s)
  {
    TupleOrder();
  }
}
