/** Orders used for Python's `sorted` and tuple comparison: code point order on names,
    lexicographic order on tuples, and the sorted tuple of a set of names. */
module Order {

  ghost predicate Irreflexive<T(!new)>(less: (T, T) -> bool) {
    forall x :: !less(x, x)
  }

  ghost predicate Transitive<T(!new)>(less: (T, T) -> bool) {
    forall x, y, z :: less(x, y) && less(y, z) ==> less(x, z)
  }

  ghost predicate Connected<T(!new)>(less: (T, T) -> bool) {
    forall x, y :: x == y || less(x, y) || less(y, x)
  }

  /** A strict total order, the kind of key order `sorted` and `min` are given. */
  ghost predicate StrictTotal<T(!new)>(less: (T, T) -> bool) {
    Irreflexive(less) && Transitive(less) && Connected(less)
  }

  /** Python's tuple comparison: the first difference decides, a proper prefix is smaller. */
  predicate LexLess<T(==)>(less: (T, T) -> bool, a: seq<T>, b: seq<T>) {
    if b == [] then false
    else if a == [] then true
    else less(a[0], b[0]) || (a[0] == b[0] && LexLess(less, a[1..], b[1..]))
  }

  lemma {:induction false} LexTransitive<T(!new)>(less: (T, T) -> bool, a: seq<T>, b: seq<T>, c: seq<T>)
    requires StrictTotal(less)
    requires LexLess(less, a, b) && LexLess(less, b, c)
    ensures LexLess(less, a, c)
  {
    if a != [] && a[0] == b[0] && b[0] == c[0] {
      LexTransitive(less, a[1..], b[1..], c[1..]);
    }
  }

  lemma {:induction false} LexConnected<T(!new)>(less: (T, T) -> bool, a: seq<T>, b: seq<T>)
    requires StrictTotal(less)
    ensures a == b || LexLess(less, a, b) || LexLess(less, b, a)
    ensures !LexLess(less, a, a)
  {
    if a != [] {
      LexConnected(less, a[1..], if b == [] then [] else b[1..]);
      if b != [] && a[0] == b[0] {
        assert a == [a[0]] + a[1..] && b == [b[0]] + b[1..];
      }
    }
  }

  /** Names are compared by code point, as Python compares `str`. */
  predicate CharLess(c: char, d: char) {
    c < d
  }

  predicate NameLess(a: string, b: string) {
    LexLess(CharLess, a, b)
  }

  /** The order on `tuple(sorted(names))`. */
  predicate TupleLess(a: seq<string>, b: seq<string>) {
    LexLess(NameLess, a, b)
  }

  lemma NameOrder()
    ensures StrictTotal(NameLess)
  {
    assert StrictTotal(CharLess);
    forall a: string, b: string, c: string | NameLess(a, b) && NameLess(b, c) ensures NameLess(a, c) {
      LexTransitive(CharLess, a, b, c);
    }
    forall a: string, b: string ensures (a == b || NameLess(a, b) || NameLess(b, a)) && !NameLess(a, a) {
      LexConnected(CharLess, a, b);
    }
  }

  lemma TupleOrder()
    ensures StrictTotal(TupleLess)
  {
    NameOrder();
    forall a: seq<string>, b: seq<string>, c: seq<string> | TupleLess(a, b) && TupleLess(b, c) ensures TupleLess(a, c) {
      LexTransitive(NameLess, a, b, c);
    }
    forall a: seq<string>, b: seq<string>
      ensures (a == b || TupleLess(a, b) || TupleLess(b, a)) && !TupleLess(a, a) {
      LexConnected(NameLess, a, b);
    }
  }

  /** `x` is the least element of `s`. */
  ghost predicate IsLeast(s: set<string>, x: string) {
    x in s && forall y :: y in s && y != x ==> NameLess(x, y)
  }

  lemma {:induction false} LeastExists<T(!new)>(less: (T, T) -> bool, s: set<T>)
    requires s != {} && StrictTotal(less)
    ensures exists x :: x in s && forall y :: y in s && y != x ==> less(x, y)
  {
    var e :| e in s;
    if s != {e} {
      var rest := s - {e};
      LeastExists(less, rest);
      var m :| m in rest && forall y :: y in rest && y != m ==> less(m, y);
      var x := if less(e, m) then e else m;
      forall y | y in s && y != x ensures less(x, y) {
        assert y == e || y == m || less(m, y);
      }
      assert x in s;
    }
  }

  function LeastName(s: set<string>): (x: string)
    requires s != {}
    ensures IsLeast(s, x)
  {
    NameOrder();
    LeastExists(NameLess, s);
    var x :| x in s && forall y :: y in s && y != x ==> NameLess(x, y);
    x
  }

  /** `tuple(sorted(s))`. */
  function SortedNames(s: set<string>): (r: seq<string>)
    ensures |r| == |s|
    ensures forall x :: x in r <==> x in s
    ensures Sorted(NameLess, r)
  {
    if s == {} then []
    else
      var x := LeastName(s);
      [x] + SortedNames(s - {x})
  }

  ghost predicate Sorted<T(!new)>(less: (T, T) -> bool, s: seq<T>) {
    forall i, j :: 0 <= i < j < |s| ==> less(s[i], s[j])
  }

  /** A strictly sorted sequence is determined by its elements. */
  lemma {:induction false} SortedOnce<T(!new)>(less: (T, T) -> bool, a: seq<T>, b: seq<T>)
    requires StrictTotal(less) && Sorted(less, a) && Sorted(less, b)
    requires forall x :: x in a <==> x in b
    ensures a == b
  {
    assert a != [] ==> a[0] in b;
    assert b != [] ==> b[0] in a;
    if a != [] && b != [] {
      assert a[0] == b[0];
      forall x ensures x in a[1..] <==> x in b[1..] {
        if x in a[1..] { assert x in a; }
        if x in b[1..] { assert x in b; }
      }
      SortedOnce(less, a[1..], b[1..]);
      assert a == [a[0]] + a[1..] && b == [b[0]] + b[1..];
    }
  }

  lemma SortedNamesInjective(s: set<string>, t: set<string>)
    requires SortedNames(s) == SortedNames(t)
    ensures s == t
  {
    assert forall x :: x in s <==> x in SortedNames(s);
    assert forall x :: x in t <==> x in SortedNames(t);
  }

  /** `min(items, key=...)` for a key whose order is `less`. */
  method MinBy<T(!new)>(items: seq<T>, less: (T, T) -> bool) returns (m: T)
    requires items != []
    requires Irreflexive(less) && Transitive(less)
    requires forall x, y :: x in items && y in items ==> x == y || less(x, y) || less(y, x)
    ensures m in items
    ensures forall x :: x in items ==> x == m || less(m, x)
  {
    m := items[0];
    for i := 1 to |items|
      invariant m in items
      invariant forall j :: 0 <= j < i ==> items[j] == m || less(m, items[j])
    {
      if less(items[i], m) {
        m := items[i];
      }
    }
  }

  /** `sorted(s, key=...)` for a set and a key whose order is `less`. */
  method SortBy<T(!new, ==)>(s: set<T>, less: (T, T) -> bool) returns (r: seq<T>)
    requires Irreflexive(less) && Transitive(less)
    requires forall x, y :: x in s && y in s ==> x == y || less(x, y) || less(y, x)
    ensures forall x :: x in r <==> x in s
    ensures forall i, j :: 0 <= i < j < |r| ==> less(r[i], r[j])
  {
    r := [];
    var rest := s;
    while rest != {}
      invariant rest <= s
      invariant forall x :: x in s <==> x in r || x in rest
      invariant forall i, j :: 0 <= i < j < |r| ==> less(r[i], r[j])
      invariant forall i, x :: 0 <= i < |r| && x in rest ==> less(r[i], x)
      decreases rest
    {
      var m :| m in rest;
      var todo := rest - {m};
      while todo != {}
        invariant todo <= rest && m in rest && m !in todo
        invariant forall x :: x in rest && x !in todo ==> x == m || less(m, x)
        decreases todo
      {
        var x :| x in todo;
        if less(x, m) {
          m := x;
        }
        todo := todo - {x};
      }
      r := r + [m];
      rest := rest - {m};
    }
  }
}
