/** Normalized tables of identified rows: unique identifiers, listed in identifier order. */
module FiniteTables {
  import opened Wrappers
  import opened Order

  datatype Row<D> = Row(id: string, data: D)

  predicate NameChar(c: char) {
    'a' <= c <= 'z' || 'A' <= c <= 'Z' || '0' <= c <= '9' || c == '_' || c == '.' || c == ':' || c == '-'
  }

  /** `_identifier` */
  predicate IsName(s: string) {
    0 < |s| <= 255 && forall i :: 0 <= i < |s| ==> NameChar(s[i])
  }

  /** A dict built row by row, where a later row replaces an earlier one. */
  function Collect<D>(rows: seq<Row<D>>): map<string, D> {
    if rows == [] then map[]
    else
      var last := rows[|rows| - 1];
      Collect(rows[..|rows| - 1])[last.id := last.data]
  }

  /** The rows of a table sorted by identifier. */
  function Listed<D>(table: map<string, D>): (r: seq<Row<D>>)
    ensures |r| == |table|
    ensures forall i :: 0 <= i < |r| ==> r[i].id in table && r[i].data == table[r[i].id]
  {
    var names := SortedNames(table.Keys);
    seq(|names|, i requires 0 <= i < |names| => Row(names[i], table[names[i]]))
  }

  /** Refuses empty tables, repeated identifiers, bad identifiers and bad data. */
  function Normalize<D>(rows: seq<Row<D>>, ok: D -> bool): Option<seq<Row<D>>> {
    if rows == [] || |Collect(rows)| != |rows| || !Acceptable(rows, ok) then None else Some(Listed(Collect(rows)))
  }

  predicate Acceptable<D>(rows: seq<Row<D>>, ok: D -> bool) {
    forall i :: 0 <= i < |rows| ==> IsName(rows[i].id) && ok(rows[i].data)
  }

  ghost predicate HasRow<D>(rows: seq<Row<D>>, id: string, d: D) {
    exists i :: 0 <= i < |rows| && rows[i].id == id && rows[i].data == d
  }

  /** Row `i` is what the dict built from `rows` holds. */
  ghost predicate Kept<D>(rows: seq<Row<D>>, i: nat)
    requires i < |rows|
  {
    rows[i].id in Collect(rows) && Collect(rows)[rows[i].id] == rows[i].data
  }

  lemma {:induction false} CollectKeys<D>(rows: seq<Row<D>>)
    ensures forall i :: 0 <= i < |rows| ==> rows[i].id in Collect(rows)
    ensures forall x :: x in Collect(rows) ==> HasRow(rows, x, Collect(rows)[x])
    ensures |Collect(rows)| <= |rows|
  {
    if rows != [] {
      var init, last := rows[..|rows| - 1], rows[|rows| - 1];
      CollectKeys(init);
      forall x | x in Collect(rows) ensures HasRow(rows, x, Collect(rows)[x]) {
        if x == last.id {
          assert rows[|rows| - 1].id == x;
        } else {
          var i :| 0 <= i < |init| && init[i].id == x && init[i].data == Collect(init)[x];
          assert rows[i] == init[i];
        }
      }
      CollectGrows(Collect(init), last.id, last.data);
    }
  }

  lemma CollectGrows<D>(m: map<string, D>, id: string, d: D)
    ensures |m[id := d]| == |m| + (if id in m then 0 else 1)
  {
    var m' := m[id := d];
    assert m'.Keys == m.Keys + {id};
    assert |m'.Keys| == |m'| && |m.Keys| == |m|;
  }

  /** The identifiers are distinct exactly when no row was replaced. */
  lemma {:induction false} CollectDistinct<D>(rows: seq<Row<D>>)
    ensures |Collect(rows)| == |rows| <==> forall i, j :: 0 <= i < j < |rows| ==> rows[i].id != rows[j].id
    ensures |Collect(rows)| == |rows| ==> forall i :: 0 <= i < |rows| ==> Kept(rows, i)
  {
    if rows != [] {
      var n := |rows| - 1;
      var init, last := rows[..n], rows[n];
      CollectDistinct(init);
      CollectKeys(init);
      CollectGrows(Collect(init), last.id, last.data);
      if |Collect(rows)| == |rows| {
        forall i | 0 <= i < |rows| ensures Kept(rows, i) && (i < n ==> rows[i].id != rows[n].id) {
          if i < n { assert init[i] == rows[i] && Kept(init, i); }
        }
        forall i, j | 0 <= i < j < |rows| ensures rows[i].id != rows[j].id {
          if j < n { assert init[i].id != init[j].id; }
        }
      }
      if last.id in Collect(init) {
        var i :| 0 <= i < |init| && init[i].id == last.id;
        assert rows[i].id == rows[n].id;
      } else if forall i, j :: 0 <= i < j < |rows| ==> rows[i].id != rows[j].id {
        forall i, j | 0 <= i < j < |init| ensures init[i].id != init[j].id {
          assert rows[i].id != rows[j].id;
        }
      }
    }
  }

  /** Both lists hold the same rows. */
  ghost predicate SameRows<D>(a: seq<Row<D>>, b: seq<Row<D>>) {
    && |a| == |b|
    && (forall i :: 0 <= i < |a| ==> HasRow(b, a[i].id, a[i].data))
    && (forall i :: 0 <= i < |b| ==> HasRow(a, b[i].id, b[i].data))
  }

  lemma PermutationSameRows<D>(a: seq<Row<D>>, b: seq<Row<D>>)
    requires multiset(a) == multiset(b)
    ensures SameRows(a, b)
  {
    assert |multiset(a)| == |a| && |multiset(b)| == |b|;
    forall i | 0 <= i < |a| ensures HasRow(b, a[i].id, a[i].data) {
      assert a[i] in multiset(b);
      var k :| 0 <= k < |b| && b[k] == a[i];
    }
    forall i | 0 <= i < |b| ensures HasRow(a, b[i].id, b[i].data) {
      assert b[i] in multiset(a);
      var k :| 0 <= k < |a| && a[k] == b[i];
    }
  }

  /** Normalization forgets the order in which rows were supplied. */
  lemma NormalizeIgnoresOrder<D>(a: seq<Row<D>>, b: seq<Row<D>>, ok: D -> bool)
    requires multiset(a) == multiset(b)
    ensures Normalize(a, ok) == Normalize(b, ok)
  {
    PermutationSameRows(a, b);
    CollectSame(a, b);
    SameAcceptable(a, b, ok);
  }

  lemma CollectSame<D>(a: seq<Row<D>>, b: seq<Row<D>>)
    requires SameRows(a, b)
    ensures |Collect(a)| == |Collect(b)|
    ensures |Collect(a)| == |a| ==> Collect(a) == Collect(b)
  {
    SameRowsKeys(a, b);
    SameRowsKeys(b, a);
    var ma, mb := Collect(a), Collect(b);
    assert ma.Keys == mb.Keys;
    assert |ma.Keys| == |ma| && |mb.Keys| == |mb|;
    if |ma| == |a| {
      forall x | x in ma ensures ma[x] == mb[x] {
        SameRowsData(a, b, x);
      }
      assert ma == mb;
    }
  }

  lemma SameRowsKeys<D>(a: seq<Row<D>>, b: seq<Row<D>>)
    requires SameRows(a, b)
    ensures Collect(a).Keys <= Collect(b).Keys
  {
    CollectKeys(a);
    CollectKeys(b);
    forall x | x in Collect(a) ensures x in Collect(b) {
      var i :| 0 <= i < |a| && a[i].id == x;
      assert HasRow(b, a[i].id, a[i].data);
    }
  }

  lemma SameRowsData<D>(a: seq<Row<D>>, b: seq<Row<D>>, x: string)
    requires SameRows(a, b) && |Collect(b)| == |b| && x in Collect(a)
    ensures x in Collect(b) && Collect(a)[x] == Collect(b)[x]
  {
    CollectKeys(a);
    CollectDistinct(b);
    var i :| 0 <= i < |a| && a[i].id == x && a[i].data == Collect(a)[x];
    assert HasRow(b, a[i].id, a[i].data);
    var k :| 0 <= k < |b| && b[k].id == x && b[k].data == a[i].data;
    assert Kept(b, k);
  }

  lemma SameAcceptable<D>(a: seq<Row<D>>, b: seq<Row<D>>, ok: D -> bool)
    requires SameRows(a, b)
    ensures Acceptable(a, ok) <==> Acceptable(b, ok)
  {
    if Acceptable(a, ok) { AcceptableCarries(a, b, ok); }
    if Acceptable(b, ok) { AcceptableCarries(b, a, ok); }
  }

  lemma AcceptableCarries<D>(a: seq<Row<D>>, b: seq<Row<D>>, ok: D -> bool)
    requires SameRows(a, b) && Acceptable(a, ok)
    ensures Acceptable(b, ok)
  {
    forall i | 0 <= i < |b| ensures IsName(b[i].id) && ok(b[i].data) {
      assert HasRow(a, b[i].id, b[i].data);
    }
  }

  /** What a normalized table is: the given rows, valid, strictly sorted by identifier. */
  lemma NormalizedRows<D>(rows: seq<Row<D>>, ok: D -> bool)
    requires Normalize(rows, ok).Some?
    ensures var t := Normalize(rows, ok).value;
      && t != [] && SameRows(rows, t)
      && (forall i, j :: 0 <= i < j < |t| ==> NameLess(t[i].id, t[j].id))
      && Acceptable(t, ok)
  {
    var m := Collect(rows);
    var t := Listed(m);
    var names := SortedNames(m.Keys);
    CollectKeys(rows);
    CollectDistinct(rows);
    forall i | 0 <= i < |rows| ensures HasRow(t, rows[i].id, rows[i].data) {
      assert Kept(rows, i) && rows[i].id in names;
      var k :| 0 <= k < |names| && names[k] == rows[i].id;
      assert t[k].id == rows[i].id;
    }
    forall i | 0 <= i < |t| ensures HasRow(rows, t[i].id, t[i].data) && IsName(t[i].id) && ok(t[i].data) {
      assert HasRow(rows, t[i].id, m[t[i].id]);
    }
    assert forall i, j :: 0 <= i < j < |t| ==> NameLess(names[i], names[j]);
  }

  /** Rows sorted by identifier are listed in only one way. */
  lemma SortedRowsEqual<D>(a: seq<Row<D>>, b: seq<Row<D>>)
    requires SameRows(a, b)
    requires forall i, j :: 0 <= i < j < |a| ==> NameLess(a[i].id, a[j].id)
    requires forall i, j :: 0 <= i < j < |b| ==> NameLess(b[i].id, b[j].id)
    ensures a == b
  {
    NameOrder();
    var ia, ib := Ids(a), Ids(b);
    forall x ensures x in ia <==> x in ib {
      if x in ia {
        var i :| 0 <= i < |a| && a[i].id == x;
        assert HasRow(b, a[i].id, a[i].data);
        var k :| 0 <= k < |b| && b[k].id == x;
        assert ib[k] == x;
      }
      if x in ib {
        var i :| 0 <= i < |b| && b[i].id == x;
        assert HasRow(a, b[i].id, b[i].data);
        var k :| 0 <= k < |a| && a[k].id == x;
        assert ia[k] == x;
      }
    }
    SortedOnce(NameLess, ia, ib);
    forall i | 0 <= i < |a| ensures a[i] == b[i] {
      assert ia[i] == ib[i] && HasRow(b, a[i].id, a[i].data);
      var k :| 0 <= k < |b| && b[k].id == a[i].id && b[k].data == a[i].data;
      assert !NameLess(b[k].id, b[i].id) && !NameLess(b[i].id, b[k].id);
    }
  }

  function Ids<D>(rows: seq<Row<D>>): seq<string> {
    seq(|rows|, i requires 0 <= i < |rows| => rows[i].id)
  }

  /** Normalizing a normalized table changes nothing. */
  lemma NormalizeIdempotent<D>(rows: seq<Row<D>>, ok: D -> bool)
    requires Normalize(rows, ok).Some?
    ensures Normalize(Normalize(rows, ok).value, ok) == Normalize(rows, ok)
  {
    NormalizedRows(rows, ok);
    CollectListed(Collect(rows));
  }

  lemma CollectListed<D>(m: map<string, D>)
    ensures Collect(Listed(m)) == m
  {
    var t := Listed(m);
    CollectKeys(t);
    var names := SortedNames(m.Keys);
    forall x | x in m ensures x in Collect(t) {
      var k :| 0 <= k < |names| && names[k] == x;
      assert t[k].id == x;
    }
    forall x | x in Collect(t) ensures x in m && Collect(t)[x] == m[x] {
      assert HasRow(t, x, Collect(t)[x]);
    }
  }
}
