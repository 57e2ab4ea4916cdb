/** The laws every bucket and digest relies on. */
module CanonicalTheorems {
  import opened Wrappers
  import opened Canonical
  import opened Reader

  // ----- the printer is defined exactly on the profile -----

  lemma {:induction false} Defined(v: Json)
    ensures CanonicalJson(v).Some? <==> InProfile(v)
    decreases v, 1
  {
    match v
    case Str(s) => EscapeDefined(s);
    case Arr(items) => DefinedItems(items);
    case Obj(fields) =>
      DefinedEntries(fields);
      if CanonicalEntries(fields).Some? {
        var es := CanonicalEntries(fields).value;
        SortSameFields(es);
        FieldTextsDefined(SortByKey(es));
        SortedScalar(es);
      }
    case _ =>
  }

  lemma SortedScalar(es: seq<(Text, Text)>)
    ensures ScalarKeys(SortByKey(es)) <==> ScalarKeys(es)
  {
    SortSameFields(es);
    var r := SortByKey(es);
    if ScalarKeys(r) {
      forall i | 0 <= i < |es| ensures Scalar(es[i].0) {
        assert Has(r, es[i]);
        var k :| 0 <= k < |r| && r[k] == es[i];
      }
    }
  }

  lemma {:induction false} FieldTextsDefined(es: seq<(Text, Text)>)
    ensures FieldTexts(es).Some? <==> ScalarKeys(es)
  {
    if es != [] {
      EscapeDefined(es[0].0);
      FieldTextsDefined(es[1..]);
      if ScalarKeys(es[1..]) && Scalar(es[0].0) {
        forall i | 0 <= i < |es| ensures Scalar(es[i].0) {
          assert i > 0 ==> es[i] == es[1..][i - 1];
        }
      }
    }
  }

  lemma {:induction false} DefinedItems(items: seq<Json>)
    ensures CanonicalItems(items).Some? <==> forall x :: x in items ==> InProfile(x)
    decreases items, 0
  {
    if items != [] {
      Defined(items[0]);
      DefinedItems(items[1..]);
      assert forall x :: x in items <==> x == items[0] || x in items[1..];
    }
  }

  /** Printing the values of an object keeps its keys in place. */
  ghost predicate Printed(fields: seq<(Text, Json)>, entries: seq<(Text, Text)>) {
    |fields| == |entries|
    && forall i :: 0 <= i < |fields| ==> fields[i].0 == entries[i].0 && CanonicalJson(fields[i].1) == Some(entries[i].1)
  }

  lemma {:induction false} EntriesPrinted(fields: seq<(Text, Json)>, entries: seq<(Text, Text)>)
    ensures CanonicalEntries(fields) == Some(entries) <==> Printed(fields, entries)
  {
    if fields == [] {
    } else if entries != [] {
      EntriesPrinted(fields[1..], entries[1..]);
      assert entries == [entries[0]] + entries[1..];
      if Printed(fields, entries) {
        assert CanonicalJson(fields[0].1) == Some(entries[0].1);
        assert Printed(fields[1..], entries[1..]);
      }
      if CanonicalEntries(fields) == Some(entries) {
        var rest := CanonicalEntries(fields[1..]).value;
        assert entries[1..] == rest;
      }
    }
  }

  lemma {:induction false} DefinedEntries(fields: seq<(Text, Json)>)
    ensures CanonicalEntries(fields).Some? <==> forall f :: f in fields ==> InProfile(f.1)
    ensures CanonicalEntries(fields).Some? ==> Printed(fields, CanonicalEntries(fields).value)
    ensures (forall f :: f in fields ==> Scalar(f.0)) <==> ScalarKeys(fields)
    decreases fields, 0
  {
    if fields != [] {
      var f := fields[0];
      assert f.1 < f;
      Defined(f.1);
      DefinedEntries(fields[1..]);
      assert fields == [f] + fields[1..];
    }
    if CanonicalEntries(fields).Some? {
      EntriesPrinted(fields, CanonicalEntries(fields).value);
    }
  }

  // ----- printing the normal form -----

  lemma {:induction false} InsertPrinted(f: (Text, Json), e: (Text, Text), fields: seq<(Text, Json)>, entries: seq<(Text, Text)>)
    requires Printed(fields, entries) && f.0 == e.0 && CanonicalJson(f.1) == Some(e.1)
    ensures Printed(Insert(f, fields), Insert(e, entries))
  {
    if fields != [] && KeyLess(fields[0].0, f.0) {
      InsertPrinted(f, e, fields[1..], entries[1..]);
    }
  }

  lemma {:induction false} SortPrinted(fields: seq<(Text, Json)>, entries: seq<(Text, Text)>)
    requires Printed(fields, entries)
    ensures Printed(SortByKey(fields), SortByKey(entries))
  {
    if fields != [] {
      SortPrinted(fields[1..], entries[1..]);
      InsertPrinted(fields[0], entries[0], SortByKey(fields[1..]), SortByKey(entries[1..]));
    }
  }

  lemma SortIdempotent<T>(s: seq<(Text, T)>)
    requires DistinctKeys(s) && ScalarKeys(s)
    ensures SortByKey(SortByKey(s)) == SortByKey(s)
  {
    SortSameFields(s);
    SortDistinct(s);
    SortIgnoresOrder(SortByKey(s), s);
  }

  /** The normal form prints the same text. */
  lemma {:induction false} NormalPrints(v: Json)
    requires WellFormed(v) && InProfile(v)
    ensures CanonicalJson(Normal(v)) == CanonicalJson(v)
    decreases v, 1
  {
    match v
    case Arr(items) => NormalItemsPrint(items);
    case Obj(fields) =>
      NormalFieldsPrint(fields);
      NormalKeys(fields);
      DefinedEntries(fields);
      var nf, es := NormalFields(fields), CanonicalEntries(fields).value;
      SortPrinted(nf, es);
      EntriesPrinted(SortByKey(nf), SortByKey(es));
      SortIdempotent(es);
    case _ =>
  }

  lemma {:induction false} NormalItemsPrint(items: seq<Json>)
    requires forall x :: x in items ==> WellFormed(x) && InProfile(x)
    ensures CanonicalItems(NormalItems(items)) == CanonicalItems(items)
    decreases items, 0
  {
    if items != [] {
      NormalPrints(items[0]);
      NormalItemsPrint(items[1..]);
    }
  }

  lemma {:induction false} NormalFieldsPrint(fields: seq<(Text, Json)>)
    requires forall f :: f in fields ==> WellFormed(f.1) && InProfile(f.1)
    ensures CanonicalEntries(fields).Some? && Printed(NormalFields(fields), CanonicalEntries(fields).value)
    decreases fields, 0
  {
    if fields != [] {
      var f := fields[0];
      assert f.1 < f;
      NormalPrints(f.1);
      Defined(f.1);
      NormalFieldsPrint(fields[1..]);
    }
  }

  // ----- the laws -----

  /** Reading a canonical text back gives the value, up to the insertion order of keys. */
  lemma RoundTrip(v: Json)
    requires WellFormed(v) && InProfile(v)
    ensures CanonicalJson(v).Some? && StrictJsonLoads(CanonicalJson(v).value) == Some(Normal(v))
  {
    Defined(v);
    PrintedReads(v);
    var t := CanonicalJson(v).value;
    ReadsNow(t, Normal(v), []);
    assert t + [] == t;
    NormalPrints(v);
  }

  /** Two values have the same canonical text exactly when they are equal as Python values. */
  lemma Injective(a: Json, b: Json)
    requires WellFormed(a) && InProfile(a) && WellFormed(b) && InProfile(b)
    ensures CanonicalJson(a) == CanonicalJson(b) <==> Normal(a) == Normal(b)
  {
    RoundTrip(a);
    RoundTrip(b);
    NormalPrints(a);
    NormalPrints(b);
  }

  /** Dicts with the same items are the same value, whatever order the keys were inserted in. */
  lemma InsertionOrderIrrelevant(a: seq<(Text, Json)>, b: seq<(Text, Json)>)
    requires DistinctKeys(a) && DistinctKeys(b) && SameFields(a, b) && ScalarKeys(a)
    ensures Normal(Obj(a)) == Normal(Obj(b))
  {
    NormalKeys(a);
    NormalKeys(b);
    var na, nb := NormalFields(a), NormalFields(b);
    forall i | 0 <= i < |na| ensures Has(nb, na[i]) {
      assert Has(b, a[i]);
      var k :| 0 <= k < |b| && b[k] == a[i];
      assert nb[k] == na[i];
    }
    forall i | 0 <= i < |nb| ensures Has(na, nb[i]) && Scalar(nb[i].0) {
      assert Has(a, b[i]);
      var k :| 0 <= k < |a| && a[k] == b[i];
      assert na[k] == nb[i];
    }
    SortIgnoresOrder(na, nb);
  }

  /** Whatever the strict reader accepts is a value with unique keys inside the profile, and printing it
      canonically and reading it again changes nothing but the order of keys. */
  lemma ReaderIsStrict(t: Text, v: Json)
    requires StrictJsonLoads(t) == Some(v)
    ensures WellFormed(v) && InProfile(v)
    ensures StrictJsonLoads(CanonicalJson(v).value) == Some(Normal(v))
  {
    Defined(v);
    ReadWellFormed(SkipSpace(t));
    RoundTrip(v);
  }

  lemma {:induction false} ReadWellFormed(t: Text)
    ensures ReadValue(t).Some? ==> WellFormed(ReadValue(t).value.0)
    decreases |t|, 1
  {
    if t != [] && t[0] == 123 {
      ReadFieldsWellFormed(SkipSpace(t[1..]));
    } else if t != [] && t[0] == 91 {
      ReadItemsWellFormed(SkipSpace(t[1..]));
    }
  }

  lemma {:induction false} ReadItemsWellFormed(t: Text)
    ensures ReadItems(t).Some? ==> forall x :: x in ReadItems(t).value.0 ==> WellFormed(x)
    decreases |t|, 2
  {
    ReadWellFormed(t);
    var first := ReadValue(t);
    if first.Some? {
      var u := SkipSpace(first.value.1);
      if u != [] && u[0] == 44 { ReadItemsWellFormed(SkipSpace(u[1..])); }
    }
  }

  lemma {:induction false} ReadFieldsWellFormed(t: Text)
    ensures ReadFields(t).Some? ==> forall f :: f in ReadFields(t).value.0 ==> WellFormed(f.1)
    decreases |t|, 2
  {
    if t != [] && t[0] == 34 && ReadString(t[1..]).Some? {
      var u := SkipSpace(ReadString(t[1..]).value.1);
      if u != [] && u[0] == 58 {
        ReadWellFormed(SkipSpace(u[1..]));
        var value := ReadValue(SkipSpace(u[1..]));
        if value.Some? {
          var w := SkipSpace(value.value.1);
          if w != [] && w[0] == 44 { ReadFieldsWellFormed(SkipSpace(w[1..])); }
        }
      }
    }
  }

  // ----- digests -----

  /** The bytes hashed by `digest(domain, value)`, before UTF-8 encoding. */
  function DigestInput(domain: Text, v: Json): Option<Text> {
    if domain == [] || CanonicalJson(v).None? then None else Some(domain + [0] + CanonicalJson(v).value)
  }

  /** Digest inputs are separated by domain, and injective on values within a domain. */
  lemma DigestInputInjective(d: Text, a: Json, e: Text, b: Json)
    requires 0 !in d && 0 !in e && WellFormed(a) && WellFormed(b)
    requires DigestInput(d, a).Some? && DigestInput(d, a) == DigestInput(e, b)
    ensures d == e && Normal(a) == Normal(b)
  {
    Defined(a);
    Defined(b);
    Split(d, CanonicalJson(a).value, e, CanonicalJson(b).value);
    Injective(a, b);
  }

  lemma {:induction false} Split(d: Text, x: Text, e: Text, y: Text)
    requires 0 !in d && 0 !in e && d + [0] + x == e + [0] + y
    ensures d == e && x == y
  {
    var l, r := d + [0] + x, e + [0] + y;
    assert l[0] == if d == [] then 0 else d[0];
    assert r[0] == if e == [] then 0 else e[0];
    assert d != [] ==> d[0] in d;
    assert e != [] ==> e[0] in e;
    if d != [] {
      assert l[1..] == d[1..] + [0] + x && r[1..] == e[1..] + [0] + y;
      Split(d[1..], x, e[1..], y);
      assert d == [d[0]] + d[1..] && e == [e[0]] + e[1..];
    } else {
      assert l[1..] == x && r[1..] == y;
    }
  }

  // ----- `_quote` as the loop it is -----

  lemma {:induction false} EscapeSnoc(s: Text, c: CodePoint)
    requires Escape(s).Some?
    ensures Escape(s + [c]) == if IsSurrogate(c) then None else Some(Escape(s).value + EscapeChar(c))
  {
    if s == [] {
      assert s + [c] == [c] && [c][1..] == [];
      assert Escape([]) == Some([]);
      assert EscapeChar(c) + [] == EscapeChar(c) && [] + EscapeChar(c) == EscapeChar(c);
    } else {
      assert (s + [c])[0] == s[0] && (s + [c])[1..] == s[1..] + [c];
      EscapeSnoc(s[1..], c);
      if !IsSurrogate(c) {
        var head, body, last := EscapeChar(s[0]), Escape(s[1..]).value, EscapeChar(c);
        assert head + (body + last) == (head + body) + last;
      }
    }
  }

  /** Collects pieces left to right; stops at the first surrogate. */
  method QuoteLoop(value: Text) returns (r: Option<Text>)
    ensures r == Quote(value)
    ensures r.Some? <==> Scalar(value)
    ensures r.Some? ==> ReadString(r.value[1..]) == Some((value, []))
  {
    EscapeDefined(value);
    var pieces: Text := [34];
    for i := 0 to |value|
      invariant Escape(value[..i]).Some? && pieces == [34] + Escape(value[..i]).value
    {
      EscapeSnoc(value[..i], value[i]);
      assert value[..i + 1] == value[..i] + [value[i]];
      if IsSurrogate(value[i]) {
        assert value[i] in value;
        return None;
      }
      pieces := pieces + EscapeChar(value[i]);
    }
    assert value[..|value|] == value;
    StringReads(value, []);
    assert (pieces + [34])[1..] == Escape(value).value + [34] + [];
    r := Some(pieces + [34]);
  }
}
