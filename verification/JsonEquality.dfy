/** Two equalities of JSON values: equal canonical text, and Python's `==`, which takes booleans for numbers. */
module JsonEquality {
  import opened Canonical

  /** A JSON value as Python holds it: keys of a dict are unique. */
  type Value = v: Json | WellFormed(v) witness Null

  predicate Printable(v: Value) {
    CanonicalJson(v).Some?
  }

  /** Equality of JSON values, whatever the order of keys. */
  predicate Same(a: Json, b: Json) {
    Normal(a) == Normal(b)
  }

  /** Python's `==` identifies `True` with 1 and `False` with 0, at any depth. */
  function Numeric(v: Json): Json {
    match v
    case Bool(b) => Int(if b then 1 else 0)
    case Arr(items) => Arr(NumericItems(items))
    case Obj(fields) => Obj(NumericFields(fields))
    case _ => v
  }

  function NumericItems(items: seq<Json>): seq<Json> {
    if items == [] then [] else [Numeric(items[0])] + NumericItems(items[1..])
  }

  function NumericFields(fields: seq<(Text, Json)>): seq<(Text, Json)> {
    if fields == [] then []
    else
      var f := fields[0];
      assert f.1 < f;
      [(f.0, Numeric(f.1))] + NumericFields(fields[1..])
  }

  predicate Equal(a: Json, b: Json) {
    Normal(Numeric(a)) == Normal(Numeric(b))
  }

  lemma NumericFieldsAt(fields: seq<(Text, Json)>)
    ensures |NumericFields(fields)| == |fields|
    ensures forall i :: 0 <= i < |fields| ==> NumericFields(fields)[i] == (fields[i].0, Numeric(fields[i].1))
  {
    if fields != [] { NumericFieldsAt(fields[1..]); }
  }

  lemma {:induction false} InsertNumeric(e: (Text, Json), s: seq<(Text, Json)>)
    ensures NumericFields(Insert(e, s)) == Insert((e.0, Numeric(e.1)), NumericFields(s))
  {
    var r := Insert(e, s);
    if s == [] || !KeyLess(s[0].0, e.0) {
      assert r[1..] == s;
    } else {
      InsertNumeric(e, s[1..]);
      assert r[0] == s[0] && r[1..] == Insert(e, s[1..]);
      var ns := NumericFields(s);
      assert ns[0] == (s[0].0, Numeric(s[0].1)) && ns[1..] == NumericFields(s[1..]);
    }
  }

  lemma {:induction false} SortNumeric(s: seq<(Text, Json)>)
    ensures NumericFields(SortByKey(s)) == SortByKey(NumericFields(s))
  {
    if s != [] {
      SortNumeric(s[1..]);
      InsertNumeric(s[0], SortByKey(s[1..]));
      var ns := NumericFields(s);
      assert ns[0] == (s[0].0, Numeric(s[0].1)) && ns[1..] == NumericFields(s[1..]);
    }
  }

  /** Forgetting key order and reading booleans as numbers commute. */
  lemma {:induction false} NumericNormal(v: Json)
    ensures Numeric(Normal(v)) == Normal(Numeric(v))
    decreases v, 0
  {
    match v
    case Arr(items) => NumericNormalItems(items);
    case Obj(fields) =>
      NumericNormalFields(fields);
      SortNumeric(NormalFields(fields));
    case _ =>
  }

  lemma {:induction false} NumericNormalItems(items: seq<Json>)
    ensures NumericItems(NormalItems(items)) == NormalItems(NumericItems(items))
    decreases items, 1
  {
    if items != [] {
      NumericNormal(items[0]);
      NumericNormalItems(items[1..]);
    }
  }

  lemma {:induction false} NumericNormalFields(fields: seq<(Text, Json)>)
    ensures NumericFields(NormalFields(fields)) == NormalFields(NumericFields(fields))
    decreases fields, 1
  {
    if fields != [] {
      var f := fields[0];
      assert f.1 < f;
      NumericNormal(f.1);
      NumericNormalFields(fields[1..]);
      assert NormalFields(fields)[1..] == NormalFields(fields[1..]);
      assert NumericFields(fields)[1..] == NumericFields(fields[1..]);
    }
  }

  /** Values with the same canonical text are equal in Python too. */
  lemma SameIsEqual(a: Json, b: Json)
    requires Same(a, b)
    ensures Equal(a, b)
  {
    NumericNormal(a);
    NumericNormal(b);
  }

  /** The converse fails: `True == 1`, but their canonical texts differ. */
  predicate Confused(a: Json, b: Json) {
    Equal(a, b) && !Same(a, b)
  }

  predicate NoBooleans(v: Json) {
    match v
    case Bool(_) => false
    case Arr(items) => forall x :: x in items ==> NoBooleans(x)
    case Obj(fields) => forall f :: f in fields ==> NoBooleans(f.1)
    case _ => true
  }

  lemma {:induction false} NumericKeeps(v: Json)
    requires NoBooleans(v)
    ensures Numeric(v) == v
    decreases v, 0
  {
    match v
    case Arr(items) => NumericKeepsItems(items);
    case Obj(fields) => NumericKeepsFields(fields);
    case _ =>
  }

  lemma {:induction false} NumericKeepsItems(items: seq<Json>)
    requires forall x :: x in items ==> NoBooleans(x)
    ensures NumericItems(items) == items
    decreases items, 1
  {
    if items != [] {
      NumericKeeps(items[0]);
      NumericKeepsItems(items[1..]);
    }
  }

  lemma {:induction false} NumericKeepsFields(fields: seq<(Text, Json)>)
    requires forall f :: f in fields ==> NoBooleans(f.1)
    ensures NumericFields(fields) == fields
    decreases fields, 1
  {
    if fields != [] {
      var f := fields[0];
      assert f.1 < f && f in fields;
      NumericKeeps(f.1);
      NumericKeepsFields(fields[1..]);
    }
  }

  /** Values of one declared type, position by position: Booleans face Booleans. */
  predicate Aligned(a: Json, b: Json)
    decreases a
  {
    || (a.Bool? && b.Bool?) || (NoBooleans(a) && NoBooleans(b))
    || (a.Arr? && b.Arr? && |a.items| == |b.items| && forall i :: 0 <= i < |a.items| ==> Aligned(a.items[i], b.items[i]))
  }

  /** The two equalities coincide on values of one declared type. */
  lemma {:induction false} SameWithinAType(a: Json, b: Json)
    requires Aligned(a, b)
    ensures Equal(a, b) <==> Same(a, b)
    decreases a, 0
  {
    if NoBooleans(a) && NoBooleans(b) {
      NumericKeeps(a);
      NumericKeeps(b);
    } else if a.Arr? {
      SameItemsWithinTypes(a.items, b.items);
    }
  }

  lemma {:induction false} SameItemsWithinTypes(a: seq<Json>, b: seq<Json>)
    requires |a| == |b| && forall i :: 0 <= i < |a| ==> Aligned(a[i], b[i])
    ensures NormalItems(NumericItems(a)) == NormalItems(NumericItems(b)) <==> NormalItems(a) == NormalItems(b)
    decreases a, 1
  {
    if a != [] {
      SameWithinAType(a[0], b[0]);
      SameItemsWithinTypes(a[1..], b[1..]);
      FirstNormal(a);
      FirstNormal(b);
      FirstNormal(NumericItems(a));
      FirstNormal(NumericItems(b));
    }
  }

  lemma FirstNormal(items: seq<Json>)
    requires items != []
    ensures NormalItems(items) != [] && NormalItems(items)[0] == Normal(items[0]) && NormalItems(items)[1..] == NormalItems(items[1..])
  {
  }
}
