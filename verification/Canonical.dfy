/** Canonical JSON under the no-float profile of RFC 8785, and the strict reader for it.
    Text is a sequence of code points, so that unpaired surrogates can occur and be refused. */
module Canonical {
  import opened Wrappers
  import opened Order

  type CodePoint = c: int | 0 <= c < 0x110000

  type Text = seq<CodePoint>

  datatype Json =
    | Null
    | Bool(b: bool)
    | Int(i: int)
    | Str(s: Text)
    | Arr(items: seq<Json>)
    | Obj(fields: seq<(Text, Json)>)   // a dict in insertion order

  const IJSON_MAX: int := 9_007_199_254_740_991

  const NULL: Text := [110, 117, 108, 108]
  const TRUE: Text := [116, 114, 117, 101]
  const FALSE: Text := [102, 97, 108, 115, 101]

  // ----- key order -----

  predicate IntLess(a: int, b: int) {
    a < b
  }

  /** Python's order on `str`: by code point. */
  predicate TextLess(a: Text, b: Text) {
    LexLess<int>(IntLess, a, b)
  }

  lemma TextOrder()
    ensures StrictTotal(TextLess)
  {
    assert StrictTotal<int>(IntLess);
    forall a: Text, b: Text, c: Text | TextLess(a, b) && TextLess(b, c) ensures TextLess(a, c) {
      LexTransitive<int>(IntLess, a, b, c);
    }
    forall a: Text, b: Text ensures (a == b || TextLess(a, b) || TextLess(b, a)) && !TextLess(a, a) {
      LexConnected<int>(IntLess, a, b);
    }
  }

  /** The code units of one code point (Rust's `encode_utf16`). */
  function Units(c: CodePoint): seq<int> {
    if c < 0x10000 then [c] else [0xD800 + (c - 0x10000) / 0x400, 0xDC00 + (c - 0x10000) % 0x400]
  }

  function Utf16Units(s: Text): seq<int> {
    if s == [] then [] else Units(s[0]) + Utf16Units(s[1..])
  }

  function Bytes(units: seq<int>): seq<int> {
    if units == [] then [] else [units[0] / 0x100, units[0] % 0x100] + Bytes(units[1..])
  }

  /** Python's key: `value.encode("utf-16-be")`. */
  function Utf16Bytes(s: Text): seq<int> {
    Bytes(Utf16Units(s))
  }

  predicate KeyLess(a: Text, b: Text) {
    LexLess(IntLess, Utf16Bytes(a), Utf16Bytes(b))
  }

  predicate IsSurrogate(c: CodePoint) {
    0xD800 <= c <= 0xDFFF
  }

  predicate Scalar(s: Text) {
    forall c :: c in s ==> !IsSurrogate(c)
  }

  lemma {:induction false} BytesOrder(a: seq<int>, b: seq<int>)
    requires forall i :: 0 <= i < |a| ==> 0 <= a[i] < 0x10000
    requires forall i :: 0 <= i < |b| ==> 0 <= b[i] < 0x10000
    ensures LexLess(IntLess, Bytes(a), Bytes(b)) <==> LexLess(IntLess, a, b)
  {
    if a != [] && b != [] {
      BytesOrder(a[1..], b[1..]);
      var ba, bb := Bytes(a), Bytes(b);
      assert ba[1..][1..] == Bytes(a[1..]) && bb[1..][1..] == Bytes(b[1..]);
      assert ba[1..][0] == a[0] % 0x100 && bb[1..][0] == b[0] % 0x100;
    }
  }

  lemma {:induction false} UnitsInRange(s: Text)
    ensures forall i :: 0 <= i < |Utf16Units(s)| ==> 0 <= Utf16Units(s)[i] < 0x10000
  {
    if s != [] { UnitsInRange(s[1..]); }
  }

  /** The byte order Python sorts by is the code-unit order Rust sorts by, the order required by
      section 3.2.3 of RFC 8785. */
  lemma PythonAndRustKeyOrderAgree(a: Text, b: Text)
    ensures KeyLess(a, b) <==> LexLess(IntLess, Utf16Units(a), Utf16Units(b))
  {
    UnitsInRange(a);
    UnitsInRange(b);
    BytesOrder(Utf16Units(a), Utf16Units(b));
  }

  /** It is not code point order: U+10000 sorts before U+FFFF. */
  lemma KeyOrderIsNotCodePointOrder()
    ensures KeyLess([0x10000], [0xFFFF]) && LexLess(IntLess, [0xFFFF], [0x10000])
  {
    PythonAndRustKeyOrderAgree([0x10000], [0xFFFF]);
    assert Utf16Units([0x10000]) == [0xD800, 0xDC00];
    assert Utf16Units([0xFFFF]) == [0xFFFF];
  }

  lemma {:induction false} UnitsInjective(a: Text, b: Text)
    requires Scalar(a) && Scalar(b) && Utf16Units(a) == Utf16Units(b)
    ensures a == b
  {
    if a == [] || b == [] {
    } else {
      var ua, ub := Utf16Units(a), Utf16Units(b);
      assert ua[0] == Units(a[0])[0] && ub[0] == Units(b[0])[0];
      assert a[0] in a && b[0] in b;
      assert !IsSurrogate(a[0]) && !IsSurrogate(b[0]);
      assert |Units(a[0])| == 2 ==> ua[1] == Units(a[0])[1];
      assert |Units(b[0])| == 2 ==> ub[1] == Units(b[0])[1];
      assert a[0] == b[0];
      assert ua[|Units(a[0])|..] == Utf16Units(a[1..]) && ub[|Units(b[0])|..] == Utf16Units(b[1..]);
      UnitsInjective(a[1..], b[1..]);
      assert a == [a[0]] + a[1..] && b == [b[0]] + b[1..];
    }
  }

  lemma KeyTransitive(a: Text, b: Text, c: Text)
    requires KeyLess(a, b) && KeyLess(b, c)
    ensures KeyLess(a, c)
  {
    assert StrictTotal(IntLess);
    LexTransitive(IntLess, Utf16Bytes(a), Utf16Bytes(b), Utf16Bytes(c));
  }

  lemma KeyConnected(a: Text, b: Text)
    requires Scalar(a) && Scalar(b)
    ensures a == b || KeyLess(a, b) || KeyLess(b, a)
    ensures !(KeyLess(a, b) && KeyLess(b, a)) && !KeyLess(a, a)
  {
    PythonAndRustKeyOrderAgree(a, b);
    PythonAndRustKeyOrderAgree(b, a);
    PythonAndRustKeyOrderAgree(a, a);
    assert StrictTotal(IntLess);
    LexConnected(IntLess, Utf16Units(a), Utf16Units(b));
    if Utf16Units(a) == Utf16Units(b) { UnitsInjective(a, b); }
    if KeyLess(a, b) && KeyLess(b, a) { KeyTransitive(a, b, a); }
  }

  // ----- sorting the fields of an object -----

  function Insert<T>(e: (Text, T), sorted: seq<(Text, T)>): seq<(Text, T)> {
    if sorted == [] || !KeyLess(sorted[0].0, e.0) then [e] + sorted
    else [sorted[0]] + Insert(e, sorted[1..])
  }

  /** `sorted(value, key=_utf16_sort_key)`, keeping each key's value. */
  function SortByKey<T>(fields: seq<(Text, T)>): seq<(Text, T)> {
    if fields == [] then [] else Insert(fields[0], SortByKey(fields[1..]))
  }

  // ----- printing -----

  function Hex(d: int): CodePoint
    requires 0 <= d < 16
  {
    if d < 10 then 48 + d else 87 + d
  }

  /** The escapes of section 3.2.2.2 of RFC 8785. */
  function EscapeChar(c: CodePoint): Text {
    if c == 34 then [92, 34]
    else if c == 92 then [92, 92]
    else if c == 8 then [92, 98]
    else if c == 9 then [92, 116]
    else if c == 10 then [92, 110]
    else if c == 12 then [92, 102]
    else if c == 13 then [92, 114]
    else if c <= 0x1F then [92, 117, 48, 48, Hex(c / 16), Hex(c % 16)]
    else [c]
  }

  function Escape(s: Text): Option<Text> {
    if s == [] then Some([])
    else if IsSurrogate(s[0]) then None
    else
      var rest := Escape(s[1..]);
      if rest.None? then None else Some(EscapeChar(s[0]) + rest.value)
  }

  function Quote(s: Text): Option<Text> {
    var body := Escape(s);
    if body.None? then None else Some([34] + body.value + [34])
  }

  function Digits(n: nat): Text {
    if n < 10 then [48 + n] else Digits(n / 10) + [48 + n % 10]
  }

  function IntText(i: int): Text {
    if i < 0 then [45] + Digits(-i) else Digits(i)
  }

  /** `",".join(parts)` */
  function Join(parts: seq<Text>): Text {
    if parts == [] then []
    else if |parts| == 1 then parts[0]
    else parts[0] + [44] + Join(parts[1..])
  }

  function FieldTexts(entries: seq<(Text, Text)>): Option<seq<Text>> {
    if entries == [] then Some([])
    else
      var key, rest := Quote(entries[0].0), FieldTexts(entries[1..]);
      if key.None? || rest.None? then None else Some([key.value + [58] + entries[0].1] + rest.value)
  }

  /** `canonical_json`: refuses integers outside the I-JSON range and unpaired surrogates. */
  function CanonicalJson(v: Json): Option<Text> {
    match v
    case Null => Some(NULL)
    case Bool(b) => Some(if b then TRUE else FALSE)
    case Int(i) => if -IJSON_MAX <= i <= IJSON_MAX then Some(IntText(i)) else None
    case Str(s) => Quote(s)
    case Arr(items) =>
      var texts := CanonicalItems(items);
      if texts.None? then None else Some([91] + Join(texts.value) + [93])
    case Obj(fields) =>
      var entries := CanonicalEntries(fields);
      if entries.None? then None
      else
        var texts := FieldTexts(SortByKey(entries.value));
        if texts.None? then None else Some([123] + Join(texts.value) + [125])
  }

  function CanonicalItems(items: seq<Json>): Option<seq<Text>> {
    if items == [] then Some([])
    else
      var first, rest := CanonicalJson(items[0]), CanonicalItems(items[1..]);
      if first.None? || rest.None? then None else Some([first.value] + rest.value)
  }

  function CanonicalEntries(fields: seq<(Text, Json)>): Option<seq<(Text, Text)>> {
    if fields == [] then Some([])
    else
      var f := fields[0];
      assert f.1 < f;
      var first, rest := CanonicalJson(f.1), CanonicalEntries(fields[1..]);
      if first.None? || rest.None? then None else Some([(f.0, first.value)] + rest.value)
  }

  // ----- the profile -----

  predicate DistinctKeys<T>(fields: seq<(Text, T)>) {
    forall i, j :: 0 <= i < j < |fields| ==> fields[i].0 != fields[j].0
  }

  /** What every dict guarantees: keys are unique, at every depth. */
  ghost predicate WellFormed(v: Json) {
    match v
    case Arr(items) => forall x :: x in items ==> WellFormed(x)
    case Obj(fields) => DistinctKeys(fields) && forall f :: f in fields ==> WellFormed(f.1)
    case _ => true
  }

  /** The values of the Core wire profile. */
  ghost predicate InProfile(v: Json) {
    match v
    case Int(i) => -IJSON_MAX <= i <= IJSON_MAX
    case Str(s) => Scalar(s)
    case Arr(items) => forall x :: x in items ==> InProfile(x)
    case Obj(fields) => forall f :: f in fields ==> Scalar(f.0) && InProfile(f.1)
    case _ => true
  }

  /** Forgetting the insertion order of keys: two values are equal as Python dicts and lists when their
      normal forms are equal. */
  function Normal(v: Json): Json {
    match v
    case Arr(items) => Arr(NormalItems(items))
    case Obj(fields) => Obj(SortByKey(NormalFields(fields)))
    case _ => v
  }

  function NormalItems(items: seq<Json>): seq<Json> {
    if items == [] then [] else [Normal(items[0])] + NormalItems(items[1..])
  }

  function NormalFields(fields: seq<(Text, Json)>): seq<(Text, Json)> {
    if fields == [] then []
    else
      var f := fields[0];
      assert f.1 < f;
      [(f.0, Normal(f.1))] + NormalFields(fields[1..])
  }

  // ----- facts about sorting by key -----

  ghost predicate Has<T>(s: seq<(Text, T)>, f: (Text, T)) {
    exists k :: 0 <= k < |s| && s[k] == f
  }

  ghost predicate SameFields<T>(a: seq<(Text, T)>, b: seq<(Text, T)>) {
    (forall i :: 0 <= i < |a| ==> Has(b, a[i])) && (forall i :: 0 <= i < |b| ==> Has(a, b[i]))
  }

  ghost predicate Fresh<T>(k: Text, s: seq<(Text, T)>) {
    forall i :: 0 <= i < |s| ==> s[i].0 != k
  }

  ghost predicate ScalarKeys<T>(s: seq<(Text, T)>) {
    forall i :: 0 <= i < |s| ==> Scalar(s[i].0)
  }

  ghost predicate Ascending<T>(s: seq<(Text, T)>) {
    forall i, j :: 0 <= i < j < |s| ==> KeyLess(s[i].0, s[j].0)
  }

  lemma HasTail<T>(s: seq<(Text, T)>, f: (Text, T))
    requires s != []
    ensures Has(s, f) <==> f == s[0] || Has(s[1..], f)
  {
    if Has(s, f) && f != s[0] {
      var k :| 0 <= k < |s| && s[k] == f;
      assert s[1..][k - 1] == f;
    }
    if Has(s[1..], f) {
      var k :| 0 <= k < |s[1..]| && s[1..][k] == f;
      assert s[k + 1] == f;
    }
  }

  lemma {:induction false} InsertHas<T>(e: (Text, T), s: seq<(Text, T)>, f: (Text, T))
    ensures |Insert(e, s)| == |s| + 1
    ensures Has(Insert(e, s), f) <==> f == e || Has(s, f)
  {
    var r := Insert(e, s);
    HasTail(r, f);
    if s != [] && KeyLess(s[0].0, e.0) {
      InsertHas(e, s[1..], f);
      HasTail(s, f);
    } else {
      assert r[1..] == s;
    }
  }

  lemma {:induction false} SortHas<T>(s: seq<(Text, T)>, f: (Text, T))
    ensures |SortByKey(s)| == |s|
    ensures Has(SortByKey(s), f) <==> Has(s, f)
  {
    if s != [] {
      SortHas(s[1..], f);
      InsertHas(s[0], SortByKey(s[1..]), f);
      HasTail(s, f);
    }
  }

  lemma SortSameFields<T>(s: seq<(Text, T)>)
    ensures |SortByKey(s)| == |s| && SameFields(SortByKey(s), s)
    ensures ScalarKeys(s) ==> ScalarKeys(SortByKey(s))
    ensures forall k :: Fresh(k, s) ==> Fresh(k, SortByKey(s))
  {
    var r := SortByKey(s);
    if s != [] { SortHas(s, s[0]); }
    forall i | 0 <= i < |r| ensures Has(s, r[i]) {
      assert Has(r, r[i]);
      SortHas(s, r[i]);
    }
    forall i | 0 <= i < |s| ensures Has(r, s[i]) {
      assert Has(s, s[i]);
      SortHas(s, s[i]);
    }
  }

  lemma {:induction false} InsertDistinct<T>(e: (Text, T), s: seq<(Text, T)>)
    requires DistinctKeys(s) && Fresh(e.0, s)
    ensures DistinctKeys(Insert(e, s))
  {
    if s != [] && KeyLess(s[0].0, e.0) {
      InsertDistinct(e, s[1..]);
      var r := Insert(e, s[1..]);
      forall j | 0 <= j < |r| ensures r[j].0 != s[0].0 {
        assert Has(r, r[j]);
        InsertHas(e, s[1..], r[j]);
        if r[j] != e { var k :| 0 <= k < |s[1..]| && s[1..][k] == r[j]; }
      }
    }
  }

  lemma {:induction false} SortDistinct<T>(s: seq<(Text, T)>)
    requires DistinctKeys(s)
    ensures DistinctKeys(SortByKey(s))
  {
    if s != [] {
      SortDistinct(s[1..]);
      SortSameFields(s[1..]);
      assert Fresh(s[0].0, s[1..]);
      InsertDistinct(s[0], SortByKey(s[1..]));
    }
  }

  lemma {:induction false} InsertAscending<T>(e: (Text, T), s: seq<(Text, T)>)
    requires Ascending(s) && Fresh(e.0, s) && Scalar(e.0) && ScalarKeys(s)
    ensures Ascending(Insert(e, s))
  {
    if s != [] {
      KeyConnected(s[0].0, e.0);
      if KeyLess(s[0].0, e.0) {
        InsertAscending(e, s[1..]);
        var r := Insert(e, s[1..]);
        forall j | 0 <= j < |r| ensures KeyLess(s[0].0, r[j].0) {
          assert Has(r, r[j]);
          InsertHas(e, s[1..], r[j]);
          if r[j] != e { var k :| 0 <= k < |s[1..]| && s[1..][k] == r[j]; }
        }
      } else {
        forall j | 0 <= j < |s| ensures KeyLess(e.0, s[j].0) {
          if j > 0 { KeyTransitive(e.0, s[0].0, s[j].0); }
        }
      }
    }
  }

  lemma {:induction false} SortAscending<T>(s: seq<(Text, T)>)
    requires DistinctKeys(s) && ScalarKeys(s)
    ensures Ascending(SortByKey(s))
  {
    if s != [] {
      SortAscending(s[1..]);
      SortSameFields(s[1..]);
      assert Fresh(s[0].0, s[1..]);
      InsertAscending(s[0], SortByKey(s[1..]));
    }
  }

  /** An ascending listing is determined by its fields. */
  lemma {:induction false} AscendingUnique<T>(a: seq<(Text, T)>, b: seq<(Text, T)>)
    requires Ascending(a) && Ascending(b) && SameFields(a, b)
    requires ScalarKeys(a) && ScalarKeys(b)
    ensures a == b
  {
    assert a != [] ==> Has(b, a[0]);
    assert b != [] ==> Has(a, b[0]);
    if a != [] && b != [] {
      KeyConnected(a[0].0, b[0].0);
      assert a[0] == b[0];
      forall i | 0 <= i < |a[1..]| ensures Has(b[1..], a[1..][i]) {
        assert Has(b, a[i + 1]);
        HasTail(b, a[i + 1]);
        KeyConnected(a[0].0, a[0].0);
      }
      forall i | 0 <= i < |b[1..]| ensures Has(a[1..], b[1..][i]) {
        assert Has(a, b[i + 1]);
        HasTail(a, b[i + 1]);
        KeyConnected(b[0].0, b[0].0);
      }
      AscendingUnique(a[1..], b[1..]);
      assert a == [a[0]] + a[1..] && b == [b[0]] + b[1..];
    }
  }

  /** The insertion order of keys does not matter. */
  lemma SortIgnoresOrder<T>(a: seq<(Text, T)>, b: seq<(Text, T)>)
    requires DistinctKeys(a) && DistinctKeys(b) && SameFields(a, b) && ScalarKeys(a) && ScalarKeys(b)
    ensures SortByKey(a) == SortByKey(b)
  {
    SortSameFields(a);
    SortSameFields(b);
    SortAscending(a);
    SortAscending(b);
    var ra, rb := SortByKey(a), SortByKey(b);
    forall i | 0 <= i < |ra| ensures Has(rb, ra[i]) {
      assert Has(ra, ra[i]);
      SortHas(a, ra[i]);
      SortHas(b, ra[i]);
      var k :| 0 <= k < |a| && a[k] == ra[i];
      assert Has(b, a[k]);
    }
    forall i | 0 <= i < |rb| ensures Has(ra, rb[i]) {
      assert Has(rb, rb[i]);
      SortHas(b, rb[i]);
      SortHas(a, rb[i]);
      var k :| 0 <= k < |b| && b[k] == rb[i];
      assert Has(a, b[k]);
    }
    AscendingUnique(ra, rb);
  }
}
