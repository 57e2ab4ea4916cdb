/** Replayable certificates over finite tables: partitions, decoder tables and auditability quotients. */
module Certificates {
  import opened Wrappers
  import opened Order
  import opened Canonical
  import opened CanonicalTheorems
  import opened FiniteTables
  import opened InformationOrder
  import opened JsonEquality

  // ----- partitions -----

  datatype Group = Group(value: Value, ids: seq<string>, indexes: seq<nat>)

  function Texts(rows: seq<Row<Value>>): seq<Text> {
    seq(|rows|, i requires 0 <= i < |rows| => KeyText(rows[i].data))
  }

  /** `indexes` are exactly the positions of one key, in order. */
  ghost predicate IsFiber(keys: seq<Text>, indexes: seq<nat>) {
    && indexes != [] && (forall k :: 0 <= k < |indexes| ==> indexes[k] < |keys|)
    && Sorted<int>(IntLess, indexes)
    && (forall i :: 0 <= i < |keys| ==> (i in indexes <==> keys[i] == keys[indexes[0]]))
  }

  /** One fiber for each key, in key order. */
  ghost predicate AreFibers(keys: seq<Text>, fibers: seq<seq<nat>>) {
    && (forall g :: 0 <= g < |fibers| ==> IsFiber(keys, fibers[g]))
    && (forall g, h :: 0 <= g < h < |fibers| ==> TextLess(keys[fibers[g][0]], keys[fibers[h][0]]))
    && (forall i :: 0 <= i < |keys| ==> InSomeFiber(fibers, i))
  }

  ghost predicate InSomeFiber(fibers: seq<seq<nat>>, i: nat) {
    exists g :: 0 <= g < |fibers| && i in fibers[g]
  }

  function FibersOf(groups: seq<Group>): seq<seq<nat>> {
    seq(|groups|, g requires 0 <= g < |groups| => groups[g].indexes)
  }

  /** A group shows the last value written under its key, and the identifiers of its rows. */
  ghost predicate Labelled(rows: seq<Row<Value>>, g: Group) {
    && g.indexes != [] && (forall k :: 0 <= k < |g.indexes| ==> g.indexes[k] < |rows|)
    && g.value == rows[g.indexes[|g.indexes| - 1]].data
    && |g.ids| == |g.indexes| && forall k :: 0 <= k < |g.ids| ==> g.ids[k] == rows[g.indexes[k]].id
  }

  ghost predicate IsPartition(rows: seq<Row<Value>>, groups: seq<Group>) {
    AreFibers(Texts(rows), FibersOf(groups)) && forall g :: 0 <= g < |groups| ==> Labelled(rows, groups[g])
  }

  /** The bucket of one key after the first `n` rows. */
  ghost predicate IsBucket(keys: seq<Text>, n: nat, key: Text, bucket: seq<nat>) {
    && n <= |keys| && bucket != [] && (forall k :: 0 <= k < |bucket| ==> bucket[k] < n)
    && Sorted<int>(IntLess, bucket)
    && (forall i :: 0 <= i < n ==> (i in bucket <==> keys[i] == key))
  }

  /** Every row so far is in the bucket of its key, and each key shows its last value. */
  ghost predicate Bucketed(rows: seq<Row<Value>>, n: nat, buckets: map<Text, seq<nat>>, values: map<Text, Value>) {
    && values.Keys == buckets.Keys && n <= |rows|
    && (forall k :: k in buckets ==> IsBucket(Texts(rows), n, k, buckets[k]) && values[k] == rows[buckets[k][|buckets[k]| - 1]].data)
    && (forall i :: 0 <= i < n ==> Texts(rows)[i] in buckets)
  }

  method Gather(rows: seq<Row<Value>>) returns (buckets: map<Text, seq<nat>>, values: map<Text, Value>)
    ensures Bucketed(rows, |rows|, buckets, values)
  {
    buckets, values := map[], map[];
    for n := 0 to |rows|
      invariant Bucketed(rows, n, buckets, values)
    {
      var key := KeyText(rows[n].data);
      BucketedStep(rows, n, buckets, values);
      buckets := buckets[key := (if key in buckets then buckets[key] else []) + [n]];
      values := values[key := rows[n].data];
    }
  }

  /** `sorted(texts)` */
  method SortTexts(texts: set<Text>) returns (r: seq<Text>)
    ensures forall x :: x in r <==> x in texts
    ensures Sorted(TextLess, r)
  {
    TextOrder();
    r := SortBy(texts, TextLess);
  }

  method Label(rows: seq<Row<Value>>, buckets: map<Text, seq<nat>>, values: map<Text, Value>, sorted: seq<Text>) returns (groups: seq<Group>)
    requires Bucketed(rows, |rows|, buckets, values) && forall k :: k in sorted ==> k in buckets
    ensures |groups| == |sorted| && forall k :: 0 <= k < |sorted| ==> IsGroup(rows, groups[k], buckets, sorted[k])
  {
    groups := [];
    for g := 0 to |sorted|
      invariant |groups| == g
      invariant forall k :: 0 <= k < g ==> IsGroup(rows, groups[k], buckets, sorted[k])
    {
      BucketInRange(rows, buckets, values, sorted[g]);
      groups := groups + [Labelling(rows, values[sorted[g]], buckets[sorted[g]])];
    }
  }

  /** `_partition` */
  method Partition(rows: seq<Row<Value>>) returns (groups: seq<Group>)
    ensures IsPartition(rows, groups)
  {
    var buckets, values := Gather(rows);
    var sorted := SortTexts(buckets.Keys);
    groups := Label(rows, buckets, values, sorted);
    GroupsPartition(rows, buckets, values, sorted, groups);
  }

  lemma GroupsPartition(rows: seq<Row<Value>>, buckets: map<Text, seq<nat>>, values: map<Text, Value>, sorted: seq<Text>, groups: seq<Group>)
    requires Bucketed(rows, |rows|, buckets, values) && Sorted(TextLess, sorted) && forall k :: k in sorted <==> k in buckets
    requires |groups| == |sorted| && forall k :: 0 <= k < |sorted| ==> IsGroup(rows, groups[k], buckets, sorted[k])
    ensures IsPartition(rows, groups)
  {
    var fibers := FibersOf(groups);
    forall g | 0 <= g < |fibers| ensures sorted[g] in buckets && fibers[g] == buckets[sorted[g]] {
      assert IsGroup(rows, groups[g], buckets, sorted[g]);
    }
    FibersFromBuckets(Texts(rows), sorted, buckets, fibers);
  }

  ghost predicate IsGroup(rows: seq<Row<Value>>, g: Group, buckets: map<Text, seq<nat>>, k: Text) {
    k in buckets && g.indexes == buckets[k] && Labelled(rows, g)
  }

  lemma BucketInRange(rows: seq<Row<Value>>, buckets: map<Text, seq<nat>>, values: map<Text, Value>, k: Text)
    requires Bucketed(rows, |rows|, buckets, values) && k in buckets
    ensures forall i :: 0 <= i < |buckets[k]| ==> buckets[k][i] < |rows|
    ensures Labelled(rows, Labelling(rows, values[k], buckets[k]))
  {
    assert IsBucket(Texts(rows), |rows|, k, buckets[k]);
  }

  function Labelling(rows: seq<Row<Value>>, value: Value, indexes: seq<nat>): Group
    requires forall k :: 0 <= k < |indexes| ==> indexes[k] < |rows|
  {
    Group(value, seq(|indexes|, k requires 0 <= k < |indexes| => rows[indexes[k]].id), indexes)
  }

  lemma BucketedStep(rows: seq<Row<Value>>, n: nat, buckets: map<Text, seq<nat>>, values: map<Text, Value>)
    requires n < |rows| && Bucketed(rows, n, buckets, values)
    ensures var key := Texts(rows)[n];
      Bucketed(rows, n + 1, buckets[key := (if key in buckets then buckets[key] else []) + [n]], values[key := rows[n].data])
  {
    var keys := Texts(rows);
    var key := keys[n];
    var bucket := (if key in buckets then buckets[key] else []) + [n];
    BucketGrows(keys, n, key, if key in buckets then buckets[key] else []);
    var buckets' := buckets[key := bucket];
    forall k | k in buckets' ensures IsBucket(keys, n + 1, k, buckets'[k]) {
      if k != key { assert IsBucket(keys, n, k, buckets[k]); }
    }
  }

  lemma BucketGrows(keys: seq<Text>, n: nat, key: Text, bucket: seq<nat>)
    requires n < |keys| && key == keys[n]
    requires IsBucket(keys, n, key, bucket) || (bucket == [] && forall i :: 0 <= i < n ==> keys[i] != key)
    ensures IsBucket(keys, n + 1, key, bucket + [n])
  {
    var grown := bucket + [n];
    forall i | 0 <= i < n + 1 ensures i in grown <==> keys[i] == key {
      if i < n { assert i in grown <==> i in bucket; }
    }
  }

  lemma FibersFromBuckets(keys: seq<Text>, sorted: seq<Text>, buckets: map<Text, seq<nat>>, fibers: seq<seq<nat>>)
    requires forall k :: k in buckets ==> IsBucket(keys, |keys|, k, buckets[k])
    requires forall i :: 0 <= i < |keys| ==> keys[i] in buckets
    requires forall k :: k in sorted <==> k in buckets
    requires forall g, h :: 0 <= g < h < |sorted| ==> TextLess(sorted[g], sorted[h])
    requires |fibers| == |sorted| && forall g :: 0 <= g < |fibers| ==> sorted[g] in buckets && fibers[g] == buckets[sorted[g]]
    ensures AreFibers(keys, fibers)
  {
    forall g | 0 <= g < |fibers| ensures IsFiber(keys, fibers[g]) && keys[fibers[g][0]] == sorted[g] {
      assert IsBucket(keys, |keys|, sorted[g], fibers[g]);
      assert fibers[g][0] in fibers[g];
    }
    forall i | 0 <= i < |keys| ensures InSomeFiber(fibers, i) {
      var g :| 0 <= g < |sorted| && sorted[g] == keys[i];
      assert i in fibers[g];
    }
  }

  /** A table has only one partition. */
  lemma PartitionUnique(rows: seq<Row<Value>>, a: seq<Group>, b: seq<Group>)
    requires IsPartition(rows, a) && IsPartition(rows, b)
    ensures a == b
  {
    FibersUnique(Texts(rows), FibersOf(a), FibersOf(b));
    assert |a| == |FibersOf(a)| && |b| == |FibersOf(b)|;
    forall g | 0 <= g < |a| ensures a[g] == b[g] {
      assert FibersOf(a)[g] == FibersOf(b)[g];
      assert Labelled(rows, a[g]) && Labelled(rows, b[g]);
      assert a[g].ids == b[g].ids;
    }
  }

  function Heads(keys: seq<Text>, fibers: seq<seq<nat>>): seq<Text>
    requires forall g :: 0 <= g < |fibers| ==> fibers[g] != [] && fibers[g][0] < |keys|
  {
    seq(|fibers|, g requires 0 <= g < |fibers| => keys[fibers[g][0]])
  }

  lemma HeadsCover(keys: seq<Text>, fibers: seq<seq<nat>>)
    requires AreFibers(keys, fibers)
    ensures forall k :: k in Heads(keys, fibers) <==> k in keys
  {
    var heads := Heads(keys, fibers);
    forall k | k in keys ensures k in heads {
      var i :| 0 <= i < |keys| && keys[i] == k;
      assert InSomeFiber(fibers, i);
      var g :| 0 <= g < |fibers| && i in fibers[g];
      assert IsFiber(keys, fibers[g]) && heads[g] == k;
    }
  }

  lemma FibersUnique(keys: seq<Text>, a: seq<seq<nat>>, b: seq<seq<nat>>)
    requires AreFibers(keys, a) && AreFibers(keys, b)
    ensures a == b
  {
    TextOrder();
    HeadsCover(keys, a);
    HeadsCover(keys, b);
    var ha, hb := Heads(keys, a), Heads(keys, b);
    assert Sorted(TextLess, ha) && Sorted(TextLess, hb);
    SortedOnce(TextLess, ha, hb);
    assert |a| == |ha| && |b| == |hb|;
    forall g | 0 <= g < |a| ensures a[g] == b[g] {
      assert ha[g] == hb[g];
      assert IsFiber(keys, a[g]) && IsFiber(keys, b[g]);
      FiberUnique(keys, a[g], b[g]);
    }
  }

  lemma FiberUnique(keys: seq<Text>, a: seq<nat>, b: seq<nat>)
    requires IsFiber(keys, a) && IsFiber(keys, b) && keys[a[0]] == keys[b[0]]
    ensures a == b
  {
    assert StrictTotal<int>(IntLess);
    var x: seq<int>, y: seq<int> := a, b;
    forall i ensures i in x <==> i in y {
      if i in x { assert 0 <= i < |keys|; }
      if i in y { assert 0 <= i < |keys|; }
    }
    SortedOnce<int>(IntLess, x, y);
  }

  // ----- decoder tables -----

  function Field(rows: seq<Row<Reading>>): seq<Row<Value>> {
    seq(|rows|, i requires 0 <= i < |rows| => Row(rows[i].id, rows[i].data.value))
  }

  function Claims(rows: seq<Row<Reading>>): seq<Row<Value>> {
    seq(|rows|, i requires 0 <= i < |rows| => Row(rows[i].id, rows[i].data.claim))
  }

  function Readings(rows: seq<Row<Reading>>): seq<Reading> {
    seq(|rows|, i requires 0 <= i < |rows| => rows[i].data)
  }

  /** The first row of each group. The groups are in key order, so the final sort of the table changes nothing. */
  function DecoderTable(rows: seq<Row<Reading>>, groups: seq<Group>): seq<Reading>
    requires IsPartition(Field(rows), groups)
  {
    seq(|groups|, g requires 0 <= g < |groups| =>
      assert Labelled(Field(rows), groups[g]); rows[groups[g].indexes[0]].data)
  }

  /** Entry `k` of the table answers row `r`. */
  ghost predicate Answers(table: seq<Reading>, k: nat, r: Reading) {
    k < |table| && Same(table[k].value, r.value) && Same(table[k].claim, r.claim)
  }

  ghost predicate EvidenceDistinct(table: seq<Reading>) {
    forall k, l :: 0 <= k < l < |table| ==> !Same(table[k].value, table[l].value)
  }

  /** The table is a function on evidence values, and gives every row its claim. */
  ghost predicate TableDecodes(table: seq<Reading>, rows: seq<Reading>) {
    && EvidenceDistinct(table)
    && (forall i :: 0 <= i < |rows| ==> Answered(table, rows[i]))
  }

  ghost predicate Answered(table: seq<Reading>, r: Reading) {
    exists k: nat :: Answers(table, k, r)
  }

  /** The table built when no twin exists is a decoder, sorted by canonical text. */
  lemma InducedDecoder(rows: seq<Row<Reading>>, groups: seq<Group>)
    requires ValidReadings(Readings(rows)) && Factors(Readings(rows)) && IsPartition(Field(rows), groups)
    ensures TableDecodes(DecoderTable(rows, groups), Readings(rows))
    ensures TableSorted(DecoderTable(rows, groups))
  {
    TextOrder();
    var table, readings := DecoderTable(rows, groups), Readings(rows);
    TableEntries(rows, groups);
    forall k, l | 0 <= k < l < |table| ensures !Same(table[k].value, table[l].value) {
      assert TextLess(KeyText(table[k].value), KeyText(table[l].value));
      TextDecides(table[k].value, table[l].value);
    }
    assert EvidenceDistinct(table);
    forall i | 0 <= i < |readings| ensures Answered(table, readings[i]) {
      var k, j := EntryFor(rows, groups, i);
      TextDecides(table[k].value, readings[i].value);
      assert Same(readings[j].value, readings[i].value);
      assert Answers(table, k, readings[i]);
    }
  }

  ghost predicate TableSorted(table: seq<Reading>) {
    forall k, l :: 0 <= k < l < |table| ==> TextLess(KeyText(table[k].value), KeyText(table[l].value))
  }

  lemma TableEntries(rows: seq<Row<Reading>>, groups: seq<Group>)
    requires IsPartition(Field(rows), groups)
    ensures TableSorted(DecoderTable(rows, groups))
    ensures forall k :: 0 <= k < |groups| ==>
              && FibersOf(groups)[k] != [] && FibersOf(groups)[k][0] < |rows|
              && DecoderTable(rows, groups)[k] == Readings(rows)[FibersOf(groups)[k][0]]
  {
    var table, keys, fibers := DecoderTable(rows, groups), Texts(Field(rows)), FibersOf(groups);
    forall k | 0 <= k < |groups| ensures fibers[k] != [] && fibers[k][0] < |rows| && table[k] == Readings(rows)[fibers[k][0]]
      && KeyText(table[k].value) == keys[fibers[k][0]] {
      assert IsFiber(keys, fibers[k]);
    }
  }

  /** The entry of the table that has row `i`'s evidence, and the row `j` it was taken from. */
  lemma EntryFor(rows: seq<Row<Reading>>, groups: seq<Group>, i: nat) returns (k: nat, j: nat)
    requires IsPartition(Field(rows), groups) && i < |rows|
    ensures k < |groups| && j < |rows| && DecoderTable(rows, groups)[k] == rows[j].data
    ensures KeyText(rows[j].data.value) == KeyText(rows[i].data.value)
  {
    var keys, fibers := Texts(Field(rows)), FibersOf(groups);
    assert InSomeFiber(fibers, i);
    k :| 0 <= k < |fibers| && i in fibers[k];
    assert IsFiber(keys, fibers[k]);
    TableEntries(rows, groups);
    j := fibers[k][0];
    assert keys[i] == keys[j];
  }

  // ----- auditability certificates -----

  datatype Twin = Twin(leftId: string, rightId: string, shared: Value, leftClaim: Value, rightClaim: Value)

  datatype Quotient = Quotient(
    claimId: string, evidenceId: string, rows: seq<Row<Reading>>,
    claimPartition: seq<Group>, evidencePartition: seq<Group>,
    decoder: seq<Reading>, twin: Option<Twin>)

  predicate ReadingOk(r: Reading) {
    Printable(r.value) && Printable(r.claim)
  }

  function TwinAt(rows: seq<Row<Reading>>, t: (nat, nat)): Twin
    requires t.0 < |rows| && t.1 < |rows|
  {
    Twin(rows[t.0].id, rows[t.1].id, rows[t.1].data.value, rows[t.0].data.claim, rows[t.1].data.claim)
  }

  /** The twin `_first_twin` reports. */
  function TwinOf(rows: seq<Row<Reading>>): Option<Twin> {
    var t := TwinFrom(KeysOf(Readings(rows)), 0);
    if t.None? then None else Some(TwinAt(rows, t.value))
  }

  /** The certificate belongs to these rows. */
  ghost predicate IsQuotient(rows: seq<Row<Reading>>, c: Quotient) {
    && Normalize(rows, ReadingOk) == Some(c.rows) && IsName(c.claimId) && IsName(c.evidenceId)
    && IsPartition(Claims(c.rows), c.claimPartition) && IsPartition(Field(c.rows), c.evidencePartition)
    && c.twin == TwinOf(c.rows)
    && c.decoder == (if c.twin.None? then DecoderTable(c.rows, c.evidencePartition) else [])
  }

  method BuildDecoder(rows: seq<Row<Reading>>, groups: seq<Group>) returns (decoder: seq<Reading>)
    requires IsPartition(Field(rows), groups)
    ensures decoder == DecoderTable(rows, groups)
  {
    decoder := [];
    for g := 0 to |groups|
      invariant decoder == DecoderTable(rows, groups)[..g]
    {
      assert Labelled(Field(rows), groups[g]);
      decoder := decoder + [rows[groups[g].indexes[0]].data];
    }
  }

  /** `analyze_auditability` */
  method AnalyzeAuditability(claimId: string, evidenceId: string, rows: seq<Row<Reading>>) returns (r: Option<Quotient>)
    ensures r.Some? <==> IsName(claimId) && IsName(evidenceId) && Normalize(rows, ReadingOk).Some?
    ensures r.Some? ==> r.value.claimId == claimId && r.value.evidenceId == evidenceId && IsQuotient(rows, r.value)
  {
    var table := Normalize(rows, ReadingOk);
    if table.None? {
      return None;
    }
    var evidence := Partition(Field(table.value));
    var claims := Partition(Claims(table.value));
    var twin := FirstTwin(Readings(table.value));
    var decoder: seq<Reading> := [];
    if twin.None? {
      decoder := BuildDecoder(table.value, evidence);
    }
    if !IsName(claimId) || !IsName(evidenceId) {
      return None;
    }
    r := Some(Quotient(claimId, evidenceId, table.value, claims, evidence, decoder,
                       if twin.None? then None else Some(TwinAt(table.value, twin.value))));
  }

  lemma AcceptableReadings(rows: seq<Row<Reading>>)
    requires Acceptable(rows, ReadingOk)
    ensures ValidReadings(Readings(rows))
  {
    forall i | 0 <= i < |rows| ensures InProfile(rows[i].data.value) && InProfile(rows[i].data.claim) {
      Defined(rows[i].data.value);
      Defined(rows[i].data.claim);
    }
  }

  lemma FactorsSameRows(a: seq<Row<Reading>>, b: seq<Row<Reading>>)
    requires SameRows(a, b) && Factors(Readings(a))
    ensures Factors(Readings(b))
  {
    var ra, rb := Readings(a), Readings(b);
    forall i, j | 0 <= i < |rb| && 0 <= j < |rb| && Same(rb[i].value, rb[j].value)
      ensures Same(rb[i].claim, rb[j].claim) {
      assert HasRow(a, b[i].id, b[i].data) && HasRow(a, b[j].id, b[j].data);
      var k :| 0 <= k < |a| && a[k].data == b[i].data;
      var l :| 0 <= l < |a| && a[l].data == b[j].data;
      assert ra[k] == rb[i] && ra[l] == rb[j];
    }
  }

  lemma AnsweredSameRows(table: seq<Reading>, a: seq<Row<Reading>>, b: seq<Row<Reading>>)
    requires SameRows(a, b) && TableDecodes(table, Readings(b))
    ensures TableDecodes(table, Readings(a))
  {
    forall i | 0 <= i < |a| ensures Answered(table, Readings(a)[i]) {
      assert HasRow(b, a[i].id, a[i].data);
      var k :| 0 <= k < |b| && b[k].data == a[i].data;
      assert Answered(table, Readings(b)[k]);
    }
  }

  /** What the certificate says of the rows as supplied: without a twin its table decodes every row;
      with one, two of the supplied rows show equal evidence for unequal claims. */
  lemma QuotientMeaning(rows: seq<Row<Reading>>, c: Quotient)
    requires IsQuotient(rows, c)
    ensures c.twin.None? <==> Factors(Readings(rows))
    ensures c.twin.None? ==> TableDecodes(c.decoder, Readings(rows)) && TableSorted(c.decoder)
    ensures c.twin.Some? ==> TwinIn(rows, c.twin.value)
  {
    NormalizedRows(rows, ReadingOk);
    AcceptableReadings(c.rows);
    TwinDecides(Readings(c.rows));
    if Factors(Readings(rows)) { FactorsSameRows(rows, c.rows); }
    if c.twin.None? {
      FactorsSameRows(c.rows, rows);
      InducedDecoder(c.rows, c.evidencePartition);
      AnsweredSameRows(c.decoder, rows, c.rows);
    } else {
      TwinInRows(rows, c.rows);
    }
  }

  ghost predicate TwinIn(rows: seq<Row<Reading>>, t: Twin) {
    exists i, j :: 0 <= i < |rows| && 0 <= j < |rows| && IsTwinOf(rows[i], rows[j], t)
  }

  ghost predicate IsTwinOf(left: Row<Reading>, right: Row<Reading>, t: Twin) {
    && t == Twin(left.id, right.id, right.data.value, left.data.claim, right.data.claim)
    && Same(left.data.value, right.data.value) && !Same(left.data.claim, right.data.claim)
  }

  lemma TwinInRows(rows: seq<Row<Reading>>, table: seq<Row<Reading>>)
    requires SameRows(rows, table) && TwinOf(table).Some? && ValidReadings(Readings(table))
    ensures TwinIn(rows, TwinOf(table).value)
  {
    TwinDecides(Readings(table));
    var t := TwinFrom(KeysOf(Readings(table)), 0).value;
    assert HasRow(rows, table[t.0].id, table[t.0].data) && HasRow(rows, table[t.1].id, table[t.1].data);
    var i :| 0 <= i < |rows| && rows[i].id == table[t.0].id && rows[i].data == table[t.0].data;
    var j :| 0 <= j < |rows| && rows[j].id == table[t.1].id && rows[j].data == table[t.1].data;
    assert Readings(table)[t.0] == rows[i].data && Readings(table)[t.1] == rows[j].data;
    assert IsTwinOf(rows[i], rows[j], TwinOf(table).value);
  }

  /** Rows supplied in another order give the same certificate. */
  lemma QuotientInvariant(rows: seq<Row<Reading>>, rows': seq<Row<Reading>>, c: Quotient, c': Quotient)
    requires multiset(rows) == multiset(rows') && IsQuotient(rows, c) && IsQuotient(rows', c')
    requires c.claimId == c'.claimId && c.evidenceId == c'.evidenceId
    ensures c == c'
  {
    NormalizeIgnoresOrder(rows, rows', ReadingOk);
    PartitionUnique(Claims(c.rows), c.claimPartition, c'.claimPartition);
    PartitionUnique(Field(c.rows), c.evidencePartition, c'.evidencePartition);
  }

  // ----- verification -----

  predicate ReadingsAlike(eq: (Json, Json) -> bool, a: Reading, b: Reading) {
    eq(a.value, b.value) && eq(a.claim, b.claim)
  }

  predicate TablesAlike(eq: (Json, Json) -> bool, a: seq<Reading>, b: seq<Reading>) {
    |a| == |b| && forall i :: 0 <= i < |a| ==> ReadingsAlike(eq, a[i], b[i])
  }

  predicate RowsAlike(eq: (Json, Json) -> bool, a: seq<Row<Reading>>, b: seq<Row<Reading>>) {
    |a| == |b| && forall i :: 0 <= i < |a| ==> a[i].id == b[i].id && ReadingsAlike(eq, a[i].data, b[i].data)
  }

  predicate GroupsAlike(eq: (Json, Json) -> bool, a: seq<Group>, b: seq<Group>) {
    |a| == |b| && forall g :: 0 <= g < |a| ==> a[g].ids == b[g].ids && a[g].indexes == b[g].indexes && eq(a[g].value, b[g].value)
  }

  predicate TwinsAlike(eq: (Json, Json) -> bool, a: Option<Twin>, b: Option<Twin>) {
    if a.None? || b.None? then a == b
    else
      && a.value.leftId == b.value.leftId && a.value.rightId == b.value.rightId && eq(a.value.shared, b.value.shared)
      && eq(a.value.leftClaim, b.value.leftClaim) && eq(a.value.rightClaim, b.value.rightClaim)
  }

  /** The certificates differ at most in JSON values, and those only as far as `eq` does not see. */
  predicate QuotientsAlike(eq: (Json, Json) -> bool, a: Quotient, b: Quotient) {
    && a.claimId == b.claimId && a.evidenceId == b.evidenceId && RowsAlike(eq, a.rows, b.rows)
    && GroupsAlike(eq, a.claimPartition, b.claimPartition) && GroupsAlike(eq, a.evidencePartition, b.evidencePartition)
    && TablesAlike(eq, a.decoder, b.decoder) && TwinsAlike(eq, a.twin, b.twin)
  }

  /** The certificate is equal in Python to the one its own rows produce. */
  ghost predicate Reproduces(c: Quotient) {
    exists d :: IsQuotient(c.rows, d) && QuotientsAlike(Equal, c, d)
  }

  /** Some table produces the certificate. */
  ghost predicate Genuine(c: Quotient) {
    exists rows :: IsQuotient(rows, c)
  }

  /** `verify_auditability_certificate`: accepts exactly the certificates that are equal in Python to what
      their own rows produce. That is so of every genuine one, and the verdict of an accepted one is true. */
  method VerifyAuditabilityCertificate(c: Quotient) returns (ok: bool)
    ensures ok <==> Reproduces(c)
    ensures Genuine(c) ==> ok
    ensures ok ==> (c.twin.None? <==> Factors(Readings(c.rows)))
  {
    var rebuilt := AnalyzeAuditability(c.claimId, c.evidenceId, c.rows);
    ok := rebuilt.Some? && QuotientsAlike(Equal, c, rebuilt.value);
    forall d | IsQuotient(c.rows, d) && QuotientsAlike(Equal, c, d) ensures ok {
      OnlyOneProduced(c, d, rebuilt.value);
    }
    if Genuine(c) { GenuineReproduces(c); }
    if ok { VerdictCarries(c, rebuilt.value); }
  }

  lemma OnlyOneProduced(c: Quotient, d: Quotient, rebuilt: Quotient)
    requires IsQuotient(c.rows, d) && d.claimId == c.claimId && d.evidenceId == c.evidenceId
    requires IsQuotient(c.rows, rebuilt) && rebuilt.claimId == c.claimId && rebuilt.evidenceId == c.evidenceId
    ensures d == rebuilt
  {
    QuotientInvariant(c.rows, c.rows, d, rebuilt);
  }

  lemma GenuineReproduces(c: Quotient)
    requires Genuine(c)
    ensures Reproduces(c)
  {
    var rows :| IsQuotient(rows, c);
    Reproducible(rows, c);
    EqualToItself(c);
  }

  lemma Reproducible(rows: seq<Row<Reading>>, c: Quotient)
    requires IsQuotient(rows, c)
    ensures IsQuotient(c.rows, c)
  {
    NormalizeIdempotent(rows, ReadingOk);
  }

  lemma EqualToItself(c: Quotient)
    ensures QuotientsAlike(Equal, c, c)
  {
  }

  lemma VerdictCarries(c: Quotient, d: Quotient)
    requires IsQuotient(c.rows, d) && QuotientsAlike(Equal, c, d)
    ensures c.twin.None? <==> Factors(Readings(c.rows))
  {
    QuotientMeaning(c.rows, d);
  }

  // ----- accepted certificates that no table produces -----

  /** The certificate has the canonical text of one that some table produces. */
  ghost predicate GenuineText(c: Quotient) {
    exists rows, d :: IsQuotient(rows, d) && QuotientsAlike(Same, c, d)
  }

  lemma SameTexts(a: seq<Row<Value>>, b: seq<Row<Value>>)
    requires |a| == |b| && forall i :: 0 <= i < |a| ==> Same(a[i].data, b[i].data) && Printable(a[i].data) && Printable(b[i].data)
    ensures Texts(a) == Texts(b)
  {
    forall i | 0 <= i < |a| ensures Texts(a)[i] == Texts(b)[i] {
      Defined(a[i].data);
      Defined(b[i].data);
      TextDecides(a[i].data, b[i].data);
    }
  }

  /** Tables that print alike have partitions that print alike. */
  lemma PartitionsAlike(a: seq<Row<Value>>, b: seq<Row<Value>>, ga: seq<Group>, gb: seq<Group>)
    requires |a| == |b| && Texts(a) == Texts(b) && forall i :: 0 <= i < |a| ==> a[i].id == b[i].id && Same(a[i].data, b[i].data)
    requires IsPartition(a, ga) && IsPartition(b, gb)
    ensures FibersOf(ga) == FibersOf(gb) && GroupsAlike(Same, ga, gb)
  {
    FibersUnique(Texts(a), FibersOf(ga), FibersOf(gb));
    assert |ga| == |FibersOf(ga)| && |gb| == |FibersOf(gb)|;
    forall g | 0 <= g < |ga|
      ensures ga[g].ids == gb[g].ids && ga[g].indexes == gb[g].indexes && Same(ga[g].value, gb[g].value) {
      assert FibersOf(ga)[g] == FibersOf(gb)[g];
      assert Labelled(a, ga[g]) && Labelled(b, gb[g]);
      assert ga[g].ids == gb[g].ids;
    }
  }

  lemma DecodersAlike(a: seq<Row<Reading>>, b: seq<Row<Reading>>, ga: seq<Group>, gb: seq<Group>)
    requires RowsAlike(Same, a, b) && IsPartition(Field(a), ga) && IsPartition(Field(b), gb) && FibersOf(ga) == FibersOf(gb)
    ensures TablesAlike(Same, DecoderTable(a, ga), DecoderTable(b, gb))
  {
    assert |ga| == |FibersOf(ga)| && |gb| == |FibersOf(gb)|;
    forall g | 0 <= g < |ga| ensures ReadingsAlike(Same, DecoderTable(a, ga)[g], DecoderTable(b, gb)[g]) {
      assert FibersOf(ga)[g] == FibersOf(gb)[g];
      assert Labelled(Field(a), ga[g]) && Labelled(Field(b), gb[g]);
    }
  }

  lemma TwinsOfAlike(a: seq<Row<Reading>>, b: seq<Row<Reading>>)
    requires RowsAlike(Same, a, b) && Acceptable(a, ReadingOk) && Acceptable(b, ReadingOk)
    ensures TwinsAlike(Same, TwinOf(a), TwinOf(b))
  {
    AcceptableReadings(a);
    AcceptableReadings(b);
    var ka, kb := KeysOf(Readings(a)), KeysOf(Readings(b));
    forall i | 0 <= i < |a| ensures ka[i] == kb[i] {
      assert Readings(a)[i] == a[i].data && Readings(b)[i] == b[i].data;
      TextDecides(a[i].data.value, b[i].data.value);
      TextDecides(a[i].data.claim, b[i].data.claim);
    }
    assert ka == kb;
  }

  /** Tables that print alike have certificates that print alike. */
  lemma QuotientRespectsSame(x: Quotient, y: Quotient)
    requires IsQuotient(x.rows, x) && IsQuotient(y.rows, y)
    requires x.claimId == y.claimId && x.evidenceId == y.evidenceId && RowsAlike(Same, x.rows, y.rows)
    ensures QuotientsAlike(Same, x, y)
  {
    NormalizedRows(x.rows, ReadingOk);
    NormalizedRows(y.rows, ReadingOk);
    ClaimsAlike(x.rows, y.rows, x.claimPartition, y.claimPartition);
    EvidenceAlike(x.rows, y.rows, x.evidencePartition, y.evidencePartition);
    TwinsOfAlike(x.rows, y.rows);
  }

  lemma ClaimsAlike(a: seq<Row<Reading>>, b: seq<Row<Reading>>, ga: seq<Group>, gb: seq<Group>)
    requires RowsAlike(Same, a, b) && Acceptable(a, ReadingOk) && Acceptable(b, ReadingOk)
    requires IsPartition(Claims(a), ga) && IsPartition(Claims(b), gb)
    ensures GroupsAlike(Same, ga, gb)
  {
    SameTexts(Claims(a), Claims(b));
    PartitionsAlike(Claims(a), Claims(b), ga, gb);
  }

  lemma EvidenceAlike(a: seq<Row<Reading>>, b: seq<Row<Reading>>, ga: seq<Group>, gb: seq<Group>)
    requires RowsAlike(Same, a, b) && Acceptable(a, ReadingOk) && Acceptable(b, ReadingOk)
    requires IsPartition(Field(a), ga) && IsPartition(Field(b), gb)
    ensures GroupsAlike(Same, ga, gb) && TablesAlike(Same, DecoderTable(a, ga), DecoderTable(b, gb))
  {
    SameTexts(Field(a), Field(b));
    PartitionsAlike(Field(a), Field(b), ga, gb);
    DecodersAlike(a, b, ga, gb);
  }

  /** Rows listed in the order of their normalization are normalized. */
  lemma AlreadyNormal<D>(rows: seq<Row<D>>, t: seq<Row<D>>, ok: D -> bool)
    requires Normalize(rows, ok) == Some(t)
    requires |rows| == |t| && forall i :: 0 <= i < |rows| ==> rows[i].id == t[i].id
    ensures rows == t
  {
    CollectDistinct(rows);
    forall i | 0 <= i < |rows| ensures rows[i] == t[i] {
      assert Kept(rows, i);
    }
  }

  /** An accepted certificate has the text of a genuine one exactly when its values have the texts of the
      recomputed ones: what slips through differs by a Boolean standing for a number, or the reverse. */
  lemma AcceptedIsGenuineExactly(c: Quotient, d: Quotient)
    requires IsQuotient(c.rows, d) && QuotientsAlike(Equal, c, d)
    ensures GenuineText(c) <==> QuotientsAlike(Same, c, d)
  {
    if rows, g :| IsQuotient(rows, g) && QuotientsAlike(Same, c, g) {
      AlreadyNormal(c.rows, d.rows, ReadingOk);
      Reproducible(rows, g);
      QuotientRespectsSame(d, g);
      SameAsBoth(c, d, g);
    }
  }

  lemma SameAsBoth(c: Quotient, d: Quotient, g: Quotient)
    requires QuotientsAlike(Same, c, g) && QuotientsAlike(Same, d, g)
    ensures QuotientsAlike(Same, c, d)
  {
  }

  /** Accepted although no table produces it: the decoder answers 1 where the claim is `True`. */
  lemma NumberForBoolean(g: Quotient)
    requires g.rows == [Row("a", Reading(Null, Bool(true)))] && IsQuotient(g.rows, g)
    ensures var c := g.(decoder := [Reading(Null, Int(1))]); Reproduces(c) && !GenuineText(c)
  {
    var c := g.(decoder := [Reading(Null, Int(1))]);
    SingleRow(g);
    assert QuotientsAlike(Equal, c, g);
    AcceptedIsGenuineExactly(c, g);
    assert !ReadingsAlike(Same, c.decoder[0], g.decoder[0]);
  }

  lemma SingleRow(g: Quotient)
    requires |g.rows| == 1 && IsQuotient(g.rows, g)
    ensures g.twin.None? && g.decoder == [g.rows[0].data]
  {
    SingleTwin(KeysOf(Readings(g.rows)));
    SingleFiber(Texts(Field(g.rows)), FibersOf(g.evidencePartition));
    TableEntries(g.rows, g.evidencePartition);
  }

  lemma SingleTwin(keys: seq<Keys>)
    requires |keys| == 1
    ensures TwinFrom(keys, 0).None?
  {
    assert FirstWith(keys, keys[0].key, 0).None? && TwinFrom(keys, 1).None?;
  }

  lemma SingleFiber(keys: seq<Text>, fibers: seq<seq<nat>>)
    requires |keys| == 1 && AreFibers(keys, fibers)
    ensures fibers == [[0]]
  {
    var only: seq<seq<nat>> := [[0]];
    assert IsFiber(keys, [0]) && only[0] == [0] && InSomeFiber(only, 0);
    FibersUnique(keys, fibers, only);
  }

  function TwoRows(first: Value): (r: seq<Row<Reading>>)
    ensures |r| == 2
  {
    [Row("a", Reading(first, Int(0))), Row("b", Reading(Int(1), Int(2)))]
  }

  lemma TrueFactorsOneDoesNot()
    ensures RowsAlike(Equal, TwoRows(Int(1)), TwoRows(Bool(true)))
    ensures Factors(Readings(TwoRows(Bool(true)))) && !Factors(Readings(TwoRows(Int(1))))
  {
    TwoReadings(TwoRows(Bool(true)));
    TwoReadings(TwoRows(Int(1)));
  }

  /** Being equal in Python to a genuine certificate is not enough: with `True` in the rows replaced by 1 the
      rows have a twin, and the certificate is refused. */
  lemma EqualToGenuineIsNotEnough(g: Quotient)
    requires g.rows == TwoRows(Bool(true)) && IsQuotient(g.rows, g)
    ensures var c := g.(rows := TwoRows(Int(1))); QuotientsAlike(Equal, c, g) && !Reproduces(c)
  {
    TrueFactorsOneDoesNot();
    NoTwin(g);
    RowsReplaced(g, TwoRows(Int(1)));
  }

  lemma NoTwin(g: Quotient)
    requires IsQuotient(g.rows, g) && Factors(Readings(g.rows))
    ensures g.twin.None?
  {
    QuotientMeaning(g.rows, g);
  }

  lemma RowsReplaced(g: Quotient, rows: seq<Row<Reading>>)
    requires RowsAlike(Equal, rows, g.rows) && g.twin.None? && !Factors(Readings(rows))
    ensures var c := g.(rows := rows); QuotientsAlike(Equal, c, g) && !Reproduces(c)
  {
    var c := g.(rows := rows);
    forall d | IsQuotient(c.rows, d) && QuotientsAlike(Equal, c, d) ensures false {
      VerdictCarries(c, d);
    }
  }

  lemma TwoReadings(rows: seq<Row<Reading>>)
    requires |rows| == 2
    ensures Factors(Readings(rows)) <==>
              (Same(rows[0].data.value, rows[1].data.value) ==> Same(rows[0].data.claim, rows[1].data.claim))
  {
    var r := Readings(rows);
    assert r[0] == rows[0].data && r[1] == rows[1].data;
  }
}
