/** Factorization of claims through finite evidence channels, and the twins that obstruct it. */
module InformationOrder {
  import opened Wrappers
  import opened Canonical
  import opened CanonicalTheorems
  import opened JsonEquality

  /** What one row of a finite channel shows and what it should let one conclude. */
  datatype Reading = Reading(value: Value, claim: Value)

  ghost predicate ValidReadings(rows: seq<Reading>) {
    forall i :: 0 <= i < |rows| ==> InProfile(rows[i].value) && InProfile(rows[i].claim)
  }

  /** Equal evidence never hides unequal claims: the claim factors through the evidence. */
  ghost predicate Factors(rows: seq<Reading>) {
    forall i, j :: 0 <= i < |rows| && 0 <= j < |rows| && Same(rows[i].value, rows[j].value) ==> Same(rows[i].claim, rows[j].claim)
  }

  /** A decoder that recovers every claim from the evidence alone. */
  ghost predicate Decodes(decoder: map<Json, Json>, rows: seq<Reading>) {
    forall i :: 0 <= i < |rows| ==> DecodesRow(decoder, rows, i)
  }

  ghost predicate DecodesRow(decoder: map<Json, Json>, rows: seq<Reading>, i: nat)
    requires i < |rows|
  {
    Normal(rows[i].value) in decoder && decoder[Normal(rows[i].value)] == Normal(rows[i].claim)
  }

  /** Factorization is the existence of a decoder. */
  lemma {:induction false} FactorsIffDecodes(rows: seq<Reading>)
    ensures Factors(rows) <==> exists d :: Decodes(d, rows)
  {
    if d :| Decodes(d, rows) {
      forall i, j | 0 <= i < |rows| && 0 <= j < |rows| && Same(rows[i].value, rows[j].value)
        ensures Same(rows[i].claim, rows[j].claim) {
        assert DecodesRow(d, rows, i) && DecodesRow(d, rows, j);
      }
    }
    if Factors(rows) && rows != [] {
      var init, last := rows[..|rows| - 1], rows[|rows| - 1];
      assert Factors(init);
      FactorsIffDecodes(init);
      var d :| Decodes(d, init);
      var d' := d[Normal(last.value) := Normal(last.claim)];
      forall i | 0 <= i < |rows| ensures DecodesRow(d', rows, i) {
        if i < |init| {
          assert init[i] == rows[i] && DecodesRow(d, init, i);
          assert Same(rows[i].value, last.value) ==> Same(rows[i].claim, rows[|rows| - 1].claim);
        }
      }
      assert Decodes(d', rows);
    } else if Factors(rows) {
      assert Decodes(map[], rows);
    }
  }

  // ----- twins -----

  function KeyText(v: Json): Text {
    var t := CanonicalJson(v);
    if t.Some? then t.value else []
  }

  lemma TextDecides(a: Value, b: Value)
    requires InProfile(a) && InProfile(b)
    ensures KeyText(a) == KeyText(b) <==> Same(a, b)
  {
    RoundTrip(a);
    RoundTrip(b);
    Injective(a, b);
  }

  /** The canonical texts of a row, by which rows are compared. */
  datatype Keys = Keys(key: Text, claim: Text)

  function KeysOf(rows: seq<Reading>): seq<Keys> {
    seq(|rows|, i requires 0 <= i < |rows| => Keys(KeyText(rows[i].value), KeyText(rows[i].claim)))
  }

  /** The least row before `n` with the given evidence text. */
  function FirstWith(keys: seq<Keys>, key: Text, n: nat): (r: Option<nat>)
    requires n <= |keys|
    ensures r.Some? ==> r.value < n && keys[r.value].key == key
    ensures forall i :: 0 <= i < n && keys[i].key == key ==> r.Some? && r.value <= i
  {
    if n == 0 then None
    else
      var r := FirstWith(keys, key, n - 1);
      if r.Some? then r else if keys[n - 1].key == key then Some(n - 1) else None
  }

  /** The first row, from `n` on, whose claim differs from that of the first row with the same evidence. */
  function TwinFrom(keys: seq<Keys>, n: nat): (r: Option<(nat, nat)>)
    requires n <= |keys|
    ensures r.Some? ==> r.value.0 < r.value.1 < |keys|
    decreases |keys| - n
  {
    if n == |keys| then None
    else
      var prior := FirstWith(keys, keys[n].key, n);
      if prior.Some? && keys[prior.value].claim != keys[n].claim then Some((prior.value, n))
      else TwinFrom(keys, n + 1)
  }

  ghost predicate IsTwin(rows: seq<Reading>, t: (nat, nat)) {
    && t.0 < t.1 < |rows| && Same(rows[t.0].value, rows[t.1].value) && !Same(rows[t.0].claim, rows[t.1].claim)
  }

  /** `_first_twin`: one pass over buckets keyed by canonical text. */
  method FirstTwin(rows: seq<Reading>) returns (twin: Option<(nat, nat)>)
    ensures twin == TwinFrom(KeysOf(rows), 0)
  {
    ghost var keys := KeysOf(rows);
    var buckets: map<Text, (nat, Text)> := map[];
    for n := 0 to |rows|
      invariant TwinFrom(keys, 0) == TwinFrom(keys, n)
      invariant forall k :: k in buckets <==> FirstWith(keys, k, n).Some?
      invariant forall k :: k in buckets ==> buckets[k] == (FirstWith(keys, k, n).value, keys[FirstWith(keys, k, n).value].claim)
    {
      var key, claim := KeyText(rows[n].value), KeyText(rows[n].claim);
      assert keys[n] == Keys(key, claim);
      if key in buckets && buckets[key].1 != claim {
        return Some((buckets[key].0, n));
      }
      if key !in buckets {
        buckets := buckets[key := (n, claim)];
      }
    }
    twin := None;
  }

  /** No twin is found exactly when the claim factors; a twin that is found is a genuine one. */
  lemma TwinDecides(rows: seq<Reading>)
    requires ValidReadings(rows)
    ensures TwinFrom(KeysOf(rows), 0).None? <==> Factors(rows)
    ensures TwinFrom(KeysOf(rows), 0).Some? ==> IsTwin(rows, TwinFrom(KeysOf(rows), 0).value)
  {
    var keys := KeysOf(rows);
    forall i, j | 0 <= i < |rows| && 0 <= j < |rows|
      ensures keys[i].key == keys[j].key <==> Same(rows[i].value, rows[j].value)
      ensures keys[i].claim == keys[j].claim <==> Same(rows[i].claim, rows[j].claim) {
      TextDecides(rows[i].value, rows[j].value);
      TextDecides(rows[i].claim, rows[j].claim);
    }
    TwinFromSound(keys, 0);
  }

  lemma {:induction false} TwinFromSound(keys: seq<Keys>, n: nat)
    requires n <= |keys|
    ensures var t := TwinFrom(keys, n);
      t.Some? ==> keys[t.value.0].key == keys[t.value.1].key && keys[t.value.0].claim != keys[t.value.1].claim
    ensures TwinFrom(keys, n).None? && (forall j :: 0 <= j < n ==> Unopposed(keys, j)) ==>
      forall i, j :: 0 <= i < |keys| && 0 <= j < |keys| && keys[i].key == keys[j].key ==> keys[i].claim == keys[j].claim
    decreases |keys| - n
  {
    if n < |keys| {
      TwinFromSound(keys, n + 1);
    } else if forall j :: 0 <= j < n ==> Unopposed(keys, j) {
      forall i, j | 0 <= i < |keys| && 0 <= j < |keys| && keys[i].key == keys[j].key ensures keys[i].claim == keys[j].claim {
        AgreesWithFirst(keys, i);
        AgreesWithFirst(keys, j);
      }
    }
  }

  /** Row `j` claims what the first row with its evidence claims. */
  ghost predicate Unopposed(keys: seq<Keys>, j: nat)
    requires j < |keys|
  {
    var prior := FirstWith(keys, keys[j].key, j);
    prior.Some? ==> keys[prior.value].claim == keys[j].claim
  }

  lemma {:induction false} FirstStable(keys: seq<Keys>, key: Text, n: nat, m: nat)
    requires n <= m <= |keys| && FirstWith(keys, key, n).Some?
    ensures FirstWith(keys, key, m) == FirstWith(keys, key, n)
    decreases m
  {
    if n < m { FirstStable(keys, key, n, m - 1); }
  }

  lemma AgreesWithFirst(keys: seq<Keys>, j: nat)
    requires j < |keys| && Unopposed(keys, j)
    ensures FirstWith(keys, keys[j].key, |keys|).Some?
    ensures keys[FirstWith(keys, keys[j].key, |keys|).value].claim == keys[j].claim
  {
    var key := keys[j].key;
    if FirstWith(keys, key, j).Some? {
      FirstStable(keys, key, j, |keys|);
    } else {
      assert FirstWith(keys, key, j + 1) == Some(j);
      FirstStable(keys, key, j + 1, |keys|);
    }
  }

  /** The documented limit on repair: if evidence already merges two rows with different claims, no
      deterministic post-processing of it can tell them apart again. */
  lemma PostprocessingCannotRepair(rows: seq<Reading>, processed: seq<Reading>, f: Json -> Json)
    requires |processed| == |rows|
    requires forall i :: 0 <= i < |rows| ==> processed[i].claim == rows[i].claim && Normal(processed[i].value) == f(Normal(rows[i].value))
    ensures Factors(processed) ==> Factors(rows)
  {
    if Factors(processed) {
      forall i, j | 0 <= i < |rows| && 0 <= j < |rows| && Same(rows[i].value, rows[j].value)
        ensures Same(rows[i].claim, rows[j].claim) {
        assert Same(processed[i].value, processed[j].value);
      }
    }
  }
}
