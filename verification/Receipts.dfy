/** Runtime receipts: ledger entries and the two coverage closures computed from them. */
module Receipts {

  /** A call as its request digest binds it: identifier, tool, canonical arguments and requestor. */
  datatype Call = Call(id: string, tool: string, arguments: string, requestor: string)

  datatype Request = Request(sequence: nat, call: Call, mutating: bool)

  datatype Interaction = Interaction(sequence: nat, call: Call, content: string, error: bool)

  datatype WriteEffect = WriteEffect(sequence: nat, call: Call, pre: string, post: string)

  datatype Disposition = Disposition(sequence: nat, call: Call, mutating: bool, reason: string)

  datatype Coverage = Coverage(requested: nat, captured: nat, disposed: nat, complete: bool)

  // ----- populations of entries -----

  function Filter<T>(s: seq<T>, keep: T -> bool): seq<T> {
    if s == [] then []
    else Filter(s[..|s| - 1], keep) + if keep(s[|s| - 1]) then [s[|s| - 1]] else []
  }

  function IdsOf<T>(s: seq<T>, id: T -> string): set<string> {
    if s == [] then {} else IdsOf(s[..|s| - 1], id) + {id(s[|s| - 1])}
  }

  ghost predicate HasId<T>(s: seq<T>, id: T -> string, x: string) {
    exists i :: 0 <= i < |s| && id(s[i]) == x
  }

  ghost predicate Distinct<T>(s: seq<T>, id: T -> string) {
    forall i, j :: 0 <= i < j < |s| ==> id(s[i]) != id(s[j])
  }

  lemma {:induction false} IdsExactly<T>(s: seq<T>, id: T -> string, x: string)
    ensures x in IdsOf(s, id) <==> HasId(s, id, x)
  {
    if s != [] {
      var n := |s| - 1;
      IdsExactly(s[..n], id, x);
      if HasId(s[..n], id, x) {
        var i :| 0 <= i < n && id(s[..n][i]) == x;
        assert id(s[i]) == x;
      }
      if HasId(s, id, x) && id(s[n]) != x {
        var i :| 0 <= i < |s| && id(s[i]) == x;
        assert id(s[..n][i]) == x;
      }
    }
  }

  lemma DistinctSnoc<T>(s: seq<T>, id: T -> string)
    requires s != []
    ensures Distinct(s, id) <==> Distinct(s[..|s| - 1], id) && !HasId(s[..|s| - 1], id, id(s[|s| - 1]))
  {
    var n := |s| - 1;
    var init := s[..n];
    if Distinct(s, id) {
      forall i | 0 <= i < n ensures id(init[i]) != id(s[n]) {
        assert id(s[i]) != id(s[n]);
      }
      forall i, j | 0 <= i < j < n ensures id(init[i]) != id(init[j]) {
        assert id(s[i]) != id(s[j]);
      }
    }
    if Distinct(init, id) && !HasId(init, id, id(s[n])) {
      forall i, j | 0 <= i < j < |s| ensures id(s[i]) != id(s[j]) {
        if j < n { assert id(init[i]) != id(init[j]); } else { assert id(init[i]) != id(s[n]); }
      }
    }
  }

  /** `len(set(ids)) == len(ids)` */
  lemma {:induction false} DistinctByCount<T>(s: seq<T>, id: T -> string)
    ensures |IdsOf(s, id)| <= |s|
    ensures |IdsOf(s, id)| == |s| <==> Distinct(s, id)
  {
    if s != [] {
      var n := |s| - 1;
      DistinctByCount(s[..n], id);
      IdsExactly(s[..n], id, id(s[n]));
      DistinctSnoc(s, id);
    }
  }

  lemma {:induction false} FilterExactly<T>(s: seq<T>, keep: T -> bool, x: T)
    ensures x in Filter(s, keep) <==> x in s && keep(x)
  {
    if s != [] {
      var n := |s| - 1;
      FilterExactly(s[..n], keep, x);
      assert x in s <==> x in s[..n] || x == s[n];
    }
  }

  lemma {:induction false} FilterDistinct<T>(s: seq<T>, keep: T -> bool, id: T -> string)
    requires Distinct(s, id)
    ensures Distinct(Filter(s, keep), id)
  {
    if s != [] {
      var n := |s| - 1;
      assert Distinct(s[..n], id) by {
        forall i, j | 0 <= i < j < n ensures id(s[..n][i]) != id(s[..n][j]) {
          assert id(s[i]) != id(s[j]);
        }
      }
      FilterDistinct(s[..n], keep, id);
      var f := Filter(s[..n], keep);
      forall i | 0 <= i < |f| ensures id(f[i]) != id(s[n]) {
        FilterExactly(s[..n], keep, f[i]);
        assert f[i] in f;
        var k :| 0 <= k < n && s[..n][k] == f[i];
        assert id(s[k]) != id(s[n]);
      }
    }
  }

  // ----- coverage receipts -----

  const RequestId: Request -> string := (r: Request) => r.call.id

  const InteractionId: Interaction -> string := (r: Interaction) => r.call.id

  const WriteId: WriteEffect -> string := (r: WriteEffect) => r.call.id

  const DispositionId: Disposition -> string := (r: Disposition) => r.call.id

  /** Exactly one answer for every request: identifiers are unique in each population, and the requests are
      partitioned between `answered` and `disposed`. */
  predicate Partitioned(requests: set<string>, answered: set<string>, disposed: set<string>) {
    answered * disposed == {} && requests == answered + disposed
  }

  /** `tool_result_coverage_receipt` over request entries. */
  function ToolCoverage(requests: seq<Request>, entries: seq<Interaction>, dispositions: seq<Disposition>): Coverage {
    var r, a, d := IdsOf(requests, RequestId), IdsOf(entries, InteractionId), IdsOf(dispositions, DispositionId);
    Coverage(|requests|, |entries|, |dispositions|,
             |r| == |requests| && |a| == |entries| && |d| == |dispositions| && Partitioned(r, a, d))
  }

  /** `write_coverage_receipt` over request entries. */
  function WriteCoverage(requests: seq<Request>, entries: seq<WriteEffect>, dispositions: seq<Disposition>): Coverage {
    var writeRequests := Filter(requests, (q: Request) => q.mutating);
    var writeDispositions := Filter(dispositions, (x: Disposition) => x.mutating);
    var r, a, d := IdsOf(writeRequests, RequestId), IdsOf(entries, WriteId), IdsOf(writeDispositions, DispositionId);
    Coverage(|writeRequests|, |entries|, |writeDispositions|,
             |r| == |writeRequests| && |a| == |entries| && |d| == |writeDispositions| && Partitioned(r, a, d))
  }
}
