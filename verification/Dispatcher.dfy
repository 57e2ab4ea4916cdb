/** The instrumented dispatch boundary: four ledgers, and the coverage closure every run of it reaches. */
module Dispatcher {
  import opened Wrappers
  import opened Receipts

  /** The host's fixed facts: the agent's name, and a deterministic classification of mutating tools. */
  datatype Host = Host(agent: string, mutates: string -> bool)

  datatype Ledgers = Ledgers(
    requests: seq<Request>, results: seq<Interaction>, writes: seq<WriteEffect>, dispositions: seq<Disposition>)

  /** What the executor does with one call. */
  datatype Outcome = Fails | Returns(callId: string, content: string, error: bool)

  /** A state root observation; `None` when taking it raises. */
  type Root = Option<string>

  // ----- what each operation does to the ledgers -----

  function Find(requests: seq<Request>, id: string): (r: Option<Request>)
    ensures r.Some? ==> r.value in requests && r.value.call.id == id
    ensures r.None? ==> !HasId(requests, RequestId, id)
  {
    if requests == [] then None
    else if requests[0].call.id == id then Some(requests[0])
    else
      var r := Find(requests[1..], id);
      assert HasId(requests, RequestId, id) ==> HasId(requests[1..], RequestId, id) by {
        if HasId(requests, RequestId, id) {
          var i :| 0 <= i < |requests| && RequestId(requests[i]) == id;
          assert RequestId(requests[1..][i - 1]) == id;
        }
      }
      r
  }

  predicate Answered(l: Ledgers, id: string) {
    id in IdsOf(l.results, InteractionId)
  }

  predicate Disposed(l: Ledgers, id: string) {
    id in IdsOf(l.dispositions, DispositionId)
  }

  /** The ledgers after an operation, and whether it returned normally. */
  datatype Effect = Effect(ledgers: Ledgers, ok: bool)

  function RecordEffect(h: Host, l: Ledgers, call: Call): Effect {
    var existing := Find(l.requests, call.id);
    if call.id == "" then Effect(l, false)
    else if existing.Some? then Effect(l, existing.value == Request(existing.value.sequence, call, h.mutates(call.tool)))
    else Effect(l.(requests := l.requests + [Request(|l.requests|, call, h.mutates(call.tool))]), true)
  }

  function ResultEffect(h: Host, l: Ledgers, call: Call, outcome: Outcome, pre: Root, post: Root): Effect
    requires outcome.Returns?
  {
    var l' := l.(results := l.results + [Interaction(|l.results|, call, outcome.content, outcome.error)]);
    if !h.mutates(call.tool) then Effect(l', true)
    else if pre.None? || post.None? || pre.value == "" || post.value == "" then Effect(l', false)
    else if call.requestor != h.agent then Effect(l', true)
    else Effect(l'.(writes := l.writes + [WriteEffect(|l.results|, call, pre.value, post.value)]), true)
  }

  function ExecuteEffect(h: Host, l: Ledgers, call: Call, outcome: Outcome, pre: Root, post: Root): Effect {
    var recorded := RecordEffect(h, l, call);
    if !recorded.ok || Answered(recorded.ledgers, call.id) then Effect(recorded.ledgers, false)
    else if (h.mutates(call.tool) && pre.None?) || outcome.Fails? || outcome.callId != call.id then Effect(recorded.ledgers, false)
    else ResultEffect(h, recorded.ledgers, call, outcome, pre, post)
  }

  function Pending(l: Ledgers): seq<Request> {
    Filter(l.requests, (r: Request) => !Answered(l, r.call.id) && !Disposed(l, r.call.id))
  }

  function Dispositions(pending: seq<Request>, reason: string): seq<Disposition> {
    seq(|pending|, i requires 0 <= i < |pending| => Disposition(pending[i].sequence, pending[i].call, pending[i].mutating, reason))
  }

  function CloseEffect(l: Ledgers, reason: string): Effect {
    if reason == "" && Pending(l) != [] then Effect(l, false)
    else Effect(l.(dispositions := l.dispositions + Dispositions(Pending(l), reason)), true)
  }

  // ----- coverage over the agent's calls -----

  function AgentRequests(h: Host, l: Ledgers): seq<Request> {
    Filter(l.requests, (r: Request) => r.call.requestor == h.agent)
  }

  function AgentResults(h: Host, l: Ledgers): seq<Interaction> {
    Filter(l.results, (r: Interaction) => r.call.requestor == h.agent)
  }

  function AgentDispositions(h: Host, l: Ledgers): seq<Disposition> {
    Filter(l.dispositions, (r: Disposition) => r.call.requestor == h.agent)
  }

  /** `tool_result_coverage` */
  function ToolReceipt(h: Host, l: Ledgers): Coverage {
    ToolCoverage(AgentRequests(h, l), AgentResults(h, l), AgentDispositions(h, l))
  }

  /** `write_coverage` over the recorded requests. */
  function WriteReceipt(h: Host, l: Ledgers): Coverage {
    WriteCoverage(AgentRequests(h, l), l.writes, AgentDispositions(h, l))
  }

  // ----- the dispatcher -----

  class InstrumentedDispatcher {
    const host: Host
    var ledger: seq<Interaction>
    var writeLedger: seq<WriteEffect>
    var requestLedger: seq<Request>
    var terminalDispositions: seq<Disposition>

    constructor (host: Host)
      ensures this.host == host && State() == Ledgers([], [], [], [])
    {
      this.host := host;
      ledger, writeLedger, requestLedger, terminalDispositions := [], [], [], [];
    }

    function State(): Ledgers
      reads this
    {
      Ledgers(requestLedger, ledger, writeLedger, terminalDispositions)
    }

    /** `record_request` */
    method RecordRequest(call: Call) returns (ok: bool)
      modifies this`requestLedger
      ensures Effect(State(), ok) == RecordEffect(host, old(State()), call)
    {
      var existing := Find(requestLedger, call.id);
      if call.id == "" {
        return false;
      }
      var sequence := if existing.Some? then existing.value.sequence else |requestLedger|;
      var candidate := Request(sequence, call, host.mutates(call.tool));
      if existing.Some? {
        return existing.value == candidate;
      }
      requestLedger := requestLedger + [candidate];
      ok := true;
    }

    /** `close_requests` */
    method CloseRequests(reason: string) returns (ok: bool)
      modifies this`terminalDispositions
      ensures Effect(State(), ok) == CloseEffect(old(State()), reason)
    {
      ghost var before := State();
      var closed := terminalDispositions;
      for n := 0 to |requestLedger|
        invariant requestLedger == before.requests && ledger == before.results && writeLedger == before.writes
        invariant closed == before.dispositions
        invariant reason == "" ==> PendingBefore(before, n) == []
        invariant terminalDispositions == before.dispositions + Dispositions(PendingBefore(before, n), reason)
      {
        var request := requestLedger[n];
        PendingNext(before, n);
        if request.call.id !in IdsOf(ledger, InteractionId) && request.call.id !in IdsOf(closed, DispositionId) {
          if reason == "" {
            StillPending(before, n + 1);
            assert terminalDispositions == before.dispositions;
            return false;
          }
          DispositionsNext(PendingBefore(before, n), request, reason);
          terminalDispositions := terminalDispositions + [Disposition(request.sequence, request.call, request.mutating, reason)];
        }
      }
      assert before.requests[..|before.requests|] == before.requests;
      ok := true;
    }

    /** `execute_call`: receipts are captured around execution, whatever the executor does. */
    method ExecuteCall(call: Call, outcome: Outcome, pre: Root, post: Root) returns (ok: bool)
      modifies this
      ensures Effect(State(), ok) == ExecuteEffect(host, old(State()), call, outcome, pre, post)
    {
      var recorded := RecordRequest(call);
      if !recorded || call.id in IdsOf(ledger, InteractionId) {
        return false;
      }
      var sequence := |ledger|;
      var mutating := host.mutates(call.tool);
      if mutating && pre.None? {
        return false;
      }
      if outcome.Fails? || outcome.callId != call.id {
        return false;
      }
      ledger := ledger + [Interaction(sequence, call, outcome.content, outcome.error)];
      if mutating {
        if post.None? || pre.value == "" || post.value == "" {
          return false;
        }
        if call.requestor == host.agent {
          writeLedger := writeLedger + [WriteEffect(sequence, call, pre.value, post.value)];
        }
      }
      ok := true;
    }
  }

  function PendingBefore(l: Ledgers, n: nat): seq<Request>
    requires n <= |l.requests|
  {
    Filter(l.requests[..n], (r: Request) => !Answered(l, r.call.id) && !Disposed(l, r.call.id))
  }

  lemma PendingNext(l: Ledgers, n: nat)
    requires n < |l.requests|
    ensures PendingBefore(l, n + 1) == PendingBefore(l, n)
              + if !Answered(l, l.requests[n].call.id) && !Disposed(l, l.requests[n].call.id) then [l.requests[n]] else []
  {
    assert l.requests[..n + 1][..n] == l.requests[..n];
  }

  lemma {:induction false} StillPending(l: Ledgers, n: nat)
    requires n <= |l.requests| && PendingBefore(l, n) != []
    ensures Pending(l) != []
    decreases |l.requests| - n
  {
    if n == |l.requests| {
      assert l.requests[..n] == l.requests;
    } else {
      PendingNext(l, n);
      StillPending(l, n + 1);
    }
  }

  lemma DispositionsNext(pending: seq<Request>, r: Request, reason: string)
    ensures Dispositions(pending + [r], reason) == Dispositions(pending, reason) + [Disposition(r.sequence, r.call, r.mutating, reason)]
  {
  }
}
