/** Whole runs of the dispatcher: what every event keeps, and when coverage is complete. */
module DispatcherRuns {
  import opened Wrappers
  import opened Receipts
  import opened Dispatcher

  datatype Event =
    | Ask(call: Call)
    | Execute(call: Call, outcome: Outcome, pre: Root, post: Root)
    | Close(reason: string)

  function Step(h: Host, l: Ledgers, e: Event): Ledgers {
    match e
    case Ask(call) => RecordEffect(h, l, call).ledgers
    case Execute(call, outcome, pre, post) => ExecuteEffect(h, l, call, outcome, pre, post).ledgers
    case Close(reason) => CloseEffect(l, reason).ledgers
  }

  function Run(h: Host, events: seq<Event>): Ledgers {
    if events == [] then Ledgers([], [], [], []) else Step(h, Run(h, events[..|events| - 1]), events[|events| - 1])
  }

  // ----- what every event keeps -----

  ghost predicate Requested(l: Ledgers, call: Call, mutating: bool) {
    exists i :: 0 <= i < |l.requests| && l.requests[i].call == call && l.requests[i].mutating == mutating
  }

  ghost predicate RequestsKept(h: Host, requests: seq<Request>) {
    && Distinct(requests, RequestId)
    && forall i :: 0 <= i < |requests| ==>
         requests[i].sequence == i && requests[i].call.id != "" && requests[i].mutating == h.mutates(requests[i].call.tool)
  }

  ghost predicate ResultsKept(h: Host, l: Ledgers) {
    && Distinct(l.results, InteractionId)
    && forall i :: 0 <= i < |l.results| ==>
         l.results[i].sequence == i && Requested(l, l.results[i].call, h.mutates(l.results[i].call.tool))
  }

  ghost predicate DispositionsKept(h: Host, l: Ledgers) {
    && Distinct(l.dispositions, DispositionId)
    && forall i :: 0 <= i < |l.dispositions| ==> Requested(l, l.dispositions[i].call, l.dispositions[i].mutating)
  }

  ghost predicate WrittenFor(h: Host, l: Ledgers, w: WriteEffect) {
    && w.sequence < |l.results| && l.results[w.sequence].call == w.call
    && w.call.requestor == h.agent && h.mutates(w.call.tool) && w.pre != "" && w.post != ""
  }

  ghost predicate WritesKept(h: Host, l: Ledgers) {
    && Distinct(l.writes, WriteId)
    && forall i :: 0 <= i < |l.writes| ==> WrittenFor(h, l, l.writes[i])
  }

  /** Unique identifiers in every ledger; every answer and disposition repeats a recorded request; every write
      effect belongs to an answered mutating call of the agent. */
  ghost predicate Consistent(h: Host, l: Ledgers) {
    RequestsKept(h, l.requests) && ResultsKept(h, l) && DispositionsKept(h, l) && WritesKept(h, l)
  }

  lemma SnocDistinct<T>(s: seq<T>, id: T -> string, x: T)
    requires Distinct(s, id) && id(x) !in IdsOf(s, id)
    ensures Distinct(s + [x], id)
  {
    forall i | 0 <= i < |s| ensures id(s[i]) != id(x) {
      IdsExactly(s, id, id(x));
      assert id(s[i]) == id(x) ==> HasId(s, id, id(x));
    }
  }

  lemma RequestedGrows(l: Ledgers, l': Ledgers)
    requires |l.requests| <= |l'.requests| && l'.requests[..|l.requests|] == l.requests
    ensures forall c, m :: Requested(l, c, m) ==> Requested(l', c, m)
  {
    forall c, m | Requested(l, c, m) ensures Requested(l', c, m) {
      var i :| 0 <= i < |l.requests| && l.requests[i].call == c && l.requests[i].mutating == m;
      assert l'.requests[i] == l.requests[i];
    }
  }

  lemma RecordKeeps(h: Host, l: Ledgers, call: Call)
    requires Consistent(h, l)
    ensures Consistent(h, RecordEffect(h, l, call).ledgers)
    ensures RecordEffect(h, l, call).ok ==> Requested(RecordEffect(h, l, call).ledgers, call, h.mutates(call.tool))
  {
    var l' := RecordEffect(h, l, call).ledgers;
    if call.id != "" && Find(l.requests, call.id).None? {
      IdsExactly(l.requests, RequestId, call.id);
      SnocDistinct(l.requests, RequestId, Request(|l.requests|, call, h.mutates(call.tool)));
      RequestedGrows(l, l');
      assert l'.requests[|l.requests|].call == call;
    }
  }

  lemma ResultKeeps(h: Host, l: Ledgers, call: Call, outcome: Outcome, pre: Root, post: Root)
    requires Consistent(h, l) && outcome.Returns? && !Answered(l, call.id) && Requested(l, call, h.mutates(call.tool))
    ensures Consistent(h, ResultEffect(h, l, call, outcome, pre, post).ledgers)
  {
    var l' := ResultEffect(h, l, call, outcome, pre, post).ledgers;
    SnocDistinct(l.results, InteractionId, Interaction(|l.results|, call, outcome.content, outcome.error));
    RequestedGrows(l, l');
    assert ResultsKept(h, l');
    assert DispositionsKept(h, l');
    WriteKeeps(h, l, call, outcome, pre, post);
  }

  lemma WriteKeeps(h: Host, l: Ledgers, call: Call, outcome: Outcome, pre: Root, post: Root)
    requires WritesKept(h, l) && outcome.Returns? && !Answered(l, call.id)
    ensures WritesKept(h, ResultEffect(h, l, call, outcome, pre, post).ledgers)
  {
    var l' := ResultEffect(h, l, call, outcome, pre, post).ledgers;
    forall i | 0 <= i < |l.writes| ensures WrittenFor(h, l', l.writes[i]) {
      assert WrittenFor(h, l, l.writes[i]);
    }
    if |l'.writes| > |l.writes| {
      if call.id in IdsOf(l.writes, WriteId) {
        IdsExactly(l.writes, WriteId, call.id);
        var i :| 0 <= i < |l.writes| && WriteId(l.writes[i]) == call.id;
        assert WrittenFor(h, l, l.writes[i]);
        assert InteractionId(l.results[l.writes[i].sequence]) == call.id;
        assert HasId(l.results, InteractionId, call.id);
        IdsExactly(l.results, InteractionId, call.id);
        assert false;
      }
      SnocDistinct(l.writes, WriteId, l'.writes[|l.writes|]);
    }
  }

  lemma CloseKeeps(h: Host, l: Ledgers, reason: string)
    requires Consistent(h, l)
    ensures Consistent(h, CloseEffect(l, reason).ledgers)
  {
    var l' := CloseEffect(l, reason).ledgers;
    RequestedGrows(l, l');
    if !(reason == "" && Pending(l) != []) {
      CloseDistinct(h, l, reason);
      forall i | 0 <= i < |l'.dispositions| ensures Requested(l', l'.dispositions[i].call, l'.dispositions[i].mutating) {
        if i >= |l.dispositions| {
          var r := Pending(l)[i - |l.dispositions|];
          PendingExactly(l, r);
          assert r in Pending(l);
        }
      }
    }
  }

  lemma PendingExactly(l: Ledgers, r: Request)
    ensures r in Pending(l) <==> r in l.requests && !Answered(l, r.call.id) && !Disposed(l, r.call.id)
  {
    FilterExactly(l.requests, (r: Request) => !Answered(l, r.call.id) && !Disposed(l, r.call.id), r);
  }

  lemma CloseDistinct(h: Host, l: Ledgers, reason: string)
    requires RequestsKept(h, l.requests) && Distinct(l.dispositions, DispositionId)
    ensures Distinct(l.dispositions + Dispositions(Pending(l), reason), DispositionId)
  {
    var p := Pending(l);
    var ds := Dispositions(p, reason);
    FilterDistinct(l.requests, (r: Request) => !Answered(l, r.call.id) && !Disposed(l, r.call.id), RequestId);
    forall i, j | 0 <= i < j < |ds| ensures DispositionId(ds[i]) != DispositionId(ds[j]) {
      assert RequestId(p[i]) != RequestId(p[j]);
    }
    forall i, j | 0 <= i < |l.dispositions| && 0 <= j < |ds| ensures DispositionId(l.dispositions[i]) != DispositionId(ds[j]) {
      PendingExactly(l, p[j]);
      assert p[j] in p;
      IdsExactly(l.dispositions, DispositionId, p[j].call.id);
      if DispositionId(l.dispositions[i]) == p[j].call.id {
        assert HasId(l.dispositions, DispositionId, p[j].call.id);
      }
    }
  }

  lemma StepKeeps(h: Host, l: Ledgers, e: Event)
    requires Consistent(h, l)
    ensures Consistent(h, Step(h, l, e))
  {
    match e
    case Ask(call) => RecordKeeps(h, l, call);
    case Execute(call, outcome, pre, post) =>
      RecordKeeps(h, l, call);
      var recorded := RecordEffect(h, l, call);
      if recorded.ok && !Answered(recorded.ledgers, call.id) && !(h.mutates(call.tool) && pre.None?) && outcome.Returns? {
        ResultKeeps(h, recorded.ledgers, call, outcome, pre, post);
      }
    case Close(reason) => CloseKeeps(h, l, reason);
  }

  /** Every run, whatever the executor does and in whatever order, keeps the ledgers consistent. */
  lemma {:induction false} RunConsistent(h: Host, events: seq<Event>)
    ensures Consistent(h, Run(h, events))
  {
    if events != [] {
      RunConsistent(h, events[..|events| - 1]);
      StepKeeps(h, Run(h, events[..|events| - 1]), events[|events| - 1]);
    }
  }

  // ----- coverage, exactly -----

  ghost predicate AgentCall(h: Host, l: Ledgers, x: string) {
    exists i :: 0 <= i < |l.requests| && l.requests[i].call.id == x && l.requests[i].call.requestor == h.agent
  }

  predicate Written(l: Ledgers, x: string) {
    x in IdsOf(l.writes, WriteId)
  }

  lemma AgentRequestIds(h: Host, l: Ledgers, x: string)
    ensures x in IdsOf(AgentRequests(h, l), RequestId) <==> AgentCall(h, l, x)
  {
    var f := AgentRequests(h, l);
    IdsExactly(f, RequestId, x);
    var keep := (r: Request) => r.call.requestor == h.agent;
    if HasId(f, RequestId, x) {
      var i :| 0 <= i < |f| && RequestId(f[i]) == x;
      FilterExactly(l.requests, keep, f[i]);
      assert f[i] in f;
    }
    if AgentCall(h, l, x) {
      var i :| 0 <= i < |l.requests| && l.requests[i].call.id == x && l.requests[i].call.requestor == h.agent;
      FilterExactly(l.requests, keep, l.requests[i]);
      var k :| 0 <= k < |f| && f[k] == l.requests[i];
      assert RequestId(f[k]) == x;
    }
  }

  /** Entries that repeat a recorded call have the requestor of the request with their identifier. */
  lemma SameRequestor(h: Host, l: Ledgers, c: Call, mutating: bool)
    requires RequestsKept(h, l.requests) && Requested(l, c, mutating)
    ensures AgentCall(h, l, c.id) <==> c.requestor == h.agent
    ensures mutating == h.mutates(c.tool)
    ensures forall i :: 0 <= i < |l.requests| && l.requests[i].call.id == c.id ==> l.requests[i].call == c
  {
    var i :| 0 <= i < |l.requests| && l.requests[i].call == c && l.requests[i].mutating == mutating;
    forall j | 0 <= j < |l.requests| && l.requests[j].call.id == c.id ensures l.requests[j].call == c {
      assert RequestId(l.requests[j]) == RequestId(l.requests[i]);
    }
  }

  lemma AgentResultIds(h: Host, l: Ledgers, x: string)
    requires Consistent(h, l)
    ensures x in IdsOf(AgentResults(h, l), InteractionId) <==> AgentCall(h, l, x) && Answered(l, x)
  {
    var f := AgentResults(h, l);
    var keep := (r: Interaction) => r.call.requestor == h.agent;
    IdsExactly(f, InteractionId, x);
    IdsExactly(l.results, InteractionId, x);
    if HasId(f, InteractionId, x) {
      var i :| 0 <= i < |f| && InteractionId(f[i]) == x;
      FilterExactly(l.results, keep, f[i]);
      assert f[i] in f;
      var k :| 0 <= k < |l.results| && l.results[k] == f[i];
      assert InteractionId(l.results[k]) == x;
      SameRequestor(h, l, f[i].call, h.mutates(f[i].call.tool));
    }
    if AgentCall(h, l, x) && Answered(l, x) {
      var k :| 0 <= k < |l.results| && InteractionId(l.results[k]) == x;
      SameRequestor(h, l, l.results[k].call, h.mutates(l.results[k].call.tool));
      FilterExactly(l.results, keep, l.results[k]);
      var i :| 0 <= i < |f| && f[i] == l.results[k];
      assert InteractionId(f[i]) == x;
    }
  }

  lemma AgentDispositionIds(h: Host, l: Ledgers, x: string)
    requires Consistent(h, l)
    ensures x in IdsOf(AgentDispositions(h, l), DispositionId) <==> AgentCall(h, l, x) && Disposed(l, x)
  {
    var f := AgentDispositions(h, l);
    var keep := (r: Disposition) => r.call.requestor == h.agent;
    IdsExactly(f, DispositionId, x);
    IdsExactly(l.dispositions, DispositionId, x);
    if HasId(f, DispositionId, x) {
      var i :| 0 <= i < |f| && DispositionId(f[i]) == x;
      FilterExactly(l.dispositions, keep, f[i]);
      assert f[i] in f;
      var k :| 0 <= k < |l.dispositions| && l.dispositions[k] == f[i];
      assert DispositionId(l.dispositions[k]) == x;
      SameRequestor(h, l, f[i].call, f[i].mutating);
    }
    if AgentCall(h, l, x) && Disposed(l, x) {
      var k :| 0 <= k < |l.dispositions| && DispositionId(l.dispositions[k]) == x;
      SameRequestor(h, l, l.dispositions[k].call, l.dispositions[k].mutating);
      FilterExactly(l.dispositions, keep, l.dispositions[k]);
      var i :| 0 <= i < |f| && f[i] == l.dispositions[k];
      assert DispositionId(f[i]) == x;
    }
  }

  /** Every call of the agent was answered or disposed of, and not both. */
  ghost predicate ExactlyOneAnswer(h: Host, l: Ledgers) {
    forall x :: AgentCall(h, l, x) ==> (Answered(l, x) <==> !Disposed(l, x))
  }

  lemma PopulationsDistinct(h: Host, l: Ledgers)
    requires Consistent(h, l)
    ensures |IdsOf(AgentRequests(h, l), RequestId)| == |AgentRequests(h, l)|
    ensures |IdsOf(AgentResults(h, l), InteractionId)| == |AgentResults(h, l)|
    ensures |IdsOf(AgentDispositions(h, l), DispositionId)| == |AgentDispositions(h, l)|
  {
    FilterDistinct(l.requests, (r: Request) => r.call.requestor == h.agent, RequestId);
    FilterDistinct(l.results, (r: Interaction) => r.call.requestor == h.agent, InteractionId);
    FilterDistinct(l.dispositions, (r: Disposition) => r.call.requestor == h.agent, DispositionId);
    DistinctByCount(AgentRequests(h, l), RequestId);
    DistinctByCount(AgentResults(h, l), InteractionId);
    DistinctByCount(AgentDispositions(h, l), DispositionId);
  }

  /** In consistent ledgers tool-result coverage is complete exactly when each call has exactly one answer. */
  lemma ToolCoverageExactly(h: Host, l: Ledgers)
    requires Consistent(h, l)
    ensures ToolReceipt(h, l).complete <==> ExactlyOneAnswer(h, l)
  {
    PopulationsDistinct(h, l);
    var r := IdsOf(AgentRequests(h, l), RequestId);
    var a := IdsOf(AgentResults(h, l), InteractionId);
    var d := IdsOf(AgentDispositions(h, l), DispositionId);
    forall x ensures (x in r <==> AgentCall(h, l, x)) && (x in a <==> AgentCall(h, l, x) && Answered(l, x))
      && (x in d <==> AgentCall(h, l, x) && Disposed(l, x)) {
      AgentRequestIds(h, l, x);
      AgentResultIds(h, l, x);
      AgentDispositionIds(h, l, x);
    }
    if ExactlyOneAnswer(h, l) {
      assert a * d == {} && r == a + d;
    }
    if Partitioned(r, a, d) {
      forall x | AgentCall(h, l, x) ensures Answered(l, x) <==> !Disposed(l, x) {
        assert x in r && (x in a + d) && x !in a * d;
      }
    }
  }

  ghost predicate AgentWrite(h: Host, l: Ledgers, x: string) {
    exists i :: 0 <= i < |l.requests| && l.requests[i].call.id == x && l.requests[i].call.requestor == h.agent && l.requests[i].mutating
  }

  lemma WriteRequestIds(h: Host, l: Ledgers, x: string)
    ensures x in IdsOf(Filter(AgentRequests(h, l), (q: Request) => q.mutating), RequestId) <==> AgentWrite(h, l, x)
  {
    var keep := (r: Request) => r.call.requestor == h.agent;
    var mutating := (q: Request) => q.mutating;
    var f := Filter(AgentRequests(h, l), mutating);
    IdsExactly(f, RequestId, x);
    if HasId(f, RequestId, x) {
      var i :| 0 <= i < |f| && RequestId(f[i]) == x;
      FilterExactly(AgentRequests(h, l), mutating, f[i]);
      FilterExactly(l.requests, keep, f[i]);
      assert f[i] in f;
    }
    if AgentWrite(h, l, x) {
      var i :| 0 <= i < |l.requests| && l.requests[i].call.id == x && l.requests[i].call.requestor == h.agent && l.requests[i].mutating;
      FilterExactly(l.requests, keep, l.requests[i]);
      FilterExactly(AgentRequests(h, l), mutating, l.requests[i]);
      var k :| 0 <= k < |f| && f[k] == l.requests[i];
      assert RequestId(f[k]) == x;
    }
  }

  lemma WriteDispositionIds(h: Host, l: Ledgers, x: string)
    requires Consistent(h, l)
    ensures x in IdsOf(Filter(AgentDispositions(h, l), (q: Disposition) => q.mutating), DispositionId) <==> AgentWrite(h, l, x) && Disposed(l, x)
  {
    var keep := (r: Disposition) => r.call.requestor == h.agent;
    var mutating := (q: Disposition) => q.mutating;
    var f := Filter(AgentDispositions(h, l), mutating);
    IdsExactly(f, DispositionId, x);
    IdsExactly(l.dispositions, DispositionId, x);
    if HasId(f, DispositionId, x) {
      var i :| 0 <= i < |f| && DispositionId(f[i]) == x;
      FilterExactly(AgentDispositions(h, l), mutating, f[i]);
      FilterExactly(l.dispositions, keep, f[i]);
      assert f[i] in f;
      var k :| 0 <= k < |l.dispositions| && l.dispositions[k] == f[i];
      assert DispositionId(l.dispositions[k]) == x;
      assert Requested(l, f[i].call, f[i].mutating);
    }
    if AgentWrite(h, l, x) && Disposed(l, x) {
      var k :| 0 <= k < |l.dispositions| && DispositionId(l.dispositions[k]) == x;
      var e := l.dispositions[k];
      SameRequestor(h, l, e.call, e.mutating);
      FilterExactly(l.dispositions, keep, e);
      FilterExactly(AgentDispositions(h, l), mutating, e);
      var i :| 0 <= i < |f| && f[i] == e;
      assert DispositionId(f[i]) == x;
    }
  }

  /** Write effects belong to the agent's mutating calls that were answered. */
  lemma WrittenCalls(h: Host, l: Ledgers, x: string)
    requires Consistent(h, l) && Written(l, x)
    ensures AgentWrite(h, l, x) && Answered(l, x)
  {
    IdsExactly(l.writes, WriteId, x);
    var i :| 0 <= i < |l.writes| && WriteId(l.writes[i]) == x;
    var w := l.writes[i];
    assert WrittenFor(h, l, w);
    assert InteractionId(l.results[w.sequence]) == x;
    assert HasId(l.results, InteractionId, x);
    IdsExactly(l.results, InteractionId, x);
    assert Requested(l, w.call, h.mutates(w.call.tool));
  }

  ghost predicate ExactlyOneWriteAnswer(h: Host, l: Ledgers) {
    forall x :: AgentWrite(h, l, x) ==> (Written(l, x) <==> !Disposed(l, x))
  }

  lemma WritesDistinct(h: Host, l: Ledgers)
    requires Consistent(h, l)
    ensures var r := Filter(AgentRequests(h, l), (q: Request) => q.mutating); |IdsOf(r, RequestId)| == |r|
    ensures var d := Filter(AgentDispositions(h, l), (q: Disposition) => q.mutating); |IdsOf(d, DispositionId)| == |d|
    ensures |IdsOf(l.writes, WriteId)| == |l.writes|
  {
    FilterDistinct(l.requests, (r: Request) => r.call.requestor == h.agent, RequestId);
    FilterDistinct(l.dispositions, (r: Disposition) => r.call.requestor == h.agent, DispositionId);
    FilterDistinct(AgentRequests(h, l), (q: Request) => q.mutating, RequestId);
    FilterDistinct(AgentDispositions(h, l), (q: Disposition) => q.mutating, DispositionId);
    DistinctByCount(Filter(AgentRequests(h, l), (q: Request) => q.mutating), RequestId);
    DistinctByCount(Filter(AgentDispositions(h, l), (q: Disposition) => q.mutating), DispositionId);
    DistinctByCount(l.writes, WriteId);
  }

  lemma WriteIds(h: Host, l: Ledgers, x: string)
    requires Consistent(h, l)
    ensures x in IdsOf(Filter(AgentRequests(h, l), (q: Request) => q.mutating), RequestId) <==> AgentWrite(h, l, x)
    ensures x in IdsOf(Filter(AgentDispositions(h, l), (q: Disposition) => q.mutating), DispositionId) <==> AgentWrite(h, l, x) && Disposed(l, x)
    ensures Written(l, x) ==> AgentWrite(h, l, x)
  {
    WriteRequestIds(h, l, x);
    WriteDispositionIds(h, l, x);
    if Written(l, x) { WrittenCalls(h, l, x); }
  }

  /** Write coverage is complete exactly when each mutating call of the agent has either a captured effect or
      a disposition. */
  lemma WriteCoverageExactly(h: Host, l: Ledgers)
    requires Consistent(h, l)
    ensures WriteReceipt(h, l).complete <==> ExactlyOneWriteAnswer(h, l)
  {
    WritesDistinct(h, l);
    var r := IdsOf(Filter(AgentRequests(h, l), (q: Request) => q.mutating), RequestId);
    var a := IdsOf(l.writes, WriteId);
    var d := IdsOf(Filter(AgentDispositions(h, l), (q: Disposition) => q.mutating), DispositionId);
    forall x ensures (x in r <==> AgentWrite(h, l, x)) && (x in a <==> Written(l, x)) && (x in a ==> x in r)
      && (x in d <==> AgentWrite(h, l, x) && Disposed(l, x)) {
      WriteIds(h, l, x);
    }
    WritesPartitioned(h, l, r, a, d);
  }

  lemma WritesPartitioned(h: Host, l: Ledgers, r: set<string>, a: set<string>, d: set<string>)
    requires forall x :: (x in r <==> AgentWrite(h, l, x)) && (x in a <==> Written(l, x)) && (x in a ==> x in r)
    requires forall x :: x in d <==> AgentWrite(h, l, x) && Disposed(l, x)
    ensures Partitioned(r, a, d) <==> ExactlyOneWriteAnswer(h, l)
  {
    if ExactlyOneWriteAnswer(h, l) {
      assert a * d == {} && r == a + d;
    }
    if Partitioned(r, a, d) {
      forall x | AgentWrite(h, l, x) ensures Written(l, x) <==> !Disposed(l, x) {
        assert x in r && (x in a + d) && x !in a * d;
      }
    }
  }

  // ----- what harms coverage -----

  /** The executed call gets a result entry: its request is accepted and unanswered, the state root taken before
      a mutating call is available, and the executor returns the right identifier. */
  predicate Lands(h: Host, l: Ledgers, e: Event) {
    && e.Execute? && RecordEffect(h, l, e.call).ok && !Answered(l, e.call.id)
    && (h.mutates(e.call.tool) ==> e.pre.Some?) && e.outcome.Returns? && e.outcome.callId == e.call.id
  }

  /** A write effect can be recorded from these state roots. */
  predicate Usable(pre: Root, post: Root) {
    pre.Some? && post.Some? && pre.value != "" && post.value != ""
  }

  /** A result of the agent for a call already disposed of. */
  predicate HarmsTool(h: Host, l: Ledgers, e: Event) {
    Lands(h, l, e) && e.call.requestor == h.agent && Disposed(l, e.call.id)
  }

  /** A result of a mutating call of the agent that adds an effect to a disposition, or that has neither. */
  predicate HarmsWrite(h: Host, l: Ledgers, e: Event) {
    Lands(h, l, e) && e.call.requestor == h.agent && h.mutates(e.call.tool) && (Disposed(l, e.call.id) <==> Usable(e.pre, e.post))
  }

  predicate Harms(h: Host, l: Ledgers, e: Event) {
    && Lands(h, l, e) && e.call.requestor == h.agent
    && (Disposed(l, e.call.id) || (h.mutates(e.call.tool) && !Usable(e.pre, e.post)))
  }

  /** Some event of the run harms the coverage of call `x`. */
  predicate HarmedTool(h: Host, events: seq<Event>, x: string) {
    events != [] &&
    var init, last := events[..|events| - 1], events[|events| - 1];
    HarmedTool(h, init, x) || (HarmsTool(h, Run(h, init), last) && last.call.id == x)
  }

  predicate HarmedWrite(h: Host, events: seq<Event>, x: string) {
    events != [] &&
    var init, last := events[..|events| - 1], events[|events| - 1];
    HarmedWrite(h, init, x) || (HarmsWrite(h, Run(h, init), last) && last.call.id == x)
  }

  /** No event of the run does harm. */
  ghost predicate NeverHarmsTool(h: Host, events: seq<Event>) {
    forall k :: 0 <= k < |events| ==> !HarmsTool(h, Run(h, events[..k]), events[k])
  }

  ghost predicate NeverHarmsWrite(h: Host, events: seq<Event>) {
    forall k :: 0 <= k < |events| ==> !HarmsWrite(h, Run(h, events[..k]), events[k])
  }

  ghost predicate NeverHarms(h: Host, events: seq<Event>) {
    forall k :: 0 <= k < |events| ==> !Harms(h, Run(h, events[..k]), events[k])
  }

  /** Both answered and disposed of. */
  ghost predicate Doubled(h: Host, l: Ledgers, x: string) {
    AgentCall(h, l, x) && Answered(l, x) && Disposed(l, x)
  }

  /** Effect and disposition, or a result with neither. */
  ghost predicate Muddled(h: Host, l: Ledgers, x: string) {
    AgentWrite(h, l, x) && ((Written(l, x) && Disposed(l, x)) || (Answered(l, x) && !Written(l, x) && !Disposed(l, x)))
  }

  // ----- one event changes these exactly as it does harm -----

  lemma AnsweredRequested(h: Host, l: Ledgers, x: string)
    requires Consistent(h, l) && Answered(l, x)
    ensures HasId(l.requests, RequestId, x)
  {
    IdsExactly(l.results, InteractionId, x);
    var k :| 0 <= k < |l.results| && InteractionId(l.results[k]) == x;
    assert Requested(l, l.results[k].call, h.mutates(l.results[k].call.tool));
    var i :| 0 <= i < |l.requests| && l.requests[i].call == l.results[k].call;
    assert RequestId(l.requests[i]) == x;
  }

  lemma DisposedRequested(h: Host, l: Ledgers, x: string)
    requires Consistent(h, l) && Disposed(l, x)
    ensures HasId(l.requests, RequestId, x)
  {
    IdsExactly(l.dispositions, DispositionId, x);
    var k :| 0 <= k < |l.dispositions| && DispositionId(l.dispositions[k]) == x;
    assert Requested(l, l.dispositions[k].call, l.dispositions[k].mutating);
    var i :| 0 <= i < |l.requests| && l.requests[i].call == l.dispositions[k].call;
    assert RequestId(l.requests[i]) == x;
  }

  /** Recording a request only adds a request with a new identifier. */
  lemma RecordUnchanged(h: Host, l: Ledgers, call: Call, x: string)
    requires Consistent(h, l)
    ensures var l' := RecordEffect(h, l, call).ledgers;
      && Answered(l', x) == Answered(l, x) && Disposed(l', x) == Disposed(l, x) && Written(l', x) == Written(l, x)
      && (HasId(l.requests, RequestId, x) ==> (AgentCall(h, l', x) <==> AgentCall(h, l, x)) && (AgentWrite(h, l', x) <==> AgentWrite(h, l, x)))
  {
    var l' := RecordEffect(h, l, call).ledgers;
    if HasId(l.requests, RequestId, x) {
      var i :| 0 <= i < |l.requests| && RequestId(l.requests[i]) == x;
      assert l'.requests[i] == l.requests[i];
      RecordKeeps(h, l, call);
      OneRequest(h, l, i);
      OneRequest(h, l', i);
    }
  }

  /** The request with an identifier is the only one with it. */
  lemma OneRequest(h: Host, l: Ledgers, i: nat)
    requires RequestsKept(h, l.requests) && i < |l.requests|
    ensures AgentCall(h, l, l.requests[i].call.id) <==> l.requests[i].call.requestor == h.agent
    ensures AgentWrite(h, l, l.requests[i].call.id) <==> l.requests[i].call.requestor == h.agent && h.mutates(l.requests[i].call.tool)
  {
    forall j | 0 <= j < |l.requests| && l.requests[j].call.id == l.requests[i].call.id ensures j == i {
      assert RequestId(l.requests[j]) == RequestId(l.requests[i]);
    }
  }

  lemma RecordHarmless(h: Host, l: Ledgers, call: Call, x: string)
    requires Consistent(h, l)
    ensures Doubled(h, RecordEffect(h, l, call).ledgers, x) <==> Doubled(h, l, x)
    ensures Muddled(h, RecordEffect(h, l, call).ledgers, x) <==> Muddled(h, l, x)
  {
    RecordUnchanged(h, l, call, x);
    if Answered(l, x) { AnsweredRequested(h, l, x); }
    if Disposed(l, x) { DisposedRequested(h, l, x); }
  }

  /** What a result entry changes. */
  lemma ResultChanges(h: Host, l: Ledgers, call: Call, outcome: Outcome, pre: Root, post: Root, x: string)
    requires outcome.Returns?
    ensures var l' := ResultEffect(h, l, call, outcome, pre, post).ledgers;
      && l'.requests == l.requests && l'.dispositions == l.dispositions
      && (Answered(l', x) <==> Answered(l, x) || x == call.id)
      && (Written(l', x) <==> Written(l, x) || (x == call.id && call.requestor == h.agent && h.mutates(call.tool) && Usable(pre, post)))
  {
    var l' := ResultEffect(h, l, call, outcome, pre, post).ledgers;
    assert l'.results[..|l'.results| - 1] == l.results;
    if |l'.writes| > |l.writes| { assert l'.writes[..|l'.writes| - 1] == l.writes; }
  }

  lemma ResultHarm(h: Host, l: Ledgers, call: Call, outcome: Outcome, pre: Root, post: Root, x: string)
    requires Consistent(h, l) && outcome.Returns? && !Answered(l, call.id) && Requested(l, call, h.mutates(call.tool))
    ensures var l' := ResultEffect(h, l, call, outcome, pre, post).ledgers;
      && (Doubled(h, l', x) <==> Doubled(h, l, x) || (x == call.id && call.requestor == h.agent && Disposed(l, x)))
      && (Muddled(h, l', x) <==> Muddled(h, l, x) || (x == call.id && call.requestor == h.agent && h.mutates(call.tool)
                                                       && (Disposed(l, x) <==> Usable(pre, post))))
  {
    ResultChanges(h, l, call, outcome, pre, post, x);
    if x == call.id {
      var i :| 0 <= i < |l.requests| && l.requests[i].call == call;
      OneRequest(h, l, i);
      if Written(l, x) { WrittenCalls(h, l, x); }
    }
  }

  lemma CloseHarmless(h: Host, l: Ledgers, reason: string, x: string)
    requires Consistent(h, l)
    ensures Doubled(h, CloseEffect(l, reason).ledgers, x) <==> Doubled(h, l, x)
    ensures Muddled(h, CloseEffect(l, reason).ledgers, x) <==> Muddled(h, l, x)
  {
    var l' := CloseEffect(l, reason).ledgers;
    if Disposed(l', x) { NewlyDisposed(l, reason, x); }
    if Disposed(l, x) { GrownIds(l.dispositions, l'.dispositions, DispositionId, x); }
    if Written(l, x) { WrittenCalls(h, l, x); }
  }

  lemma NewlyDisposed(l: Ledgers, reason: string, x: string)
    requires Disposed(CloseEffect(l, reason).ledgers, x)
    ensures Disposed(l, x) || !Answered(l, x)
  {
    var l' := CloseEffect(l, reason).ledgers;
    IdsExactly(l'.dispositions, DispositionId, x);
    IdsExactly(l.dispositions, DispositionId, x);
    var i :| 0 <= i < |l'.dispositions| && DispositionId(l'.dispositions[i]) == x;
    if i < |l.dispositions| {
      assert DispositionId(l.dispositions[i]) == x;
    } else {
      var r := Pending(l)[i - |l.dispositions|];
      PendingExactly(l, r);
      assert r in Pending(l);
    }
  }

  lemma StepHarm(h: Host, l: Ledgers, e: Event, x: string)
    requires Consistent(h, l)
    ensures Doubled(h, Step(h, l, e), x) <==> Doubled(h, l, x) || (HarmsTool(h, l, e) && e.call.id == x)
    ensures Muddled(h, Step(h, l, e), x) <==> Muddled(h, l, x) || (HarmsWrite(h, l, e) && e.call.id == x)
  {
    match e
    case Ask(call) => RecordHarmless(h, l, call, x);
    case Close(reason) => CloseHarmless(h, l, reason, x);
    case Execute(call, outcome, pre, post) =>
      var recorded := RecordEffect(h, l, call);
      RecordHarmless(h, l, call, x);
      RecordUnchanged(h, l, call, call.id);
      if Lands(h, l, e) {
        RecordKeeps(h, l, call);
        ResultHarm(h, recorded.ledgers, call, outcome, pre, post, x);
      }
  }

  /** A call is doubled or muddled exactly when some event of the run harmed it. */
  lemma {:induction false} RunHarm(h: Host, events: seq<Event>, x: string)
    ensures Doubled(h, Run(h, events), x) <==> HarmedTool(h, events, x)
    ensures Muddled(h, Run(h, events), x) <==> HarmedWrite(h, events, x)
  {
    if events != [] {
      var n := |events| - 1;
      RunHarm(h, events[..n], x);
      RunConsistent(h, events[..n]);
      StepHarm(h, Run(h, events[..n]), events[n], x);
    }
  }

  /** The event at position `k` of the run does harm to call `x`. */
  ghost predicate HarmsToolAt(h: Host, events: seq<Event>, k: nat, x: string) {
    k < |events| && HarmsTool(h, Run(h, events[..k]), events[k]) && events[k].call.id == x
  }

  ghost predicate HarmsWriteAt(h: Host, events: seq<Event>, k: nat, x: string) {
    k < |events| && HarmsWrite(h, Run(h, events[..k]), events[k]) && events[k].call.id == x
  }

  lemma SamePrefix(h: Host, events: seq<Event>, k: nat, x: string)
    requires k < |events| - 1
    ensures HarmsToolAt(h, events[..|events| - 1], k, x) <==> HarmsToolAt(h, events, k, x)
    ensures HarmsWriteAt(h, events[..|events| - 1], k, x) <==> HarmsWriteAt(h, events, k, x)
  {
    assert events[..|events| - 1][..k] == events[..k];
  }

  lemma {:induction false} ToolHarmer(h: Host, events: seq<Event>, x: string) returns (k: nat)
    requires HarmedTool(h, events, x)
    ensures HarmsToolAt(h, events, k, x)
  {
    var n := |events| - 1;
    if HarmedTool(h, events[..n], x) {
      k := ToolHarmer(h, events[..n], x);
      SamePrefix(h, events, k, x);
    } else {
      k := n;
    }
  }

  lemma {:induction false} ToolHarmed(h: Host, events: seq<Event>, k: nat, x: string)
    requires HarmsToolAt(h, events, k, x)
    ensures HarmedTool(h, events, x)
  {
    if k < |events| - 1 {
      SamePrefix(h, events, k, x);
      ToolHarmed(h, events[..|events| - 1], k, x);
    }
  }

  lemma {:induction false} WriteHarmer(h: Host, events: seq<Event>, x: string) returns (k: nat)
    requires HarmedWrite(h, events, x)
    ensures HarmsWriteAt(h, events, k, x)
  {
    var n := |events| - 1;
    if HarmedWrite(h, events[..n], x) {
      k := WriteHarmer(h, events[..n], x);
      SamePrefix(h, events, k, x);
    } else {
      k := n;
    }
  }

  lemma {:induction false} WriteHarmed(h: Host, events: seq<Event>, k: nat, x: string)
    requires HarmsWriteAt(h, events, k, x)
    ensures HarmedWrite(h, events, x)
  {
    if k < |events| - 1 {
      SamePrefix(h, events, k, x);
      WriteHarmed(h, events[..|events| - 1], k, x);
    }
  }

  // ----- closed runs -----

  /** Closing leaves no request without an answer or a disposition. */
  lemma CloseAnswersAll(l: Ledgers, reason: string, i: nat)
    requires CloseEffect(l, reason).ok && i < |l.requests|
    ensures var l' := CloseEffect(l, reason).ledgers; Answered(l', l.requests[i].call.id) || Disposed(l', l.requests[i].call.id)
  {
    var r := l.requests[i];
    var l' := CloseEffect(l, reason).ledgers;
    IdsExactly(l'.dispositions, DispositionId, r.call.id);
    PendingExactly(l, r);
    if !Answered(l, r.call.id) {
      if Disposed(l, r.call.id) {
        GrownIds(l.dispositions, l'.dispositions, DispositionId, r.call.id);
      } else {
        var k :| 0 <= k < |Pending(l)| && Pending(l)[k] == r;
        assert DispositionId(l'.dispositions[|l.dispositions| + k]) == r.call.id;
      }
    }
  }

  /** The requests of the run were closed. */
  ghost predicate Closes(h: Host, events: seq<Event>, reason: string) {
    CloseEffect(Run(h, events), reason).ok
  }

  lemma RunClosed(h: Host, events: seq<Event>, reason: string)
    ensures Run(h, events + [Close(reason)]) == CloseEffect(Run(h, events), reason).ledgers
  {
    var longer := events + [Close(reason)];
    assert longer[..|longer| - 1] == events;
  }

  /** After closing, coverage is complete exactly when nothing is doubled, or muddled. */
  lemma ClosedCoverage(h: Host, events: seq<Event>, reason: string)
    requires Closes(h, events, reason)
    ensures var l := Run(h, events + [Close(reason)]);
      && (ToolReceipt(h, l).complete <==> forall x :: !Doubled(h, l, x))
      && (WriteReceipt(h, l).complete <==> forall x :: !Muddled(h, l, x))
  {
    RunClosed(h, events, reason);
    RunConsistent(h, events + [Close(reason)]);
    var l := Run(h, events + [Close(reason)]);
    ToolCoverageExactly(h, l);
    WriteCoverageExactly(h, l);
    forall i | 0 <= i < |l.requests| ensures Answered(l, l.requests[i].call.id) || Disposed(l, l.requests[i].call.id) {
      CloseAnswersAll(Run(h, events), reason, i);
    }
    forall x | AgentWrite(h, l, x) ensures (Written(l, x) <==> !Disposed(l, x)) <==> !Muddled(h, l, x) {
      if Written(l, x) { WrittenCalls(h, l, x); }
    }
    forall x | AgentCall(h, l, x) ensures (Answered(l, x) <==> !Disposed(l, x)) <==> !Doubled(h, l, x) {
    }
  }

  /** Tool-result coverage of a closed run is complete exactly when no result of the agent landed on a disposed call. */
  lemma ToolCoverageOfRun(h: Host, events: seq<Event>, reason: string)
    requires Closes(h, events, reason)
    ensures ToolReceipt(h, Run(h, events + [Close(reason)])).complete <==> NeverHarmsTool(h, events)
  {
    ClosedCoverage(h, events, reason);
    RunClosed(h, events, reason);
    RunConsistent(h, events);
    var l, l' := Run(h, events), Run(h, events + [Close(reason)]);
    forall x | Doubled(h, l', x) ensures !NeverHarmsTool(h, events) {
      CloseHarmless(h, l, reason, x);
      RunHarm(h, events, x);
      var k := ToolHarmer(h, events, x);
    }
    forall k: nat | k < |events| && HarmsTool(h, Run(h, events[..k]), events[k]) ensures Doubled(h, l', events[k].call.id) {
      ToolHarmed(h, events, k, events[k].call.id);
      RunHarm(h, events, events[k].call.id);
      CloseHarmless(h, l, reason, events[k].call.id);
    }
  }

  /** Write coverage of a closed run is complete exactly when every landed result of a mutating call of the agent
      either left an effect or belonged to a disposed call, and not both. */
  lemma WriteCoverageOfRun(h: Host, events: seq<Event>, reason: string)
    requires Closes(h, events, reason)
    ensures WriteReceipt(h, Run(h, events + [Close(reason)])).complete <==> NeverHarmsWrite(h, events)
  {
    ClosedCoverage(h, events, reason);
    RunClosed(h, events, reason);
    RunConsistent(h, events);
    var l, l' := Run(h, events), Run(h, events + [Close(reason)]);
    forall x | Muddled(h, l', x) ensures !NeverHarmsWrite(h, events) {
      CloseHarmless(h, l, reason, x);
      RunHarm(h, events, x);
      var k := WriteHarmer(h, events, x);
    }
    forall k: nat | k < |events| && HarmsWrite(h, Run(h, events[..k]), events[k]) ensures Muddled(h, l', events[k].call.id) {
      WriteHarmed(h, events, k, events[k].call.id);
      RunHarm(h, events, events[k].call.id);
      CloseHarmless(h, l, reason, events[k].call.id);
    }
  }

  /** Coverage closure: after closing, both coverages are complete exactly when no result of the agent landed on a
      disposed call, or on a mutating call whose state roots were missing or empty. Executor failures, wrong
      identifiers, conflicting requests and calls of others never matter. */
  lemma ClosedRunsAreComplete(h: Host, events: seq<Event>, reason: string)
    requires Closes(h, events, reason)
    ensures var l := Run(h, events + [Close(reason)]);
      ToolReceipt(h, l).complete && WriteReceipt(h, l).complete <==> NeverHarms(h, events)
  {
    ToolCoverageOfRun(h, events, reason);
    WriteCoverageOfRun(h, events, reason);
    forall k | 0 <= k < |events|
      ensures Harms(h, Run(h, events[..k]), events[k]) <==>
                HarmsTool(h, Run(h, events[..k]), events[k]) || HarmsWrite(h, Run(h, events[..k]), events[k]) {
    }
  }

  // ----- a run for each cause -----

  function FirstCall(h: Host, tool: string): Call {
    Call("call-1", tool, "{}", h.agent)
  }

  /** An agent's call is requested, disposed of, and then executed after all. */
  function LateRun(h: Host, tool: string): seq<Event> {
    var call := FirstCall(h, tool);
    [Ask(call), Close("timeout"), Execute(call, Returns("call-1", "done", false), Some("before"), Some("after"))]
  }

  lemma LateExecutionHappens(h: Host, tool: string)
    ensures HarmsTool(h, Run(h, LateRun(h, tool)[..2]), LateRun(h, tool)[2])
  {
    var events, call := LateRun(h, tool), FirstCall(h, tool);
    var l0, r := Ledgers([], [], [], []), Request(0, call, h.mutates(tool));
    assert events[..2] == events[..1] + [events[1]] && events[..1] == [] + [events[0]];
    assert events[..2][..1] == events[..1] && events[..1][..0] == [];
    var l1 := Run(h, events[..1]);
    assert Run(h, []) == l0 && l1 == Step(h, l0, events[0]);
    assert l1 == Ledgers([r], [], [], []);
    PendingExactly(l1, r);
    var l2 := Run(h, events[..2]);
    assert l2 == CloseEffect(l1, "timeout").ledgers;
    CloseAnswersAll(l1, "timeout", 0);
  }

  /** Whatever happens afterwards, tool-result coverage of such a run is incomplete. */
  lemma LateExecution(h: Host, tool: string, later: seq<Event>, reason: string)
    requires Closes(h, LateRun(h, tool) + later, reason)
    ensures !ToolReceipt(h, Run(h, LateRun(h, tool) + later + [Close(reason)])).complete
  {
    var events := LateRun(h, tool) + later;
    LateExecutionHappens(h, tool);
    assert events[..2] == LateRun(h, tool)[..2] && events[2] == LateRun(h, tool)[2];
    ToolCoverageOfRun(h, events, reason);
  }

  /** A mutating call whose state root after execution cannot be taken, or is empty. */
  function RootlessRun(h: Host, tool: string, post: Root): seq<Event> {
    [Execute(FirstCall(h, tool), Returns("call-1", "done", false), Some("before"), post)]
  }

  /** Whatever happens afterwards, write coverage of such a run is incomplete. */
  lemma RootlessExecution(h: Host, tool: string, post: Root, later: seq<Event>, reason: string)
    requires h.mutates(tool) && (post.None? || post.value == "")
    requires Closes(h, RootlessRun(h, tool, post) + later, reason)
    ensures !WriteReceipt(h, Run(h, RootlessRun(h, tool, post) + later + [Close(reason)])).complete
  {
    var events := RootlessRun(h, tool, post) + later;
    assert events[..0] == [] && events[0] == RootlessRun(h, tool, post)[0];
    assert HarmsWrite(h, Run(h, events[..0]), events[0]);
    WriteCoverageOfRun(h, events, reason);
  }

  /** In terms of the ledgers alone: a call of the agent that is both answered and disposed of makes tool-result
      coverage incomplete, and no later event repairs that. */
  lemma LateExecutionIsFinal(h: Host, l: Ledgers, x: string, e: Event)
    requires Consistent(h, l) && AgentCall(h, l, x) && Answered(l, x) && Disposed(l, x)
    ensures !ToolReceipt(h, l).complete
    ensures var l' := Step(h, l, e); Consistent(h, l') && AgentCall(h, l', x) && Answered(l', x) && Disposed(l', x)
  {
    ToolCoverageExactly(h, l);
    StepKeeps(h, l, e);
    StepGrows(h, l, e);
    var l' := Step(h, l, e);
    var i :| 0 <= i < |l.requests| && l.requests[i].call.id == x && l.requests[i].call.requestor == h.agent;
    assert l'.requests[i] == l.requests[i];
    GrownIds(l.results, l'.results, InteractionId, x);
    GrownIds(l.dispositions, l'.dispositions, DispositionId, x);
  }

  ghost predicate Extends<T>(longer: seq<T>, s: seq<T>) {
    |s| <= |longer| && longer[..|s|] == s
  }

  /** Ledgers are append-only. */
  lemma StepGrows(h: Host, l: Ledgers, e: Event)
    ensures var l' := Step(h, l, e);
      && Extends(l'.requests, l.requests) && Extends(l'.results, l.results)
      && Extends(l'.writes, l.writes) && Extends(l'.dispositions, l.dispositions)
  {
    match e
    case Ask(call) =>
    case Execute(call, outcome, pre, post) => ExecuteGrows(h, l, call, outcome, pre, post);
    case Close(reason) =>
  }

  lemma ExecuteGrows(h: Host, l: Ledgers, call: Call, outcome: Outcome, pre: Root, post: Root)
    ensures var l' := ExecuteEffect(h, l, call, outcome, pre, post).ledgers;
      && Extends(l'.requests, l.requests) && Extends(l'.results, l.results)
      && Extends(l'.writes, l.writes) && l'.dispositions == l.dispositions
  {
    var recorded := RecordEffect(h, l, call).ledgers;
    assert Extends(recorded.requests, l.requests) && recorded.results == l.results;
  }

  lemma GrownIds<T>(s: seq<T>, longer: seq<T>, id: T -> string, x: string)
    requires Extends(longer, s) && x in IdsOf(s, id)
    ensures x in IdsOf(longer, id)
  {
    IdsExactly(s, id, x);
    IdsExactly(longer, id, x);
    var i :| 0 <= i < |s| && id(s[i]) == x;
    assert longer[i] == s[i];
  }
}
