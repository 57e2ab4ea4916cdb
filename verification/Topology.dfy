/** Mediation proofs over deployment topologies: breadth-first search and mediator dominance. */
module Topology {
  import opened Wrappers
  import opened Order

  type Edge = (string, string)

  datatype Channel = Channel(sources: seq<string>, sinks: seq<string>, mediator: string)

  datatype Deployment = Deployment(edges: seq<Edge>, channels: map<string, Channel>)

  // ----- paths -----

  predicate Usable(edges: seq<Edge>, removed: Option<string>, a: string, b: string) {
    (a, b) in edges && removed != Some(a) && removed != Some(b)
  }

  /** A walk along usable edges. */
  ghost predicate IsWalk(edges: seq<Edge>, removed: Option<string>, p: seq<string>) {
    p != [] && removed != Some(p[0]) && forall i :: 0 <= i < |p| - 1 ==> Usable(edges, removed, p[i], p[i + 1])
  }

  ghost predicate IsPath(edges: seq<Edge>, removed: Option<string>, source: string, sink: string, p: seq<string>) {
    IsWalk(edges, removed, p) && p[0] == source && p[|p| - 1] == sink
  }

  lemma WalkAvoids(edges: seq<Edge>, removed: Option<string>, p: seq<string>)
    requires IsWalk(edges, removed, p)
    ensures forall x :: x in p ==> removed != Some(x)
    ensures IsWalk(edges, None, p)
  {
    forall i | 0 <= i < |p| ensures removed != Some(p[i]) {
      if i > 0 { assert Usable(edges, removed, p[i - 1], p[i]); }
    }
    forall i | 0 <= i < |p| - 1 ensures Usable(edges, None, p[i], p[i + 1]) {
      assert Usable(edges, removed, p[i], p[i + 1]);
    }
  }

  lemma AvoidingWalk(edges: seq<Edge>, m: string, p: seq<string>)
    requires IsWalk(edges, None, p) && m !in p
    ensures IsWalk(edges, Some(m), p)
  {
    forall i | 0 <= i < |p| - 1 ensures Usable(edges, Some(m), p[i], p[i + 1]) {
      assert Usable(edges, None, p[i], p[i + 1]);
    }
  }

  // ----- breadth-first search -----

  datatype Entry = Entry(node: string, path: seq<string>)

  method Adjacency(edges: seq<Edge>, removed: Option<string>) returns (adjacency: map<string, set<string>>)
    ensures forall a, b :: (a in adjacency && b in adjacency[a]) <==> Usable(edges, removed, a, b)
  {
    adjacency := map[];
    for i := 0 to |edges|
      invariant forall a, b :: (a in adjacency && b in adjacency[a]) <==> Usable(edges[..i], removed, a, b)
    {
      var (left, right) := edges[i];
      UsableSnoc(edges[..i], removed, left, right);
      assert edges[..i + 1] == edges[..i] + [(left, right)];
      if removed != Some(left) && removed != Some(right) {
        var known := if left in adjacency then adjacency[left] else {};
        adjacency := adjacency[left := known + {right}];
      }
    }
    assert edges[..|edges|] == edges;
  }

  lemma UsableSnoc(edges: seq<Edge>, removed: Option<string>, left: string, right: string)
    ensures forall a, b :: Usable(edges + [(left, right)], removed, a, b)
              <==> Usable(edges, removed, a, b) || (a == left && b == right && removed != Some(a) && removed != Some(b))
  {
  }

  /** The search state between two pops. `rank` gives every visited node the length of the path it was
      enqueued with; `settled` are the nodes already popped. */
  ghost predicate Frontier(edges: seq<Edge>, removed: Option<string>, source: string, queue: seq<Entry>,
                           visited: set<string>, rank: map<string, nat>)
  {
    && rank.Keys == visited && source in visited && rank[source] == 1
    && (forall k :: 0 <= k < |queue| ==> QueueEntry(edges, removed, source, queue[k], rank))
    && (forall j, k :: 0 <= j < k < |queue| ==> |queue[j].path| <= |queue[k].path| <= |queue[j].path| + 1)
  }

  ghost predicate QueueEntry(edges: seq<Edge>, removed: Option<string>, source: string, e: Entry, rank: map<string, nat>) {
    IsPath(edges, removed, source, e.node, e.path) && e.node in rank && rank[e.node] == |e.path|
  }

  ghost predicate Settled(edges: seq<Edge>, removed: Option<string>, settled: set<string>, rank: map<string, nat>) {
    forall u, w :: u in settled && Usable(edges, removed, u, w) ==> u in rank && w in rank && rank[w] <= rank[u] + 1
  }

  ghost predicate Waiting(queue: seq<Entry>, v: string) {
    exists k :: 0 <= k < |queue| && queue[k].node == v
  }

  /** Along any walk from the source, the first unsettled node waits in the queue with a rank no longer
      than the walk so far. */
  lemma {:induction false} FirstUnsettled(edges: seq<Edge>, removed: Option<string>, source: string, settled: set<string>,
                                          rank: map<string, nat>, q: seq<string>, i: nat)
    requires IsWalk(edges, removed, q) && q[0] == source && source in rank && rank[source] == 1
    requires Settled(edges, removed, settled, rank)
    requires i < |q| && forall j :: 0 <= j < i ==> q[j] in settled
    ensures q[i] in rank && rank[q[i]] <= i + 1
  {
    if i > 0 {
      FirstUnsettled(edges, removed, source, settled, rank, q, i - 1);
      assert Usable(edges, removed, q[i - 1], q[i]);
    }
  }

  function UpTo(q: seq<string>, settled: set<string>): (i: nat)
    ensures i <= |q| && (forall j :: 0 <= j < i ==> q[j] in settled)
    ensures i < |q| ==> q[i] !in settled
  {
    if q == [] || q[0] !in settled then 0 else 1 + UpTo(q[1..], settled)
  }

  /** The invariant between two pops. */
  ghost predicate Searching(edges: seq<Edge>, removed: Option<string>, source: string, queue: seq<Entry>,
                            visited: set<string>, rank: map<string, nat>, settled: set<string>)
  {
    && Frontier(edges, removed, source, queue, visited, rank)
    && Settled(edges, removed, settled, rank)
    && settled <= visited
    && (forall v :: v in visited ==> v in settled || Waiting(queue, v))
    && (forall v :: v in visited && queue != [] ==> rank[v] <= |queue[0].path| + 1)
  }

  /** The invariant while the successors of the popped `head` are being enqueued. */
  ghost predicate Expanding(edges: seq<Edge>, removed: Option<string>, source: string, head: Entry, queue: seq<Entry>,
                            visited: set<string>, rank: map<string, nat>, settled: set<string>)
  {
    && Frontier(edges, removed, source, queue, visited, rank)
    && Settled(edges, removed, settled, rank)
    && settled <= visited
    && QueueEntry(edges, removed, source, head, rank)
    && (forall v :: v in visited ==> v in settled || v == head.node || Waiting(queue, v))
    && (forall v :: v in visited ==> rank[v] <= |head.path| + 1)
    && (forall k :: 0 <= k < |queue| ==> |head.path| <= |queue[k].path| <= |head.path| + 1)
  }

  lemma PopStarts(edges: seq<Edge>, removed: Option<string>, source: string, queue: seq<Entry>,
                  visited: set<string>, rank: map<string, nat>, settled: set<string>)
    requires Searching(edges, removed, source, queue, visited, rank, settled) && queue != []
    ensures Expanding(edges, removed, source, queue[0], queue[1..], visited, rank, settled)
  {
    forall v | v in visited && v !in settled && v != queue[0].node ensures Waiting(queue[1..], v) {
      var k :| 0 <= k < |queue| && queue[k].node == v;
      assert queue[1..][k - 1].node == v;
    }
  }

  lemma EnqueueKeeps(edges: seq<Edge>, removed: Option<string>, source: string, head: Entry, queue: seq<Entry>,
                     visited: set<string>, rank: map<string, nat>, settled: set<string>, w: string)
    requires Expanding(edges, removed, source, head, queue, visited, rank, settled)
    requires Usable(edges, removed, head.node, w) && w !in visited
    ensures Expanding(edges, removed, source, head, queue + [Entry(w, head.path + [w])], visited + {w},
                      rank[w := |head.path| + 1], settled)
  {
    var entry := Entry(w, head.path + [w]);
    var queue', rank' := queue + [entry], rank[w := |head.path| + 1];
    assert IsPath(edges, removed, source, w, entry.path);
    assert QueueEntry(edges, removed, source, entry, rank');
    forall k | 0 <= k < |queue| ensures QueueEntry(edges, removed, source, queue'[k], rank') {
      assert QueueEntry(edges, removed, source, queue[k], rank);
    }
    forall v | v in visited + {w} ensures v in settled || v == head.node || Waiting(queue', v) {
      if v == w {
        assert queue'[|queue|].node == w;
      } else if Waiting(queue, v) {
        var k :| 0 <= k < |queue| && queue[k].node == v;
        assert queue'[k].node == v;
      }
    }
  }

  lemma PopEnds(edges: seq<Edge>, removed: Option<string>, source: string, head: Entry, queue: seq<Entry>,
                visited: set<string>, rank: map<string, nat>, settled: set<string>)
    requires Expanding(edges, removed, source, head, queue, visited, rank, settled)
    requires forall w :: Usable(edges, removed, head.node, w) ==> w in visited
    ensures Searching(edges, removed, source, queue, visited, rank, settled + {head.node})
  {
  }

  /** Nothing shorter than the head of the queue reaches an unsettled node. */
  lemma HeadIsNearest(edges: seq<Edge>, removed: Option<string>, source: string, queue: seq<Entry>, visited: set<string>,
                      rank: map<string, nat>, settled: set<string>, q: seq<string>)
    requires Searching(edges, removed, source, queue, visited, rank, settled)
    requires IsWalk(edges, removed, q) && q[0] == source && q[|q| - 1] !in settled
    ensures queue != [] && |queue[0].path| <= |q|
  {
    var i := UpTo(q, settled);
    FirstUnsettled(edges, removed, source, settled, rank, q, i);
    assert Waiting(queue, q[i]);
    var k :| 0 <= k < |queue| && queue[k].node == q[i];
    assert QueueEntry(edges, removed, source, queue[k], rank);
  }

  /** A shortest path, or a proof that there is none. */
  method ShortestPath(edges: seq<Edge>, source: string, sink: string, removed: Option<string>) returns (path: Option<seq<string>>)
    ensures path.Some? ==> IsPath(edges, removed, source, sink, path.value)
    ensures path.Some? ==> forall q :: IsPath(edges, removed, source, sink, q) ==> |path.value| <= |q|
    ensures path.None? ==> forall q :: !IsPath(edges, removed, source, sink, q)
  {
    if removed == Some(source) || removed == Some(sink) {
      RemovedEnd(edges, removed, source, sink);
      return None;
    }
    var adjacency := Adjacency(edges, removed);
    var queue, visited := [Entry(source, [source])], {source};
    ghost var rank: map<string, nat>, settled: set<string> := map[source := 1], {};
    ghost var nodes := {source} + (set e | e in edges :: e.1);
    SearchStarts(edges, removed, source);
    while queue != []
      invariant Searching(edges, removed, source, queue, visited, rank, settled)
      invariant sink !in settled && visited <= nodes
      decreases nodes - visited, |queue|
    {
      var head := queue[0];
      if head.node == sink {
        HeadIsShortest(edges, removed, source, sink, queue, visited, rank, settled);
        return Some(head.path);
      }
      var next := SortedNames(if head.node in adjacency then adjacency[head.node] else {});
      queue, visited, rank := Expand(edges, removed, source, queue, visited, rank, settled, next, nodes);
      settled := settled + {head.node};
    }
    Exhausted(edges, removed, source, sink, visited, rank, settled);
    path := None;
  }

  lemma RemovedEnd(edges: seq<Edge>, removed: Option<string>, source: string, sink: string)
    requires removed == Some(source) || removed == Some(sink)
    ensures forall q :: !IsPath(edges, removed, source, sink, q)
  {
    forall q | IsWalk(edges, removed, q) ensures removed != Some(q[0]) && removed != Some(q[|q| - 1]) {
      WalkAvoids(edges, removed, q);
    }
  }

  lemma SearchStarts(edges: seq<Edge>, removed: Option<string>, source: string)
    requires removed != Some(source)
    ensures Searching(edges, removed, source, [Entry(source, [source])], {source}, map[source := 1], {})
  {
    var entry := Entry(source, [source]);
    assert QueueEntry(edges, removed, source, entry, map[source := 1]);
    assert [entry][0].node == source;
  }

  lemma HeadIsShortest(edges: seq<Edge>, removed: Option<string>, source: string, sink: string, queue: seq<Entry>,
                       visited: set<string>, rank: map<string, nat>, settled: set<string>)
    requires Searching(edges, removed, source, queue, visited, rank, settled) && queue != []
    requires queue[0].node == sink && sink !in settled
    ensures IsPath(edges, removed, source, sink, queue[0].path)
    ensures forall q :: IsPath(edges, removed, source, sink, q) ==> |queue[0].path| <= |q|
  {
    assert QueueEntry(edges, removed, source, queue[0], rank);
    forall q | IsPath(edges, removed, source, sink, q) ensures |queue[0].path| <= |q| {
      HeadIsNearest(edges, removed, source, queue, visited, rank, settled, q);
    }
  }

  lemma Exhausted(edges: seq<Edge>, removed: Option<string>, source: string, sink: string,
                  visited: set<string>, rank: map<string, nat>, settled: set<string>)
    requires Searching(edges, removed, source, [], visited, rank, settled) && sink !in settled
    ensures forall q :: !IsPath(edges, removed, source, sink, q)
  {
    forall q ensures !IsPath(edges, removed, source, sink, q) {
      if IsPath(edges, removed, source, sink, q) {
        HeadIsNearest(edges, removed, source, [], visited, rank, settled, q);
        assert false;
      }
    }
  }

  /** Pops the head and enqueues its unvisited successors. */
  method Expand(ghost edges: seq<Edge>, ghost removed: Option<string>, ghost source: string, queue: seq<Entry>,
                visited: set<string>, ghost rank: map<string, nat>, ghost settled: set<string>, next: seq<string>, ghost nodes: set<string>)
    returns (queue': seq<Entry>, visited': set<string>, ghost rank': map<string, nat>)
    requires queue != [] && Searching(edges, removed, source, queue, visited, rank, settled)
    requires forall w :: w in next <==> Usable(edges, removed, queue[0].node, w)
    requires visited <= nodes && forall e :: e in edges ==> e.1 in nodes
    ensures Searching(edges, removed, source, queue', visited', rank', settled + {queue[0].node})
    ensures visited <= visited' <= nodes
    ensures visited' == visited ==> queue' == queue[1..]
  {
    var head := queue[0];
    PopStarts(edges, removed, source, queue, visited, rank, settled);
    queue', visited', rank' := queue[1..], visited, rank;
    for i := 0 to |next|
      invariant Expanding(edges, removed, source, head, queue', visited', rank', settled)
      invariant visited <= visited' <= nodes
      invariant forall j :: 0 <= j < i ==> next[j] in visited'
      invariant visited' == visited ==> queue' == queue[1..]
    {
      var w := next[i];
      if w !in visited' {
        EnqueueKeeps(edges, removed, source, head, queue', visited', rank', settled, w);
        assert (head.node, w) in edges;
        queue', visited', rank' := queue' + [Entry(w, head.path + [w])], visited' + {w}, rank'[w := |head.path| + 1];
      }
    }
    PopEnds(edges, removed, source, head, queue', visited', rank', settled);
  }

  // ----- verify_mediation -----

  datatype MediationProof = MediationProof(
    valid: bool,
    mediator: Option<string>,
    checkedPairs: seq<(string, string)>,
    bypasses: seq<seq<string>>,
    unreachable: Option<(string, string)>)

  predicate Pairs(c: Channel, source: string, sink: string) {
    source in c.sources && sink in c.sinks
  }

  ghost predicate Connected(edges: seq<Edge>, source: string, sink: string) {
    exists p :: IsPath(edges, None, source, sink, p)
  }

  /** Every path between the pair goes through the mediator. */
  ghost predicate Dominates(edges: seq<Edge>, mediator: string, source: string, sink: string) {
    forall p :: IsPath(edges, None, source, sink, p) ==> mediator in p
  }

  /** The mediation guarantee the capability label stands for. */
  ghost predicate Mediated(edges: seq<Edge>, c: Channel) {
    forall s, t :: Pairs(c, s, t) ==> Connected(edges, s, t) && Dominates(edges, c.mediator, s, t)
  }

  ghost predicate IsBypass(edges: seq<Edge>, c: Channel, p: seq<string>) {
    exists s, t :: Pairs(c, s, t) && IsPath(edges, None, s, t, p) && c.mediator !in p
  }

  /** `tuple(dict.fromkeys(edges))` */
  function Distinct(edges: seq<Edge>): (r: seq<Edge>)
    ensures forall e :: e in r <==> e in edges
    ensures forall i, j :: 0 <= i < j < |r| ==> r[i] != r[j]
  {
    if edges == [] then []
    else
      var init := Distinct(edges[..|edges| - 1]);
      var last := edges[|edges| - 1];
      assert edges == edges[..|edges| - 1] + [last];
      if last in init then init else init + [last]
  }

  lemma PathsOfSameEdges(edges: seq<Edge>, edges': seq<Edge>, removed: Option<string>)
    requires forall e :: e in edges <==> e in edges'
    ensures forall p :: IsWalk(edges, removed, p) <==> IsWalk(edges', removed, p)
  {
    assert forall a, b :: Usable(edges, removed, a, b) <==> Usable(edges', removed, a, b);
    forall p ensures IsWalk(edges, removed, p) <==> IsWalk(edges', removed, p) {
      if IsWalk(edges, removed, p) {
        forall i | 0 <= i < |p| - 1 ensures Usable(edges', removed, p[i], p[i + 1]) {
          assert Usable(edges, removed, p[i], p[i + 1]);
        }
      }
      if IsWalk(edges', removed, p) {
        forall i | 0 <= i < |p| - 1 ensures Usable(edges, removed, p[i], p[i + 1]) {
          assert Usable(edges', removed, p[i], p[i + 1]);
        }
      }
    }
  }

  /** The verdict on one source/sink pair: connected, and bypassed or dominated. */
  method CheckPair(edges: seq<Edge>, c: Channel, source: string, sink: string)
    returns (connected: bool, bypass: Option<seq<string>>)
    requires Pairs(c, source, sink)
    ensures connected <==> Connected(edges, source, sink)
    ensures connected && bypass.None? ==> Dominates(edges, c.mediator, source, sink)
    ensures bypass.Some? ==> IsBypass(edges, c, bypass.value) && !Dominates(edges, c.mediator, source, sink)
  {
    bypass := None;
    var path := ShortestPath(edges, source, sink, None);
    connected := path.Some?;
    if path.None? || source == c.mediator || sink == c.mediator {
      return;
    }
    bypass := ShortestPath(edges, source, sink, Some(c.mediator));
    if bypass.Some? {
      WalkAvoids(edges, Some(c.mediator), bypass.value);
      assert IsPath(edges, None, source, sink, bypass.value);
    } else {
      forall p | IsPath(edges, None, source, sink, p) ensures c.mediator in p {
        if c.mediator !in p {
          AvoidingWalk(edges, c.mediator, p);
          assert IsPath(edges, Some(c.mediator), source, sink, p);
        }
      }
    }
  }

  ghost predicate AllBypasses(edges: seq<Edge>, c: Channel, bypasses: seq<seq<string>>) {
    forall p :: p in bypasses ==> IsBypass(edges, c, p)
  }

  ghost predicate PairDone(edges: seq<Edge>, c: Channel, bypasses: seq<seq<string>>, s: string, t: string) {
    Connected(edges, s, t) && (bypasses == [] ==> Dominates(edges, c.mediator, s, t))
  }

  /** The inner loop over the sinks of one source; stops at the first unreachable sink. */
  method CheckSource(edges: seq<Edge>, c: Channel, source: string, checked: seq<(string, string)>, bypasses: seq<seq<string>>)
    returns (ok: bool, checked': seq<(string, string)>, bypasses': seq<seq<string>>, unreachable: Option<(string, string)>)
    requires source in c.sources && AllBypasses(edges, c, bypasses)
    ensures AllBypasses(edges, c, bypasses') && bypasses <= bypasses' && checked <= checked'
    ensures ok ==> forall t :: t in c.sinks ==> PairDone(edges, c, bypasses', source, t)
    ensures ok ==> unreachable.None?
    ensures !ok ==> unreachable.Some? && unreachable.value.0 == source && unreachable.value.1 in c.sinks
    ensures !ok ==> !Connected(edges, source, unreachable.value.1)
  {
    ok, checked', bypasses', unreachable := true, checked, bypasses, None;
    for i := 0 to |c.sinks|
      invariant AllBypasses(edges, c, bypasses') && bypasses <= bypasses' && checked <= checked'
      invariant forall k :: 0 <= k < i ==> PairDone(edges, c, bypasses', source, c.sinks[k])
    {
      var sink := c.sinks[i];
      checked' := checked' + [(source, sink)];
      var connected, bypass := CheckPair(edges, c, source, sink);
      if !connected {
        ok, unreachable := false, Some((source, sink));
        return;
      }
      if bypass.Some? {
        bypasses' := bypasses' + [bypass.value];
      }
    }
  }

  /** `valid` holds exactly when every source/sink pair is connected and every one of its paths visits the
      mediator; every bypass witness is a real path between a declared pair that avoids it. */
  method VerifyMediation(topology: Deployment, channelName: string, bypassEdges: seq<Edge>) returns (proof: MediationProof)
    ensures proof.valid <==>
              channelName in topology.channels && Mediated(topology.edges + bypassEdges, topology.channels[channelName])
    ensures channelName in topology.channels ==>
              && proof.mediator == Some(topology.channels[channelName].mediator)
              && AllBypasses(topology.edges + bypassEdges, topology.channels[channelName], proof.bypasses)
    ensures proof.unreachable.Some? ==>
              && channelName in topology.channels
              && Pairs(topology.channels[channelName], proof.unreachable.value.0, proof.unreachable.value.1)
              && !Connected(topology.edges + bypassEdges, proof.unreachable.value.0, proof.unreachable.value.1)
    ensures !proof.valid ==> channelName !in topology.channels || proof.unreachable.Some? || proof.bypasses != []
  {
    if channelName !in topology.channels {
      return MediationProof(false, None, [], [], None);
    }
    var c := topology.channels[channelName];
    var edges := Distinct(topology.edges + bypassEdges);
    PathsOfSameEdges(edges, topology.edges + bypassEdges, None);
    SameMediation(edges, topology.edges + bypassEdges, c);
    var checked: seq<(string, string)>, bypasses: seq<seq<string>> := [], [];
    for i := 0 to |c.sources|
      invariant AllBypasses(edges, c, bypasses)
      invariant forall k, t :: 0 <= k < i && t in c.sinks ==> PairDone(edges, c, bypasses, c.sources[k], t)
    {
      var ok, unreachable;
      ok, checked, bypasses, unreachable := CheckSource(edges, c, c.sources[i], checked, bypasses);
      if !ok {
        assert Pairs(c, unreachable.value.0, unreachable.value.1);
        return MediationProof(false, Some(c.mediator), checked, [], unreachable);
      }
    }
    BypassesRefute(edges, c, bypasses);
    proof := MediationProof(bypasses == [], Some(c.mediator), checked, bypasses, None);
  }

  lemma BypassesRefute(edges: seq<Edge>, c: Channel, bypasses: seq<seq<string>>)
    requires AllBypasses(edges, c, bypasses)
    requires forall s, t :: Pairs(c, s, t) ==> PairDone(edges, c, bypasses, s, t)
    ensures bypasses == [] <==> Mediated(edges, c)
  {
    if bypasses != [] {
      var p := bypasses[0];
      assert IsBypass(edges, c, p);
    }
  }

  lemma SameMediation(edges: seq<Edge>, edges': seq<Edge>, c: Channel)
    requires forall p :: IsWalk(edges, None, p) <==> IsWalk(edges', None, p)
    ensures forall s, t :: Connected(edges, s, t) <==> Connected(edges', s, t)
    ensures forall s, t :: Dominates(edges, c.mediator, s, t) <==> Dominates(edges', c.mediator, s, t)
    ensures forall p :: IsBypass(edges, c, p) <==> IsBypass(edges', c, p)
  {
    assert forall s, t, p :: IsPath(edges, None, s, t, p) <==> IsPath(edges', None, s, t, p);
    forall p ensures IsBypass(edges, c, p) <==> IsBypass(edges', c, p) {
      if IsBypass(edges, c, p) {
        var s, t :| Pairs(c, s, t) && IsPath(edges, None, s, t, p) && c.mediator !in p;
        assert IsPath(edges', None, s, t, p);
      }
      if IsBypass(edges', c, p) {
        var s, t :| Pairs(c, s, t) && IsPath(edges', None, s, t, p) && c.mediator !in p;
        assert IsPath(edges, None, s, t, p);
      }
    }
  }
}
