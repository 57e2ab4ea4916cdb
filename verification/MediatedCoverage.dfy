/** What a coverage capability is worth: the mediation proof behind it, and what an assured contract then
    guarantees for a query over negative evidence. */
module MediatedCoverage {
  import opened Wrappers
  import opened Compiler
  import Topology

  /** The channels with a valid mediation proof under the threat model, with their mediators. */
  ghost predicate AreProven(topology: Topology.Deployment, bypassEdges: seq<Topology.Edge>, mediator: map<string, string>) {
    forall ch :: ch in mediator <==> Proven(topology, bypassEdges, mediator, ch)
  }

  ghost predicate Proven(topology: Topology.Deployment, bypassEdges: seq<Topology.Edge>, mediator: map<string, string>, ch: string) {
    && ch in topology.channels && Topology.Mediated(topology.edges + bypassEdges, topology.channels[ch])
    && (ch in mediator ==> mediator[ch] == topology.channels[ch].mediator)
  }

  /** `verify_mediation`, for every channel a capability could name. */
  method ProvenMediators(topology: Topology.Deployment, bypassEdges: seq<Topology.Edge>) returns (mediator: map<string, string>)
    ensures AreProven(topology, bypassEdges, mediator)
  {
    mediator := map[];
    var todo := topology.channels.Keys;
    while todo != {}
      invariant todo <= topology.channels.Keys
      invariant forall ch :: ch in mediator <==> ch !in todo && Proven(topology, bypassEdges, mediator, ch)
      decreases todo
    {
      var ch :| ch in todo;
      var proof := Topology.VerifyMediation(topology, ch, bypassEdges);
      todo := todo - {ch};
      if proof.valid {
        mediator := mediator[ch := proof.mediator.value];
      }
    }
  }

  /** The mechanism captures where everything the channel carries must pass. */
  ghost predicate CapturesAll(topology: Topology.Deployment, bypassEdges: seq<Topology.Edge>, ch: string, m: Mechanism) {
    && ch in topology.channels && m.coverageChannel == Some(ch)
    && forall s, t :: Topology.Pairs(topology.channels[ch], s, t) ==>
         Topology.Dominates(topology.edges + bypassEdges, m.capturePoint, s, t)
  }

  /** An assured contract for a query over negative evidence contains, for every channel the query depends
      on, a mechanism whose capture point lies on every path of that channel, threat-model bypasses included. */
  lemma NegativeEvidenceIsMediated<W, V, A>(spec: Spec<W, V, A>, topology: Topology.Deployment, bypassEdges: seq<Topology.Edge>,
                                            modes: set<Mode>, t: set<string>, f: Fact)
    requires AreProven(topology, bypassEdges, spec.mediator)
    requires Assured(spec, modes, t) && f in spec.query.facts && f.negativeChannel.Some?
    ensures exists m :: m in t && m in spec.mechanisms && CapturesAll(topology, bypassEdges, f.negativeChannel.value, spec.mechanisms[m])
  {
    var ch := f.negativeChannel.value;
    assert Coverage(ch) in DerivedRequirements(spec.query);
    var m :| m in t && Provides(spec, m, Coverage(ch));
    assert Proven(topology, bypassEdges, spec.mediator, ch);
    assert CapturesAll(topology, bypassEdges, ch, spec.mechanisms[m]);
  }
}
