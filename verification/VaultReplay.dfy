/** `replay`: the hash chain and key chain first, then the fold that rebuilds the state. */
module VaultReplay {
  import opened Wrappers
  import opened Order
  import opened VaultTypes

  // ----- the chain -----

  function Active(c: Chain): Key
    requires c.history != []
  {
    c.history[|c.history| - 1]
  }

  /** `_validate_journal_authority_rotation` */
  predicate RotationAccepted(c: Chain, r: Rotation)
    requires c.history != []
  {
    r.predecessor == Active(c) && r.successor !in c.history
  }

  /** `_verify_event` and the rotation handling of `replay`. */
  function ChainStep(site: Site, c: Chain, e: Event): (r: Option<Chain>)
    requires c.history != []
    ensures r.Some? ==> r.value.history != []
  {
    if e.payload.sequence != c.count + 1 || e.payload.previous != c.previous
       || e.payload.vaultId != site.manifest.vaultId || e.root != EventRoot(e.payload)
       || e.signerKey != Active(c) || !site.scheme.verify(Active(c), e.root, e.signature) then None
    else if e.payload.body.AuthorityRotated? then
      var r := e.payload.body.rotation;
      if RotationAccepted(c, r) then Some(Chain(c.count + 1, Some(e.root), c.history + [r.successor])) else None
    else Some(Chain(c.count + 1, Some(e.root), c.history))
  }

  function FollowChain(site: Site, journal: seq<Event>): (r: Option<Chain>)
    ensures r.Some? ==> r.value.history != []
  {
    if journal == [] then Some(Chain(0, None, [site.manifest.initialKey]))
    else
      var c := FollowChain(site, journal[..|journal| - 1]);
      if c.None? then None else ChainStep(site, c.value, journal[|journal| - 1])
  }

  /** `state["vault_root"]` */
  function VaultRoot(site: Site, c: Chain): Root {
    if c.previous.Some? then c.previous.value else ManifestRoot(site.manifest)
  }

  // ----- the state -----

  const EMPTY := State(Catalog(map[], map[]), Custody(map[], map[], map[]), map[], map[])

  predicate StrictlySorted(ids: seq<string>) {
    forall i, j :: 0 <= i < j < |ids| ==> NameLess(ids[i], ids[j])
  }

  predicate ClaimIdsAccepted(ids: seq<string>) {
    StrictlySorted(ids) && forall x :: x in ids ==> IsIdentifier(x)
  }

  /** `_validate_retirement` */
  predicate RetirementAccepted(k: Catalog, r: Retirement) {
    && (r.replacement.Some? ==>
          && r.replacement.value in k.components && r.ref in k.components && r.replacement.value != r.ref
          && k.components[r.replacement.value].body.kind == k.components[r.ref].body.kind)
    && ClaimIdsAccepted(r.impacted) && ClaimIdsAccepted(r.unsupported)
  }

  /** `_deletion_commit_body` */
  function CommitBody(i: Row<Intent>): Tombstone {
    var b := i.body;
    Tombstone(b.evidenceId, b.address, b.basis, b.authorityRef, b.decision, b.physical,
              b.retainedByEvidence, b.retainedByComponents, Some(i.root))
  }

  /** One event folded into the state; refused when it repeats an identity or breaks a transition. */
  function StateStep(s: State, e: Event): Option<State> {
    var k, c := s.catalog, s.custody;
    match e.payload.body
    case ComponentArchived(x) =>
      if x.ref in k.components then None
      else Some(s.(catalog := k.(components := k.components[x.ref := Row(x, e.root)])))
    case EvidenceAppended(v) =>
      if v.id in c.evidence then None
      else Some(s.(custody := c.(evidence := c.evidence[v.id := Row(v, e.root)])))
    case BundleSealed(b) =>
      if b.id in s.bundles then None else Some(s.(bundles := s.bundles[b.id := Row(b, e.root)]))
    case HoldPlaced(h) =>
      if h.id in s.holds then None
      else Some(s.(holds := s.holds[h.id := HoldState(h.evidenceIds, false, e.root)]))
    case HoldReleased(r) =>
      if r.holdId !in s.holds || s.holds[r.holdId].released then None
      else Some(s.(holds := s.holds[r.holdId := s.holds[r.holdId].(released := true)]))
    case DeletionIntent(i) =>
      if i.evidenceId !in c.evidence || i.evidenceId in c.deletions || i.evidenceId in c.intents then None
      else Some(s.(custody := c.(intents := c.intents[i.evidenceId := Row(i, e.root)])))
    case EvidenceDeleted(t) =>
      if t.evidenceId !in c.evidence || t.evidenceId in c.deletions then None
      else if t.intentRoot.Some? && (t.evidenceId !in c.intents || c.intents[t.evidenceId].root != t.intentRoot.value
                                     || t != CommitBody(c.intents[t.evidenceId])) then None
      else Some(s.(custody := c.(deletions := c.deletions[t.evidenceId := Row(t, e.root)])))
    case ComponentRetired(r) =>
      if r.ref !in k.components || !RetirementAccepted(k, r) || r.ref in k.retirements then None
      else Some(s.(catalog := k.(retirements := k.retirements[r.ref := Row(r, e.root)])))
    case AuthorityRotated(_) => Some(s)
  }

  function FoldState(journal: seq<Event>): Option<State> {
    if journal == [] then Some(EMPTY)
    else
      var s := FoldState(journal[..|journal| - 1]);
      if s.None? then None else StateStep(s.value, journal[|journal| - 1])
  }

  predicate Accepted(site: Site, journal: seq<Event>) {
    FollowChain(site, journal).Some? && FoldState(journal).Some?
  }

  /** `replay` as the two loops it is. */
  method Replay(site: Site, journal: seq<Event>) returns (r: Option<(Chain, State)>)
    ensures r.Some? <==> Accepted(site, journal)
    ensures r.Some? ==> FollowChain(site, journal) == Some(r.value.0) && FoldState(journal) == Some(r.value.1)
  {
    var chain := Chain(0, None, [site.manifest.initialKey]);
    for i := 0 to |journal|
      invariant chain.history != [] && FollowChain(site, journal[..i]) == Some(chain)
    {
      assert journal[..i + 1][..i] == journal[..i];
      var next := ChainStep(site, chain, journal[i]);
      if next.None? {
        RefusedPrefix(site, journal, i + 1);
        return None;
      }
      chain := next.value;
    }
    var state := EMPTY;
    for i := 0 to |journal|
      invariant FoldState(journal[..i]) == Some(state)
    {
      assert journal[..i + 1][..i] == journal[..i];
      var next := StateStep(state, journal[i]);
      if next.None? {
        RefusedPrefix(site, journal, i + 1);
        return None;
      }
      state := next.value;
    }
    assert journal[..|journal|] == journal;
    r := Some((chain, state));
  }

  /** A journal whose prefix is refused is refused. */
  lemma {:induction false} RefusedPrefix(site: Site, journal: seq<Event>, n: nat)
    requires n <= |journal|
    ensures FollowChain(site, journal[..n]).None? ==> FollowChain(site, journal).None?
    ensures FoldState(journal[..n]).None? ==> FoldState(journal).None?
    decreases |journal|
  {
    if n < |journal| {
      var init := journal[..|journal| - 1];
      RefusedPrefix(site, init, n);
      assert init[..n] == journal[..n];
    } else {
      assert journal[..n] == journal;
    }
  }

  lemma Append(site: Site, journal: seq<Event>, e: Event)
    ensures FollowChain(site, journal + [e]) ==
              if FollowChain(site, journal).None? then None else ChainStep(site, FollowChain(site, journal).value, e)
    ensures FoldState(journal + [e]) == if FoldState(journal).None? then None else StateStep(FoldState(journal).value, e)
  {
    assert (journal + [e])[..|journal|] == journal;
  }

  // ----- what an accepted journal says -----

  function Payloads(journal: seq<Event>): seq<Payload> {
    if journal == [] then [] else Payloads(journal[..|journal| - 1]) + [journal[|journal| - 1].payload]
  }

  lemma {:induction false} ChainShape(site: Site, journal: seq<Event>)
    requires FollowChain(site, journal).Some?
    ensures FollowChain(site, journal).value.count == |journal|
    ensures FollowChain(site, journal).value.previous ==
              if journal == [] then None else Some(EventRoot(journal[|journal| - 1].payload))
  {
    if journal != [] { ChainShape(site, journal[..|journal| - 1]); }
  }

  /** The vault root determines the whole payload sequence (but not the signatures). */
  lemma {:induction false} JournalUnique(site: Site, a: seq<Event>, b: seq<Event>)
    requires FollowChain(site, a).Some? && FollowChain(site, b).Some?
    requires VaultRoot(site, FollowChain(site, a).value) == VaultRoot(site, FollowChain(site, b).value)
    ensures Payloads(a) == Payloads(b)
    ensures FollowChain(site, a).value.history == FollowChain(site, b).value.history
    decreases |a|
  {
    ChainShape(site, a);
    ChainShape(site, b);
    if a != [] && b != [] {
      var a', b' := a[..|a| - 1], b[..|b| - 1];
      ChainShape(site, a');
      ChainShape(site, b');
      JournalUnique(site, a', b');
    }
  }

  function Prefix(journal: seq<Event>, i: nat): seq<Event>
    requires i <= |journal|
  {
    journal[..i]
  }

  /** Every event is signed by the key in force where it stands; the key history has no repetition and ends
      in the active key. */
  lemma {:induction false} KeyChain(site: Site, journal: seq<Event>)
    requires FollowChain(site, journal).Some?
    ensures forall i :: 0 <= i < |journal| ==>
              && FollowChain(site, Prefix(journal, i)).Some?
              && journal[i].signerKey == Active(FollowChain(site, Prefix(journal, i)).value)
              && site.scheme.verify(journal[i].signerKey, EventRoot(journal[i].payload), journal[i].signature)
    ensures forall i, j :: 0 <= i < j < |FollowChain(site, journal).value.history| ==>
              FollowChain(site, journal).value.history[i] != FollowChain(site, journal).value.history[j]
    ensures FollowChain(site, journal).value.history[0] == site.manifest.initialKey
    decreases |journal|
  {
    if journal != [] {
      var n := |journal| - 1;
      var init := journal[..n];
      KeyChain(site, init);
      forall i | 0 <= i < |journal|
        ensures FollowChain(site, Prefix(journal, i)).Some?
        ensures journal[i].signerKey == Active(FollowChain(site, Prefix(journal, i)).value)
        ensures site.scheme.verify(journal[i].signerKey, EventRoot(journal[i].payload), journal[i].signature)
      {
        if i < n { assert Prefix(journal, i) == Prefix(init, i); } else { assert Prefix(journal, i) == init; }
      }
    }
  }
}
