/** The vault directory as a machine of atomic writes, and what every reachable directory satisfies. */
module VaultModel {
  import opened Wrappers
  import opened Order
  import opened VaultTypes
  import opened VaultReplay

  /** What survives a crash: the journal and the content-addressed objects. */
  datatype Disk = Disk(journal: seq<Event>, objects: map<Hash, Bytes>)

  // ----- queries on the replayed state -----

  predicate IsPending(c: Custody, e: string) {
    e in c.intents && e !in c.deletions
  }

  function Pending(c: Custody): set<string> {
    set e | e in c.intents && e !in c.deletions
  }

  predicate Live(c: Custody, e: string) {
    e in c.evidence && e !in c.deletions && !IsPending(c, e)
  }

  predicate EvidenceNeeds(c: Custody, e: string, h: Hash) {
    Live(c, e) && c.evidence[e].body.address == h
  }

  predicate ComponentNeeds(k: Catalog, x: string, h: Hash) {
    x in k.components && k.components[x].body.address == h
  }

  predicate NeededByEvidence(c: Custody, h: Hash) {
    exists e :: e in c.evidence && EvidenceNeeds(c, e, h)
  }

  predicate NeededByComponent(k: Catalog, h: Hash) {
    exists x :: x in k.components && ComponentNeeds(k, x, h)
  }

  /** Something live still refers to the object. */
  predicate Referenced(s: State, h: Hash) {
    NeededByEvidence(s.custody, h) || NeededByComponent(s.catalog, h)
  }

  /** `_object_retention_references_from_state` */
  function RetainingEvidence(c: Custody, h: Hash, excluding: Option<string>): set<string> {
    set e | e in c.evidence && Some(e) != excluding && EvidenceNeeds(c, e, h)
  }

  function RetainingComponents(k: Catalog, h: Hash): set<string> {
    set x | x in k.components && ComponentNeeds(k, x, h)
  }

  function ActiveHolds(holds: map<string, HoldState>, e: string): set<string> {
    set h | h in holds && !holds[h].released && e in holds[h].evidenceIds
  }

  /** `_retention_decision_from_state` */
  function RetentionDecision(s: State, e: string, at: Instant): Decision
    requires e in s.custody.evidence
  {
    var body := s.custody.evidence[e].body;
    var holds := SortedNames(ActiveHolds(s.holds, e));
    Decision(at,
             if e in s.custody.deletions then Deleted
             else if IsPending(s.custody, e) then DeletionInProgress
             else if holds != [] then LegalHold
             else if at < body.minimumRetainUntil then RetainRequired
             else if at >= body.deletionRequiredBy then DeletionRequired
             else DeletionEligible,
             holds)
  }

  function AllowedStatus(basis: Basis): Retention {
    if basis.PolicyDeadline? then DeletionRequired else DeletionEligible
  }

  /** The intent `delete_evidence` writes. */
  function IntentFor(s: State, e: string, at: Instant, basis: Basis, authority: string): Intent
    requires e in s.custody.evidence
  {
    var h := s.custody.evidence[e].body.address;
    var others := SortedNames(RetainingEvidence(s.custody, h, Some(e)));
    var components := SortedNames(RetainingComponents(s.catalog, h));
    Intent(e, at, h, basis, authority, RetentionDecision(s, e, at), others == [] && components == [], others, components)
  }

  // ----- events -----

  /** The event `_append_event` signs with the active key. */
  function MakeEvent(site: Site, c: Chain, body: Body, at: Instant): Event
    requires c.history != []
  {
    var payload := Payload(site.manifest.vaultId, c.count + 1, if c.count > 0 then Some(VaultRoot(site, c)) else None, at, body);
    Event(payload, EventRoot(payload), Active(c), site.scheme.sign(Active(c), EventRoot(payload)))
  }

  function SequenceOf(r: Root): nat {
    if r.EventRoot? then r.payload.sequence else 0
  }

  function RecordedAt(r: Root): Instant {
    if r.EventRoot? then r.payload.recordedAt else 0
  }

  // ----- what the commands check before they append -----

  predicate Resolves(k: Catalog, ref: string, kind: Kind) {
    ref in k.components && k.components[ref].body.kind == kind && ref !in k.retirements
  }

  predicate CapturesValid(k: Catalog, v: Evidence) {
    && Resolves(k, v.schemaRef, SchemaKind) && Resolves(k, v.keyRef, KeyKind)
    && Resolves(k, v.verifierRef, VerifierKind) && Resolves(k, v.policyRef, PolicyKind)
    && (v.bridgeRef.Some? ==> Resolves(k, v.bridgeRef.value, BridgeKind))
  }

  predicate RowValid(c: Custody, row: BundleRow) {
    Live(c, row.evidenceId) && row == BundleRow(row.evidenceId, c.evidence[row.evidenceId].root, c.evidence[row.evidenceId].body.address)
  }

  predicate DeletionAllowed(s: State, i: Intent) {
    && i.evidenceId in s.custody.evidence
    && RetentionDecision(s, i.evidenceId, i.deletedAt).status == AllowedStatus(i.basis)
    && i == IntentFor(s, i.evidenceId, i.deletedAt, i.basis, i.authorityRef)
  }

  /** `retire_component` looks at references, not at the spelling of claim ids. */
  predicate RetirementAllowed(k: Catalog, r: Retirement) {
    && r.ref in k.components && r.ref !in k.retirements
    && (r.replacement.Some? ==>
          && r.replacement.value in k.components && r.replacement.value != r.ref && r.replacement.value !in k.retirements
          && k.components[r.replacement.value].body.kind == k.components[r.ref].body.kind)
    && StrictlySorted(r.impacted) && StrictlySorted(r.unsupported)
    && r.archiveObject == k.components[r.ref].body.address
  }

  /** The state-dependent checks of each command. */
  predicate CommandAllows(c: Chain, s: State, objects: map<Hash, Bytes>, body: Body, at: Instant)
    requires c.history != []
  {
    match body
    case ComponentArchived(x) => x.ref !in s.catalog.components && x.address in objects
    case EvidenceAppended(v) =>
      && v.capturedAt <= v.minimumRetainUntil <= v.deletionRequiredBy
      && v.id !in s.custody.evidence && CapturesValid(s.catalog, v) && v.address in objects
    case BundleSealed(b) => b.rows != [] && b.id !in s.bundles && forall row :: row in b.rows ==> RowValid(s.custody, row)
    case HoldPlaced(h) =>
      && h.evidenceIds != [] && StrictlySorted(h.evidenceIds) && h.id !in s.holds
      && forall e :: e in h.evidenceIds ==> Live(s.custody, e)
    case HoldReleased(r) => r.holdId in s.holds && !s.holds[r.holdId].released && r.placedRoot == s.holds[r.holdId].placedRoot
    case DeletionIntent(i) => i.deletedAt == at && DeletionAllowed(s, i) && (i.physical ==> i.address in objects)
    case EvidenceDeleted(_) => false
    case ComponentRetired(r) => RetirementAllowed(s.catalog, r) && r.retiredAt == at
    case AuthorityRotated(r) => r.predecessor == Active(c) && r.successor !in c.history
  }

  predicate ClaimIdsValid(body: Body) {
    body.ComponentRetired? ==>
      (forall x :: x in body.retirement.impacted ==> IsIdentifier(x)) && (forall x :: x in body.retirement.unsupported ==> IsIdentifier(x))
  }

  // ----- invariants of the state -----

  ghost predicate CustodyKeyed(c: Custody) {
    && (forall e :: e in c.evidence ==> c.evidence[e].body.id == e)
    && (forall e :: e in c.intents ==> c.intents[e].body.evidenceId == e)
    && (forall e :: e in c.deletions ==> c.deletions[e].body.evidenceId == e)
  }

  /** Every intent is about known evidence, every deletion completes an intent, and at most one is in flight. */
  ghost predicate DeletionsSound(c: Custody) {
    && c.intents.Keys <= c.evidence.Keys && c.deletions.Keys <= c.intents.Keys
    && (forall e :: e in c.intents ==> c.intents[e].body.address == c.evidence[e].body.address)
    && (forall a, b :: IsPending(c, a) && IsPending(c, b) ==> a == b)
  }

  /** A deletion in flight that unlinks its object conflicts with no live reference. */
  ghost predicate PendingUnshared(c: Custody, k: Catalog) {
    forall e :: IsPending(c, e) && c.intents[e].body.physical ==>
      !NeededByEvidence(c, c.intents[e].body.address) && !NeededByComponent(k, c.intents[e].body.address)
  }

  /** Evidence under an active hold is neither deleted nor about to be. */
  ghost predicate HoldsRespected(holds: map<string, HoldState>, c: Custody) {
    forall h, e :: h in holds && !holds[h].released && e in holds[h].evidenceIds ==> Live(c, e)
  }

  /** Every deletion is dated at or after the end of the minimum retention. */
  ghost predicate RetentionRespected(c: Custody) {
    && (forall e :: e in c.intents ==> e in c.evidence && c.intents[e].body.deletedAt >= c.evidence[e].body.minimumRetainUntil)
    && (forall e :: e in c.deletions ==> e in c.evidence && RecordedAt(c.deletions[e].root) >= c.evidence[e].body.minimumRetainUntil)
  }

  ghost predicate CapturedBefore(captured: Row<Evidence>, k: Catalog, ref: string, kind: Kind) {
    && ref in k.components && k.components[ref].body.kind == kind
    && (ref in k.retirements ==> SequenceOf(captured.root) < SequenceOf(k.retirements[ref].root))
  }

  ghost predicate CaptureRespected(captured: Row<Evidence>, k: Catalog) {
    var v := captured.body;
    && CapturedBefore(captured, k, v.schemaRef, SchemaKind) && CapturedBefore(captured, k, v.keyRef, KeyKind)
    && CapturedBefore(captured, k, v.verifierRef, VerifierKind) && CapturedBefore(captured, k, v.policyRef, PolicyKind)
    && (v.bridgeRef.Some? ==> CapturedBefore(captured, k, v.bridgeRef.value, BridgeKind))
  }

  /** No evidence was captured against a component already retired. */
  ghost predicate CapturesRespected(evidence: map<string, Row<Evidence>>, k: Catalog) {
    forall e :: e in evidence ==> CaptureRespected(evidence[e], k)
  }

  ghost predicate ReplacementOrdered(k: Catalog, c: string, r: string) {
    && c in k.components && c in k.retirements && r in k.components
    && k.components[r].body.kind == k.components[c].body.kind
    && (r in k.retirements ==> SequenceOf(k.retirements[c].root) < SequenceOf(k.retirements[r].root))
  }

  /** Replacements keep the kind and are retired later than what they replace, if at all. */
  ghost predicate CatalogSound(k: Catalog) {
    && (forall x :: x in k.components ==> k.components[x].body.ref == x)
    && (forall c :: c in k.retirements ==> c in k.components && k.retirements[c].body.ref == c)
    && (forall c :: c in k.retirements && k.retirements[c].body.replacement.Some? ==>
          ReplacementOrdered(k, c, k.retirements[c].body.replacement.value))
  }

  ghost predicate SequencedEvidence(evidence: map<string, Row<Evidence>>, n: nat) {
    forall e :: e in evidence ==> SequenceOf(evidence[e].root) <= n
  }

  ghost predicate SequencedCatalog(k: Catalog, n: nat) {
    forall c :: c in k.retirements ==> SequenceOf(k.retirements[c].root) <= n
  }

  ghost predicate RowBound(evidence: map<string, Row<Evidence>>, row: BundleRow) {
    row.evidenceId in evidence && evidence[row.evidenceId].root == row.evidenceRoot && evidence[row.evidenceId].body.address == row.address
  }

  ghost predicate BundlesBound(bundles: map<string, Row<Bundle>>, evidence: map<string, Row<Evidence>>) {
    forall b, row :: b in bundles && row in bundles[b].body.rows ==> RowBound(evidence, row)
  }

  ghost predicate StateInv(s: State, n: nat) {
    && CustodyKeyed(s.custody) && DeletionsSound(s.custody) && PendingUnshared(s.custody, s.catalog)
    && HoldsRespected(s.holds, s.custody) && RetentionRespected(s.custody)
    && CapturesRespected(s.custody.evidence, s.catalog) && CatalogSound(s.catalog)
    && SequencedEvidence(s.custody.evidence, n) && SequencedCatalog(s.catalog, n)
    && BundlesBound(s.bundles, s.custody.evidence)
  }

  /** Objects hold the bytes they are addressed by, and everything still needed is there. */
  ghost predicate StoreInv(s: State, objects: map<Hash, Bytes>) {
    && (forall h :: h in objects ==> h == Sha256(objects[h]))
    && (forall h :: Referenced(s, h) ==> h in objects)
  }

  ghost predicate Inv(site: Site, d: Disk) {
    && Accepted(site, d.journal)
    && StateInv(FoldState(d.journal).value, |d.journal|)
    && StoreInv(FoldState(d.journal).value, d.objects)
  }

  // ----- each command keeps the state invariant -----

  ghost predicate Fits(e: Event, body: Body, n: nat) {
    e.payload.body == body && e.payload.sequence == n + 1 && e.root == EventRoot(e.payload)
  }

  /** No deletion is in flight: the situation recovery leaves behind, in which every command starts. */
  ghost predicate Quiet(c: Custody) {
    forall e :: !IsPending(c, e)
  }

  lemma Later(s: State, n: nat)
    requires SequencedEvidence(s.custody.evidence, n) && SequencedCatalog(s.catalog, n)
    ensures SequencedEvidence(s.custody.evidence, n + 1) && SequencedCatalog(s.catalog, n + 1)
  {
  }

  /** `t` needs no object that `s` did not need, except `extra`. */
  ghost predicate NeedsAtMost(s: State, t: State, extra: Option<Hash>) {
    forall h :: Referenced(t, h) ==> Referenced(s, h) || Some(h) == extra
  }

  lemma BundleKeeps(s: State, n: nat, e: Event, b: Bundle)
    requires StateInv(s, n) && Quiet(s.custody) && Fits(e, BundleSealed(b), n)
    requires b.id !in s.bundles && forall row :: row in b.rows ==> RowValid(s.custody, row)
    ensures StateStep(s, e).Some? && StateInv(StateStep(s, e).value, n + 1)
    ensures Quiet(StateStep(s, e).value.custody) && NeedsAtMost(s, StateStep(s, e).value, None)
  {
    Later(s, n);
    MoreBundles(s.bundles, s.custody, b, e.root);
  }

  lemma MoreBundles(bundles: map<string, Row<Bundle>>, c: Custody, b: Bundle, root: Root)
    requires BundlesBound(bundles, c.evidence) && forall row :: row in b.rows ==> RowValid(c, row)
    ensures BundlesBound(bundles[b.id := Row(b, root)], c.evidence)
  {
  }

  lemma HoldKeeps(s: State, n: nat, e: Event, h: Hold)
    requires StateInv(s, n) && Quiet(s.custody) && Fits(e, HoldPlaced(h), n)
    requires h.id !in s.holds && forall x :: x in h.evidenceIds ==> Live(s.custody, x)
    ensures StateStep(s, e).Some? && StateInv(StateStep(s, e).value, n + 1)
    ensures Quiet(StateStep(s, e).value.custody) && NeedsAtMost(s, StateStep(s, e).value, None)
  {
    Later(s, n);
    MoreHolds(s.holds, s.custody, h, e.root);
  }

  lemma MoreHolds(holds: map<string, HoldState>, c: Custody, h: Hold, root: Root)
    requires HoldsRespected(holds, c) && forall x :: x in h.evidenceIds ==> Live(c, x)
    ensures HoldsRespected(holds[h.id := HoldState(h.evidenceIds, false, root)], c)
  {
  }

  lemma ReleaseKeeps(s: State, n: nat, e: Event, r: Release)
    requires StateInv(s, n) && Quiet(s.custody) && Fits(e, HoldReleased(r), n)
    requires r.holdId in s.holds && !s.holds[r.holdId].released
    ensures StateStep(s, e).Some? && StateInv(StateStep(s, e).value, n + 1)
    ensures Quiet(StateStep(s, e).value.custody) && NeedsAtMost(s, StateStep(s, e).value, None)
  {
    Later(s, n);
    FewerHolds(s.holds, s.custody, r.holdId);
  }

  lemma FewerHolds(holds: map<string, HoldState>, c: Custody, h: string)
    requires HoldsRespected(holds, c) && h in holds
    ensures HoldsRespected(holds[h := holds[h].(released := true)], c)
  {
  }

  lemma ArchiveKeeps(s: State, n: nat, e: Event, x: Component)
    requires StateInv(s, n) && Quiet(s.custody) && Fits(e, ComponentArchived(x), n) && x.ref !in s.catalog.components
    ensures StateStep(s, e).Some? && StateInv(StateStep(s, e).value, n + 1)
    ensures Quiet(StateStep(s, e).value.custody) && NeedsAtMost(s, StateStep(s, e).value, Some(x.address))
  {
    Later(s, n);
    MoreComponents(s.catalog, s.custody.evidence, x, e.root);
  }

  lemma MoreComponents(k: Catalog, evidence: map<string, Row<Evidence>>, x: Component, root: Root)
    requires CatalogSound(k) && CapturesRespected(evidence, k) && x.ref !in k.components
    ensures CatalogSound(k.(components := k.components[x.ref := Row(x, root)]))
    ensures CapturesRespected(evidence, k.(components := k.components[x.ref := Row(x, root)]))
    ensures forall h :: NeededByComponent(k.(components := k.components[x.ref := Row(x, root)]), h) ==> NeededByComponent(k, h) || h == x.address
  {
    var k' := k.(components := k.components[x.ref := Row(x, root)]);
    assert forall c, r :: ReplacementOrdered(k, c, r) ==> ReplacementOrdered(k', c, r);
    assert forall v, r, kind :: CapturedBefore(v, k, r, kind) ==> CapturedBefore(v, k', r, kind);
    assert forall y, h :: ComponentNeeds(k', y, h) ==> ComponentNeeds(k, y, h) || h == x.address;
  }

  lemma EvidenceKeeps(s: State, n: nat, e: Event, v: Evidence)
    requires StateInv(s, n) && Quiet(s.custody) && Fits(e, EvidenceAppended(v), n)
    requires v.id !in s.custody.evidence && CapturesValid(s.catalog, v)
    ensures StateStep(s, e).Some? && StateInv(StateStep(s, e).value, n + 1)
    ensures Quiet(StateStep(s, e).value.custody) && NeedsAtMost(s, StateStep(s, e).value, Some(v.address))
  {
    Later(s, n);
    MoreEvidence(s.custody, v, e.root);
    MoreEvidenceHolds(s.holds, s.custody, v, e.root);
    MoreEvidenceBundles(s.bundles, s.custody, v, e.root);
    MoreCaptures(s.custody.evidence, s.catalog, v, e.root, n);
  }

  lemma MoreEvidence(c: Custody, v: Evidence, root: Root)
    requires CustodyKeyed(c) && DeletionsSound(c) && RetentionRespected(c) && Quiet(c) && v.id !in c.evidence
    ensures var c' := c.(evidence := c.evidence[v.id := Row(v, root)]);
      && CustodyKeyed(c') && DeletionsSound(c') && RetentionRespected(c') && Quiet(c')
      && forall h :: NeededByEvidence(c', h) ==> NeededByEvidence(c, h) || h == v.address
  {
    var c' := c.(evidence := c.evidence[v.id := Row(v, root)]);
    assert forall x :: IsPending(c', x) <==> IsPending(c, x);
    assert forall x, h :: EvidenceNeeds(c', x, h) ==> EvidenceNeeds(c, x, h) || h == v.address;
  }

  lemma MoreEvidenceHolds(holds: map<string, HoldState>, c: Custody, v: Evidence, root: Root)
    requires HoldsRespected(holds, c) && v.id !in c.evidence
    ensures HoldsRespected(holds, c.(evidence := c.evidence[v.id := Row(v, root)]))
  {
    var c' := c.(evidence := c.evidence[v.id := Row(v, root)]);
    assert forall x :: Live(c, x) ==> Live(c', x);
  }

  lemma MoreEvidenceBundles(bundles: map<string, Row<Bundle>>, c: Custody, v: Evidence, root: Root)
    requires BundlesBound(bundles, c.evidence) && v.id !in c.evidence
    ensures BundlesBound(bundles, c.evidence[v.id := Row(v, root)])
  {
    forall b, row | b in bundles && row in bundles[b].body.rows ensures RowBound(c.evidence[v.id := Row(v, root)], row) {
      assert RowBound(c.evidence, row);
    }
  }

  lemma MoreCaptures(evidence: map<string, Row<Evidence>>, k: Catalog, v: Evidence, root: Root, n: nat)
    requires CapturesRespected(evidence, k) && CapturesValid(k, v)
    requires SequencedEvidence(evidence, n) && SequenceOf(root) == n + 1
    ensures CapturesRespected(evidence[v.id := Row(v, root)], k)
    ensures SequencedEvidence(evidence[v.id := Row(v, root)], n + 1)
  {
    assert forall r, kind :: Resolves(k, r, kind) ==> CapturedBefore(Row(v, root), k, r, kind);
    assert CaptureRespected(Row(v, root), k);
  }

  /** `delete_evidence`'s checks mean the evidence is live, unheld and past its minimum retention. */
  lemma AllowedDeletion(s: State, e: string, at: Instant, basis: Basis)
    requires e in s.custody.evidence && RetentionDecision(s, e, at).status == AllowedStatus(basis)
    ensures Live(s.custody, e) && e !in s.custody.intents && at >= s.custody.evidence[e].body.minimumRetainUntil
    ensures forall h :: h in s.holds && !s.holds[h].released ==> e !in s.holds[h].evidenceIds
  {
    assert |SortedNames(ActiveHolds(s.holds, e))| == 0;
    forall h | h in s.holds && !s.holds[h].released ensures e !in s.holds[h].evidenceIds {
      assert h !in ActiveHolds(s.holds, e);
    }
  }

  /** A physical deletion is one nobody else's live reference shares. */
  lemma PhysicalIsUnshared(s: State, e: string, at: Instant, basis: Basis, authority: string, h: Hash)
    requires e in s.custody.evidence && IntentFor(s, e, at, basis, authority).physical && h == s.custody.evidence[e].body.address
    ensures forall x :: x != e ==> !EvidenceNeeds(s.custody, x, h)
    ensures !NeededByComponent(s.catalog, h)
  {
    var others, components := RetainingEvidence(s.custody, h, Some(e)), RetainingComponents(s.catalog, h);
    assert |SortedNames(others)| == 0 && |SortedNames(components)| == 0;
    forall x | x != e ensures !EvidenceNeeds(s.custody, x, h) { assert x !in others; }
    forall c ensures !ComponentNeeds(s.catalog, c, h) { assert c !in components; }
  }

  function Intended(s: State, i: Intent, root: Root): State {
    s.(custody := s.custody.(intents := s.custody.intents[i.evidenceId := Row(i, root)]))
  }

  /** What the checks behind an intent amount to. */
  ghost predicate Deletable(s: State, i: Intent) {
    && Live(s.custody, i.evidenceId) && i.evidenceId !in s.custody.intents
    && i.address == s.custody.evidence[i.evidenceId].body.address
    && i.deletedAt >= s.custody.evidence[i.evidenceId].body.minimumRetainUntil
    && (forall h :: h in s.holds && !s.holds[h].released ==> i.evidenceId !in s.holds[h].evidenceIds)
    && (i.physical ==> (forall x :: x != i.evidenceId ==> !EvidenceNeeds(s.custody, x, i.address)) && !NeededByComponent(s.catalog, i.address))
  }

  lemma AllowedIsDeletable(s: State, i: Intent)
    requires DeletionAllowed(s, i)
    ensures Deletable(s, i)
  {
    AllowedDeletion(s, i.evidenceId, i.deletedAt, i.basis);
    if i.physical { PhysicalIsUnshared(s, i.evidenceId, i.deletedAt, i.basis, i.authorityRef, i.address); }
  }

  lemma IntendedKeeps(s: State, n: nat, i: Intent, root: Root)
    requires StateInv(s, n) && Quiet(s.custody) && Deletable(s, i)
    ensures StateInv(Intended(s, i, root), n + 1) && NeedsAtMost(s, Intended(s, i, root), None)
    ensures forall x :: IsPending(Intended(s, i, root).custody, x) <==> x == i.evidenceId
  {
    Later(s, n);
    MoreIntents(s.custody, i, root);
    MoreIntentsHolds(s.holds, s.custody, i, root);
    if i.physical { MoreIntentsUnshared(s.custody, i, root); }
  }

  lemma IntentKeeps(s: State, n: nat, e: Event, i: Intent)
    requires StateInv(s, n) && Quiet(s.custody) && Fits(e, DeletionIntent(i), n) && Deletable(s, i)
    ensures StateStep(s, e) == Some(Intended(s, i, e.root)) && StateInv(Intended(s, i, e.root), n + 1)
    ensures forall x :: IsPending(Intended(s, i, e.root).custody, x) <==> x == i.evidenceId
    ensures NeedsAtMost(s, Intended(s, i, e.root), None)
  {
    IntendedKeeps(s, n, i, e.root);
  }

  lemma MoreIntents(c: Custody, i: Intent, root: Root)
    requires CustodyKeyed(c) && DeletionsSound(c) && RetentionRespected(c) && Quiet(c)
    requires i.evidenceId in c.evidence && i.evidenceId !in c.intents && i.address == c.evidence[i.evidenceId].body.address
    requires i.deletedAt >= c.evidence[i.evidenceId].body.minimumRetainUntil
    ensures var c' := c.(intents := c.intents[i.evidenceId := Row(i, root)]);
      && CustodyKeyed(c') && DeletionsSound(c') && RetentionRespected(c')
      && (forall x :: IsPending(c', x) <==> x == i.evidenceId)
      && forall h :: NeededByEvidence(c', h) ==> NeededByEvidence(c, h)
  {
    var c' := c.(intents := c.intents[i.evidenceId := Row(i, root)]);
    forall x ensures IsPending(c', x) <==> x == i.evidenceId { assert !IsPending(c, x); }
    assert forall x, h :: EvidenceNeeds(c', x, h) ==> EvidenceNeeds(c, x, h);
  }

  lemma MoreIntentsHolds(holds: map<string, HoldState>, c: Custody, i: Intent, root: Root)
    requires HoldsRespected(holds, c) && forall h :: h in holds && !holds[h].released ==> i.evidenceId !in holds[h].evidenceIds
    ensures HoldsRespected(holds, c.(intents := c.intents[i.evidenceId := Row(i, root)]))
  {
    var c' := c.(intents := c.intents[i.evidenceId := Row(i, root)]);
    assert forall x :: Live(c, x) && x != i.evidenceId ==> Live(c', x);
  }

  lemma MoreIntentsUnshared(c: Custody, i: Intent, root: Root)
    requires i.evidenceId !in c.deletions && forall x :: x != i.evidenceId ==> !EvidenceNeeds(c, x, i.address)
    ensures !NeededByEvidence(c.(intents := c.intents[i.evidenceId := Row(i, root)]), i.address)
  {
    var c' := c.(intents := c.intents[i.evidenceId := Row(i, root)]);
    assert forall x :: EvidenceNeeds(c', x, i.address) ==> EvidenceNeeds(c, x, i.address) && x != i.evidenceId;
  }

  function Committed(s: State, id: string, root: Root): State
    requires id in s.custody.intents
  {
    s.(custody := s.custody.(deletions := s.custody.deletions[id := Row(CommitBody(s.custody.intents[id]), root)]))
  }

  lemma CommitStep(s: State, e: Event, id: string, n: nat)
    requires CustodyKeyed(s.custody) && DeletionsSound(s.custody) && IsPending(s.custody, id)
    requires Fits(e, EvidenceDeleted(CommitBody(s.custody.intents[id])), n)
    requires e.payload.recordedAt == s.custody.intents[id].body.deletedAt
    ensures StateStep(s, e) == Some(Committed(s, id, e.root))
  {
    assert s.custody.intents[id].body.evidenceId == id;
  }

  lemma CommitKeeps(s: State, n: nat, e: Event, id: string)
    requires StateInv(s, n) && IsPending(s.custody, id) && Fits(e, EvidenceDeleted(CommitBody(s.custody.intents[id])), n)
    requires e.payload.recordedAt == s.custody.intents[id].body.deletedAt
    ensures StateStep(s, e) == Some(Committed(s, id, e.root))
    ensures StateInv(Committed(s, id, e.root), n + 1) && Quiet(Committed(s, id, e.root).custody)
    ensures forall h :: Referenced(Committed(s, id, e.root), h) <==> Referenced(s, h)
  {
    CommitStep(s, e, id, n);
    Later(s, n);
    MoreDeletions(s.custody, id, e.root);
    MoreDeletionsHolds(s.holds, s.custody, id, e.root);
  }

  lemma MoreDeletions(c: Custody, id: string, root: Root)
    requires CustodyKeyed(c) && DeletionsSound(c) && RetentionRespected(c) && IsPending(c, id)
    requires RecordedAt(root) == c.intents[id].body.deletedAt
    ensures var c' := c.(deletions := c.deletions[id := Row(CommitBody(c.intents[id]), root)]);
      && CustodyKeyed(c') && DeletionsSound(c') && RetentionRespected(c') && Quiet(c')
      && forall h :: NeededByEvidence(c', h) <==> NeededByEvidence(c, h)
  {
    var c' := c.(deletions := c.deletions[id := Row(CommitBody(c.intents[id]), root)]);
    forall x ensures !IsPending(c', x) { assert IsPending(c, x) ==> x == id; }
    assert forall x, h :: EvidenceNeeds(c', x, h) <==> EvidenceNeeds(c, x, h);
  }

  lemma MoreDeletionsHolds(holds: map<string, HoldState>, c: Custody, id: string, root: Root)
    requires HoldsRespected(holds, c) && IsPending(c, id)
    ensures HoldsRespected(holds, c.(deletions := c.deletions[id := Row(CommitBody(c.intents[id]), root)]))
  {
    var c' := c.(deletions := c.deletions[id := Row(CommitBody(c.intents[id]), root)]);
    assert forall x :: Live(c, x) ==> Live(c', x);
  }

  lemma RetireKeeps(s: State, n: nat, e: Event, r: Retirement)
    requires StateInv(s, n) && Quiet(s.custody) && Fits(e, ComponentRetired(r), n)
    requires RetirementAllowed(s.catalog, r) && ClaimIdsValid(ComponentRetired(r))
    ensures StateStep(s, e).Some? && StateInv(StateStep(s, e).value, n + 1)
    ensures Quiet(StateStep(s, e).value.custody) && NeedsAtMost(s, StateStep(s, e).value, None)
  {
    Later(s, n);
    MoreRetirements(s.catalog, s.custody.evidence, r, e.root, n);
  }

  lemma MoreRetirements(k: Catalog, evidence: map<string, Row<Evidence>>, r: Retirement, root: Root, n: nat)
    requires CatalogSound(k) && CapturesRespected(evidence, k) && RetirementAllowed(k, r)
    requires SequencedEvidence(evidence, n) && SequencedCatalog(k, n) && SequenceOf(root) == n + 1
    ensures var k' := k.(retirements := k.retirements[r.ref := Row(r, root)]);
      && CatalogSound(k') && CapturesRespected(evidence, k') && SequencedCatalog(k', n + 1)
      && forall h :: NeededByComponent(k', h) ==> NeededByComponent(k, h)
  {
    var k' := k.(retirements := k.retirements[r.ref := Row(r, root)]);
    assert forall c, x :: ReplacementOrdered(k, c, x) ==> ReplacementOrdered(k', c, x);
    assert r.replacement.Some? ==> ReplacementOrdered(k', r.ref, r.replacement.value);
    forall e | e in evidence ensures CaptureRespected(evidence[e], k') {
      assert forall x, kind :: CapturedBefore(evidence[e], k, x, kind) ==> CapturedBefore(evidence[e], k', x, kind);
    }
    assert forall y, h :: ComponentNeeds(k', y, h) ==> ComponentNeeds(k, y, h);
  }

  /** Any append a command makes, taken together: the state invariant survives, and the new state needs no
      object that is not on disk. The one command that can break replay is a retirement with malformed claim ids. */
  lemma CommandKeeps(c: Chain, s: State, objects: map<Hash, Bytes>, n: nat, e: Event)
    requires c.history != [] && StateInv(s, n) && Quiet(s.custody) && StoreInv(s, objects)
    requires Fits(e, e.payload.body, n)
    requires CommandAllows(c, s, objects, e.payload.body, e.payload.recordedAt) && ClaimIdsValid(e.payload.body)
    ensures StateStep(s, e).Some? && StateInv(StateStep(s, e).value, n + 1) && StoreInv(StateStep(s, e).value, objects)
    ensures e.payload.body.DeletionIntent? || Quiet(StateStep(s, e).value.custody)
  {
    match e.payload.body
    case ComponentArchived(x) => ArchiveKeeps(s, n, e, x);
    case EvidenceAppended(v) => EvidenceKeeps(s, n, e, v);
    case BundleSealed(b) => BundleKeeps(s, n, e, b);
    case HoldPlaced(h) => HoldKeeps(s, n, e, h);
    case HoldReleased(r) => ReleaseKeeps(s, n, e, r);
    case DeletionIntent(i) =>
      AllowedIsDeletable(s, i);
      IntentKeeps(s, n, e, i);
    case ComponentRetired(r) => RetireKeeps(s, n, e, r);
    case AuthorityRotated(r) => Later(s, n);
  }

  /** Exactly when replay takes a retirement the command allowed: its claim ids are well-formed identifiers. */
  lemma RetirementReplayed(s: State, e: Event, r: Retirement)
    requires CatalogSound(s.catalog) && e.payload.body == ComponentRetired(r) && RetirementAllowed(s.catalog, r)
    ensures StateStep(s, e).Some? <==> ClaimIdsValid(ComponentRetired(r))
  {
  }

  /** A claim id the command accepts and replay refuses. */
  lemma MalformedClaimIdIsNotReplayed(s: State, e: Event, r: Retirement)
    requires e.payload.body == ComponentRetired(r) && RetirementAllowed(s.catalog, r) && r.impacted == ["claim 1"]
    ensures StateStep(s, e).None?
  {
    assert "claim 1"[5] == ' ';
    assert !IsIdentifier("claim 1");
    assert "claim 1" in r.impacted;
  }

  // ----- atomic writes -----

  datatype Write =
    | Put(content: Bytes)                 // an object written by archive_component or append_evidence
    | Collect(address: Hash)              // garbage collection of one object by recovery
    | UnlinkPending(evidenceId: string)   // the unlink between intent and commit
    | Commit(evidenceId: string)          // the commit event, by delete_evidence or by recovery
    | Command(body: Body, at: Instant)    // the event of any command

  function ChainOf(site: Site, d: Disk): Chain
    requires Accepted(site, d.journal)
  {
    FollowChain(site, d.journal).value
  }

  function StateOf(site: Site, d: Disk): State
    requires Accepted(site, d.journal)
  {
    FoldState(d.journal).value
  }

  /** What the code has established when it performs the write. */
  ghost predicate Enabled(site: Site, d: Disk, w: Write) {
    Accepted(site, d.journal) &&
    var s := StateOf(site, d);
    match w
    case Put(content) => Quiet(s.custody)
    case Collect(h) => Quiet(s.custody) && h in d.objects && !Referenced(s, h)
    case UnlinkPending(e) => IsPending(s.custody, e) && s.custody.intents[e].body.physical && s.custody.intents[e].body.address in d.objects
    case Commit(e) => IsPending(s.custody, e) && (s.custody.intents[e].body.physical ==> s.custody.intents[e].body.address !in d.objects)
    case Command(body, at) => Quiet(s.custody) && CommandAllows(ChainOf(site, d), s, d.objects, body, at)
  }

  ghost function Perform(site: Site, d: Disk, w: Write): Disk
    requires Enabled(site, d, w)
  {
    var s := StateOf(site, d);
    match w
    case Put(content) => d.(objects := d.objects[Sha256(content) := content])
    case Collect(h) => d.(objects := d.objects - {h})
    case UnlinkPending(e) => d.(objects := d.objects - {s.custody.intents[e].body.address})
    case Commit(e) =>
      d.(journal := d.journal + [MakeEvent(site, ChainOf(site, d), EvidenceDeleted(CommitBody(s.custody.intents[e])), s.custody.intents[e].body.deletedAt)])
    case Command(body, at) => d.(journal := d.journal + [MakeEvent(site, ChainOf(site, d), body, at)])
  }

  predicate WellSpelled(w: Write) {
    w.Command? ==> ClaimIdsValid(w.body)
  }

  lemma MadeEventFits(site: Site, journal: seq<Event>, c: Chain, body: Body, at: Instant)
    requires Correct(site.scheme) && FollowChain(site, journal) == Some(c)
    requires body.AuthorityRotated? ==> RotationAccepted(c, body.rotation)
    ensures Fits(MakeEvent(site, c, body, at), body, |journal|)
    ensures ChainStep(site, c, MakeEvent(site, c, body, at)).Some?
  {
    ChainShape(site, journal);
  }

  /** Appending what a command or a commit appends extends an accepted journal to an accepted one by one step. */
  lemma AppendAccepted(site: Site, d: Disk, body: Body, at: Instant)
    requires Correct(site.scheme) && Accepted(site, d.journal)
    requires body.AuthorityRotated? ==> RotationAccepted(ChainOf(site, d), body.rotation)
    ensures var e := MakeEvent(site, ChainOf(site, d), body, at);
      && Fits(e, body, |d.journal|)
      && (Accepted(site, d.journal + [e]) <==> StateStep(StateOf(site, d), e).Some?)
      && FoldState(d.journal + [e]) == StateStep(StateOf(site, d), e)
  {
    var e := MakeEvent(site, ChainOf(site, d), body, at);
    Append(site, d.journal, e);
    MadeEventFits(site, d.journal, ChainOf(site, d), body, at);
  }

  /** Every atomic write of every command and of recovery keeps the invariant, so a crash may fall between any two. */
  lemma WriteKeeps(site: Site, d: Disk, w: Write)
    requires Correct(site.scheme) && Inv(site, d) && Enabled(site, d, w) && WellSpelled(w)
    ensures Inv(site, Perform(site, d, w))
  {
    var s := StateOf(site, d);
    match w
    case Put(content) =>
    case Collect(h) =>
    case UnlinkPending(e) =>
    case Commit(e) => CommitWriteKeeps(site, d, e);
    case Command(body, at) =>
      AppendAccepted(site, d, body, at);
      CommandKeeps(ChainOf(site, d), s, d.objects, |d.journal|, MakeEvent(site, ChainOf(site, d), body, at));
  }

  lemma CommitWriteKeeps(site: Site, d: Disk, e: string)
    requires Correct(site.scheme) && Inv(site, d) && Enabled(site, d, Commit(e))
    ensures Inv(site, Perform(site, d, Commit(e)))
    ensures Quiet(StateOf(site, Perform(site, d, Commit(e))).custody)
    ensures forall h :: Referenced(StateOf(site, Perform(site, d, Commit(e))), h) <==> Referenced(StateOf(site, d), h)
  {
    var s := StateOf(site, d);
    var body, at := EvidenceDeleted(CommitBody(s.custody.intents[e])), s.custody.intents[e].body.deletedAt;
    AppendAccepted(site, d, body, at);
    CommitKeeps(s, |d.journal|, MakeEvent(site, ChainOf(site, d), body, at), e);
  }
}
