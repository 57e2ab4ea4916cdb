/** Retrieval of a sealed bundle for audit, and what it can and cannot report about a vault. */
module Retrieval {
  import opened Wrappers
  import opened Order
  import opened Canonical
  import opened VaultTypes
  import opened VaultReplay
  import opened VaultModel

  datatype Subtype =
    | IntegrityFailure | HistoricKeyUnresolved | UnreadableSchema | LossySchemaMigration | ClaimInformationLoss
    | MigrationCertificateInvalid | VerifierUnavailable | VersionRootUnresolved | BridgeUnresolved | BridgeExpired
    | RetentionNoncompliance | LegalDeletion | EvidenceUnavailable | TransitionIncomplete

  datatype Gap = Gap(subtype: Subtype, evidenceId: string)

  /** The judgements about component metadata. `migration` is the certificate check for a lossy schema. */
  datatype Review = Review(
    readable: Json -> bool, migration: (Json, string) -> Option<Subtype>, executable: Json -> bool,
    keyValid: (Json, Instant) -> bool, bridgeValid: (Json, Instant) -> bool)

  datatype Retrieved = Retrieved(gaps: seq<Gap>, material: map<string, Bytes>)

  datatype Failure = UnknownBundle | BindingDiffers

  function Priority(s: Subtype): nat {
    match s
    case IntegrityFailure => 0
    case HistoricKeyUnresolved => 1
    case UnreadableSchema => 2
    case LossySchemaMigration => 3
    case ClaimInformationLoss => 4
    case MigrationCertificateInvalid => 5
    case VerifierUnavailable => 6
    case VersionRootUnresolved => 7
    case BridgeUnresolved => 8
    case BridgeExpired => 9
    case RetentionNoncompliance => 10
    case LegalDeletion => 11
    case EvidenceUnavailable => 12
    case TransitionIncomplete => 99
  }

  function GapSet(gaps: seq<Gap>): set<Gap> {
    set g | g in gaps
  }

  predicate GapLess(a: Gap, b: Gap) {
    Priority(a.subtype) < Priority(b.subtype) || (a.subtype == b.subtype && NameLess(a.evidenceId, b.evidenceId))
  }

  lemma GapOrder()
    ensures StrictTotal(GapLess)
  {
    NameOrder();
  }

  // ----- one row -----

  predicate Available(k: Catalog, objects: map<Hash, Bytes>, ref: string) {
    ref in k.components && k.components[ref].body.address in objects
    && Sha256(objects[k.components[ref].body.address]) == k.components[ref].body.address
  }

  function SchemaGaps(review: Review, k: Catalog, objects: map<Hash, Bytes>, v: Evidence): set<Subtype> {
    if !Available(k, objects, v.schemaRef) || !review.readable(k.components[v.schemaRef].body.metadata) then {UnreadableSchema}
    else
      var migration := review.migration(k.components[v.schemaRef].body.metadata, v.claimId);
      if migration.Some? then {migration.value} else {}
  }

  function KeyGaps(review: Review, k: Catalog, objects: map<Hash, Bytes>, v: Evidence): set<Subtype> {
    if Available(k, objects, v.keyRef) && review.keyValid(k.components[v.keyRef].body.metadata, v.capturedAt) then {}
    else {HistoricKeyUnresolved}
  }

  function VerifierGaps(review: Review, k: Catalog, objects: map<Hash, Bytes>, v: Evidence): set<Subtype> {
    if Available(k, objects, v.verifierRef) && review.executable(k.components[v.verifierRef].body.metadata) then {}
    else {VerifierUnavailable}
  }

  function BridgeGaps(review: Review, k: Catalog, objects: map<Hash, Bytes>, v: Evidence, at: Instant): set<Subtype> {
    if v.bridgeRef.None? then {}
    else if !Available(k, objects, v.bridgeRef.value) then {BridgeUnresolved}
    else if !review.bridgeValid(k.components[v.bridgeRef.value].body.metadata, at) then {BridgeExpired}
    else {}
  }

  /** `_check_component_dependencies` */
  function DependencyGaps(review: Review, k: Catalog, objects: map<Hash, Bytes>, v: Evidence, at: Instant): set<Subtype> {
    SchemaGaps(review, k, objects, v) + KeyGaps(review, k, objects, v) + VerifierGaps(review, k, objects, v)
    + (if Available(k, objects, v.policyRef) then {} else {VersionRootUnresolved})
    + BridgeGaps(review, k, objects, v, at)
  }

  datatype Outcome = Outcome(subtypes: set<Subtype>, bytes: Option<Bytes>)

  /** What one bundled piece of evidence contributes: its gaps, and its bytes when they can be had. */
  function RowGaps(review: Review, s: State, objects: map<Hash, Bytes>, e: string, at: Instant): Outcome
    requires e in s.custody.evidence
  {
    var v := s.custody.evidence[e].body;
    if e in s.custody.deletions then
      Outcome({if s.custody.deletions[e].body.basis.PolicyDeadline? then LegalDeletion else EvidenceUnavailable}, None)
    else if IsPending(s.custody, e) then Outcome({TransitionIncomplete}, None)
    else if v.address !in objects then Outcome({RetentionNoncompliance}, None)
    else if Sha256(objects[v.address]) != v.address then Outcome({IntegrityFailure}, None)
    else
      Outcome((if RetentionDecision(s, e, at).status.DeletionRequired? then {RetentionNoncompliance} else {})
              + DependencyGaps(review, s.catalog, objects, v, at), Some(objects[v.address]))
  }

  // ----- retrieval -----

  /** What each piece of evidence contributes. */
  function Outcomes(review: Review, s: State, objects: map<Hash, Bytes>, at: Instant): string -> Outcome {
    (e: string) => if e in s.custody.evidence then RowGaps(review, s, objects, e, at) else Outcome({}, None)
  }

  function WithGaps(gaps: set<Gap>, e: string, subtypes: set<Subtype>): set<Gap> {
    gaps + (set g | g in subtypes :: Gap(g, e))
  }

  function WithBytes(material: map<string, Bytes>, e: string, bytes: Option<Bytes>): map<string, Bytes> {
    if bytes.Some? then material[e := bytes.value] else material
  }

  ghost predicate HasEvidence(rows: seq<BundleRow>, e: string) {
    exists i :: 0 <= i < |rows| && rows[i].evidenceId == e
  }

  /** The gaps and the material are exactly what the rows contribute. */
  ghost predicate Collected(o: string -> Outcome, rows: seq<BundleRow>, gaps: set<Gap>, material: map<string, Bytes>) {
    && (forall g :: g in gaps <==> HasEvidence(rows, g.evidenceId) && g.subtype in o(g.evidenceId).subtypes)
    && (forall e :: e in material <==> HasEvidence(rows, e) && o(e).bytes.Some?)
    && (forall e :: e in material ==> o(e).bytes == Some(material[e]))
  }

  lemma CollectedNext(o: string -> Outcome, rows: seq<BundleRow>, n: nat, gaps: set<Gap>, material: map<string, Bytes>)
    requires n < |rows| && Collected(o, rows[..n], gaps, material)
    ensures var e := rows[n].evidenceId;
      Collected(o, rows[..n + 1], WithGaps(gaps, e, o(e).subtypes), WithBytes(material, e, o(e).bytes))
  {
    forall x ensures HasEvidence(rows[..n + 1], x) <==> HasEvidence(rows[..n], x) || x == rows[n].evidenceId {
      EvidenceNext(rows, n, x);
    }
  }

  lemma EvidenceNext(rows: seq<BundleRow>, n: nat, x: string)
    requires n < |rows|
    ensures HasEvidence(rows[..n + 1], x) <==> HasEvidence(rows[..n], x) || x == rows[n].evidenceId
  {
    var longer := rows[..n + 1];
    assert longer[n] == rows[n];
    if HasEvidence(rows[..n], x) {
      var i :| 0 <= i < n && rows[..n][i].evidenceId == x;
      assert longer[i].evidenceId == x;
    }
    if HasEvidence(longer, x) && x != rows[n].evidenceId {
      var i :| 0 <= i < |longer| && longer[i].evidenceId == x;
      assert rows[..n][i].evidenceId == x;
    }
  }

  /** `retrieve_for_audit` */
  method RetrieveForAudit(review: Review, s: State, objects: map<Hash, Bytes>, bundleId: string, at: Instant)
    returns (r: Result<Retrieved, Failure>)
    ensures r == Err(UnknownBundle) <==> bundleId !in s.bundles
    ensures r == Err(BindingDiffers) ==> exists row :: row in s.bundles[bundleId].body.rows && !Bound(s.custody.evidence, row)
    ensures r.Ok? ==>
              && Collected(Outcomes(review, s, objects, at), s.bundles[bundleId].body.rows, GapSet(r.value.gaps), r.value.material)
              && Sorted(GapLess, r.value.gaps)
  {
    if bundleId !in s.bundles {
      return Err(UnknownBundle);
    }
    var rows := s.bundles[bundleId].body.rows;
    var outcomes := Outcomes(review, s, objects, at);
    var gaps: set<Gap>, material: map<string, Bytes> := {}, map[];
    for n := 0 to |rows|
      invariant Collected(outcomes, rows[..n], gaps, material)
    {
      var e := rows[n].evidenceId;
      if !Bound(s.custody.evidence, rows[n]) {
        return Err(BindingDiffers);
      }
      CollectedNext(outcomes, rows, n, gaps, material);
      gaps, material := WithGaps(gaps, e, outcomes(e).subtypes), WithBytes(material, e, outcomes(e).bytes);
    }
    assert rows[..|rows|] == rows;
    GapOrder();
    var sorted := SortBy(gaps, GapLess);
    assert GapSet(sorted) == gaps;
    r := Ok(Retrieved(sorted, material));
  }

  predicate Bound(evidence: map<string, Row<Evidence>>, row: BundleRow) {
    row.evidenceId in evidence && evidence[row.evidenceId].root == row.evidenceRoot
  }

  // ----- what a vault can report -----

  lemma ComponentsAvailable(s: State, n: nat, objects: map<Hash, Bytes>, e: string)
    requires StateInv(s, n) && StoreInv(s, objects) && e in s.custody.evidence
    ensures var v := s.custody.evidence[e].body;
      && Available(s.catalog, objects, v.schemaRef) && Available(s.catalog, objects, v.keyRef)
      && Available(s.catalog, objects, v.verifierRef) && Available(s.catalog, objects, v.policyRef)
      && (v.bridgeRef.Some? ==> Available(s.catalog, objects, v.bridgeRef.value))
  {
    assert CaptureRespected(s.custody.evidence[e], s.catalog);
    forall ref | ref in s.catalog.components ensures Available(s.catalog, objects, ref) {
      assert ComponentNeeds(s.catalog, ref, s.catalog.components[ref].body.address);
      assert Referenced(s, s.catalog.components[ref].body.address);
    }
  }

  lemma LiveAvailable(s: State, n: nat, objects: map<Hash, Bytes>, e: string)
    requires StateInv(s, n) && StoreInv(s, objects) && Live(s.custody, e)
    ensures var h := s.custody.evidence[e].body.address; h in objects && Sha256(objects[h]) == h
  {
    assert EvidenceNeeds(s.custody, e, s.custody.evidence[e].body.address);
    assert Referenced(s, s.custody.evidence[e].body.address);
  }

  /** In every reachable vault directory, retrieval of a sealed bundle succeeds; it returns exactly the live
      evidence, byte for byte as addressed; and it never reports damaged bytes, an unresolved version root or
      an unresolved bridge. Retention noncompliance is only ever an overdue deletion. */
  lemma VaultRetrieval(review: Review, site: Site, d: Disk, bundleId: string, at: Instant, r: Retrieved)
    requires Inv(site, d) && bundleId in FoldState(d.journal).value.bundles && ReviewsMigration(review)
    requires var s := FoldState(d.journal).value;
      Collected(Outcomes(review, s, d.objects, at), s.bundles[bundleId].body.rows, GapSet(r.gaps), r.material)
    ensures var s := FoldState(d.journal).value;
      && (forall row :: row in s.bundles[bundleId].body.rows ==> Bound(s.custody.evidence, row))
      && (forall e :: e in r.material <==> HasEvidence(s.bundles[bundleId].body.rows, e) && Live(s.custody, e))
      && (forall e :: e in r.material ==> Sha256(r.material[e]) == s.custody.evidence[e].body.address)
      && (forall g :: g in GapSet(r.gaps) ==> PossibleGap(s, g, at))
  {
    var s := FoldState(d.journal).value;
    var rows := s.bundles[bundleId].body.rows;
    forall row | row in rows ensures Bound(s.custody.evidence, row) {
      assert RowBound(s.custody.evidence, row);
    }
    forall e | HasEvidence(rows, e)
      ensures e in s.custody.evidence && RowPossible(s, e, at, Outcomes(review, s, d.objects, at)(e)) {
      var i :| 0 <= i < |rows| && rows[i].evidenceId == e;
      assert RowBound(s.custody.evidence, rows[i]);
      RowOutcome(review, s, |d.journal|, d.objects, e, at);
    }
  }

  /** What a bundled row can contribute. */
  ghost predicate RowPossible(s: State, e: string, at: Instant, o: Outcome) {
    && e in s.custody.evidence
    && (o.bytes.Some? <==> Live(s.custody, e))
    && (o.bytes.Some? ==> Sha256(o.bytes.value) == s.custody.evidence[e].body.address)
    && forall g :: g in o.subtypes ==> PossibleGap(s, Gap(g, e), at)
  }

  ghost predicate PossibleGap(s: State, g: Gap, at: Instant) {
    && !g.subtype.IntegrityFailure? && !g.subtype.VersionRootUnresolved? && !g.subtype.BridgeUnresolved?
    && g.evidenceId in s.custody.evidence
    && (g.subtype.RetentionNoncompliance? ==>
          Live(s.custody, g.evidenceId) && at >= s.custody.evidence[g.evidenceId].body.deletionRequiredBy)
    && (g.subtype.LegalDeletion? || g.subtype.EvidenceUnavailable? ==> g.evidenceId in s.custody.deletions)
    && (g.subtype.TransitionIncomplete? ==> IsPending(s.custody, g.evidenceId))
  }

  /** The certificate check for a lossy schema reports one of its three failures. */
  ghost predicate ReviewsMigration(review: Review) {
    forall m, c :: review.migration(m, c).Some? ==>
      review.migration(m, c).value in {LossySchemaMigration, ClaimInformationLoss, MigrationCertificateInvalid}
  }

  predicate ComponentGap(g: Subtype) {
    g.HistoricKeyUnresolved? || g.UnreadableSchema? || g.VerifierUnavailable? || g.BridgeExpired?
    || g.LossySchemaMigration? || g.ClaimInformationLoss? || g.MigrationCertificateInvalid?
  }

  lemma DependencyOutcome(review: Review, s: State, n: nat, objects: map<Hash, Bytes>, e: string, at: Instant)
    requires StateInv(s, n) && StoreInv(s, objects) && e in s.custody.evidence
    requires ReviewsMigration(review)
    ensures forall g :: g in DependencyGaps(review, s.catalog, objects, s.custody.evidence[e].body, at) ==> ComponentGap(g)
  {
    ComponentsAvailable(s, n, objects, e);
    AvailableOutcome(review, s.catalog, objects, s.custody.evidence[e].body, at);
  }

  lemma AvailableOutcome(review: Review, k: Catalog, objects: map<Hash, Bytes>, v: Evidence, at: Instant)
    requires Available(k, objects, v.policyRef) && (v.bridgeRef.Some? ==> Available(k, objects, v.bridgeRef.value))
    requires ReviewsMigration(review)
    ensures forall g :: g in DependencyGaps(review, k, objects, v, at) ==> ComponentGap(g)
  {
    forall g | g in SchemaGaps(review, k, objects, v) ensures ComponentGap(g) {
    }
  }

  lemma RowOutcome(review: Review, s: State, n: nat, objects: map<Hash, Bytes>, e: string, at: Instant)
    requires StateInv(s, n) && StoreInv(s, objects) && e in s.custody.evidence && ReviewsMigration(review)
    ensures RowPossible(s, e, at, RowGaps(review, s, objects, e, at))
  {
    if Live(s.custody, e) {
      LiveAvailable(s, n, objects, e);
      LiveOutcome(review, s, n, objects, e, at);
    } else {
      NotLiveOutcome(review, s, objects, e, at);
    }
  }

  lemma NotLiveOutcome(review: Review, s: State, objects: map<Hash, Bytes>, e: string, at: Instant)
    requires e in s.custody.evidence && !Live(s.custody, e)
    ensures RowPossible(s, e, at, RowGaps(review, s, objects, e, at))
  {
  }

  lemma LiveOutcome(review: Review, s: State, n: nat, objects: map<Hash, Bytes>, e: string, at: Instant)
    requires StateInv(s, n) && StoreInv(s, objects) && Live(s.custody, e) && ReviewsMigration(review)
    ensures forall g :: g in RowGaps(review, s, objects, e, at).subtypes ==> PossibleGap(s, Gap(g, e), at)
  {
    DependencyOutcome(review, s, n, objects, e, at);
    LiveAvailable(s, n, objects, e);
    Overdue(s, e, at);
    forall g | g in RowGaps(review, s, objects, e, at).subtypes ensures PossibleGap(s, Gap(g, e), at) {
      LiveSubtype(review, s, objects, e, at, g);
    }
  }

  lemma LiveSubtype(review: Review, s: State, objects: map<Hash, Bytes>, e: string, at: Instant, g: Subtype)
    requires Live(s.custody, e) && g in RowGaps(review, s, objects, e, at).subtypes
    requires var h := s.custody.evidence[e].body.address; h in objects && Sha256(objects[h]) == h
    ensures
      || g in DependencyGaps(review, s.catalog, objects, s.custody.evidence[e].body, at)
      || (g.RetentionNoncompliance? && RetentionDecision(s, e, at).status.DeletionRequired?)
  {
  }

  lemma Overdue(s: State, e: string, at: Instant)
    requires e in s.custody.evidence
    ensures RetentionDecision(s, e, at).status.DeletionRequired? ==> at >= s.custody.evidence[e].body.deletionRequiredBy
  {
  }
}
