/** The Evidence Vault's records, signed journal events, and the state that replay rebuilds. */
module VaultTypes {
  import opened Wrappers
  import opened Canonical

  type Key = string
  type Instant = int
  type Bytes = seq<int>

  /** Content addresses. The constructor is injective: collisions are outside the model. */
  datatype Hash = Sha256(content: Bytes)

  datatype Kind = BridgeKind | KeyKind | PolicyKind | SchemaKind | VerifierKind

  datatype Component = Component(ref: string, kind: Kind, address: Hash, metadata: Json)

  datatype Evidence = Evidence(
    id: string, claimId: string, runId: string, address: Hash,
    schemaRef: string, keyRef: string, verifierRef: string, policyRef: string,
    bridgeRef: Option<string>,                       // None for a declared closed world
    capturedAt: Instant, minimumRetainUntil: Instant, deletionRequiredBy: Instant)

  datatype BundleRow = BundleRow(evidenceId: string, evidenceRoot: Root, address: Hash)

  datatype Bundle = Bundle(id: string, rows: seq<BundleRow>)

  datatype Hold = Hold(id: string, evidenceIds: seq<string>, authorityRef: string)

  datatype Release = Release(holdId: string, authorityRef: string, placedRoot: Root)

  datatype Basis = PolicyDeadline | PermittedDisposal

  datatype Retention = Deleted | DeletionInProgress | LegalHold | RetainRequired | DeletionRequired | DeletionEligible

  datatype Decision = Decision(evaluatedAt: Instant, status: Retention, activeHolds: seq<string>)

  datatype Intent = Intent(
    evidenceId: string, deletedAt: Instant, address: Hash, basis: Basis, authorityRef: string, decision: Decision,
    physical: bool, retainedByEvidence: seq<string>, retainedByComponents: seq<string>)

  datatype Tombstone = Tombstone(
    evidenceId: string, address: Hash, basis: Basis, authorityRef: string, decision: Decision,
    physicallyDeleted: bool, retainedByEvidence: seq<string>, retainedByComponents: seq<string>, intentRoot: Option<Root>)

  datatype Retirement = Retirement(
    ref: string, replacement: Option<string>, impacted: seq<string>, unsupported: seq<string>,
    archiveObject: Hash, retiredAt: Instant)

  datatype Rotation = Rotation(predecessor: Key, successor: Key)

  datatype Body =
    | ComponentArchived(component: Component)
    | EvidenceAppended(evidence: Evidence)
    | BundleSealed(bundle: Bundle)
    | HoldPlaced(hold: Hold)
    | HoldReleased(release: Release)
    | DeletionIntent(intent: Intent)
    | EvidenceDeleted(tombstone: Tombstone)
    | ComponentRetired(retirement: Retirement)
    | AuthorityRotated(rotation: Rotation)

  datatype Payload = Payload(vaultId: string, sequence: nat, previous: Option<Root>, recordedAt: Instant, body: Body)

  /** Domain-separated digests of the manifest and of event payloads; injective by construction. */
  datatype Root = ManifestRoot(manifest: Manifest) | EventRoot(payload: Payload)

  datatype Manifest = Manifest(vaultId: string, createdAt: Instant, initialKey: Key)

  /** A journal entry. The root covers the payload, not the signature. */
  datatype Event = Event(payload: Payload, root: Root, signerKey: Key, signature: string)

  /** Signing and verification, with nothing assumed but that honest signatures verify. */
  datatype Scheme = Scheme(sign: (Key, Root) -> string, verify: (Key, Root, string) -> bool)

  ghost predicate Correct(s: Scheme) {
    forall k, r :: s.verify(k, r, s.sign(k, r))
  }

  /** A vault directory's immutable part. */
  datatype Site = Site(scheme: Scheme, manifest: Manifest)

  datatype HoldState = HoldState(evidenceIds: seq<string>, released: bool, placedRoot: Root)

  datatype Row<T> = Row(body: T, root: Root)

  /** Evidence and what has been recorded about deleting it. */
  datatype Custody = Custody(
    evidence: map<string, Row<Evidence>>,
    intents: map<string, Row<Intent>>,
    deletions: map<string, Row<Tombstone>>)

  /** Archived components and their retirements. */
  datatype Catalog = Catalog(components: map<string, Row<Component>>, retirements: map<string, Row<Retirement>>)

  /** The dictionaries replay fills, grouped by what they are about. */
  datatype State = State(catalog: Catalog, custody: Custody, bundles: map<string, Row<Bundle>>, holds: map<string, HoldState>)

  /** The part of replay that follows the hash chain and the signing authority. */
  datatype Chain = Chain(count: nat, previous: Option<Root>, history: seq<Key>)

  // ----- identifiers -----

  predicate IdHead(c: char) {
    'A' <= c <= 'Z' || 'a' <= c <= 'z' || '0' <= c <= '9'
  }

  /** `[A-Za-z0-9][A-Za-z0-9_.:-]{0,254}` */
  predicate IsIdentifier(s: string) {
    && 0 < |s| <= 255 && IdHead(s[0])
    && forall i :: 0 < i < |s| ==> IdHead(s[i]) || s[i] == '_' || s[i] == '.' || s[i] == ':' || s[i] == '-'
  }
}
