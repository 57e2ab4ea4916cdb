/** The vault's commands and recovery as they act on the directory, one atomic write at a time. */
module Vault {
  import opened Wrappers
  import opened Order
  import opened Canonical
  import opened VaultTypes
  import opened VaultReplay
  import opened VaultModel
  import opened VaultRuns

  datatype Error =
    | CorruptJournal | StaleSigner | PendingConflict | ObjectCorrupted | AlreadyUnavailable
    | InvalidArgument | DuplicateIdentity | Unresolved | DeletionPrevented

  datatype Outcome = Done | Crashed | Failed(error: Error)

  // ----- arguments the commands refuse -----

  predicate Repeats(ids: seq<string>) {
    |set e | e in ids| != |ids|
  }

  predicate BundleRefused(s: State, bundleId: string, evidenceIds: seq<string>) {
    !IsIdentifier(bundleId) || evidenceIds == [] || Repeats(evidenceIds) || bundleId in s.bundles
    || exists e :: e in evidenceIds && !Live(s.custody, e)
  }

  predicate HoldRefused(s: State, holdId: string, evidenceIds: seq<string>, authority: string) {
    !IsIdentifier(holdId) || !IsIdentifier(authority) || evidenceIds == [] || Repeats(evidenceIds) || holdId in s.holds
    || exists e :: e in evidenceIds && !Live(s.custody, e)
  }

  predicate RetirementRefused(k: Catalog, ref: string, replacement: Option<string>) {
    ref !in k.components || ref in k.retirements
    || (replacement.Some? && (replacement.value !in k.components || replacement.value == ref || replacement.value in k.retirements
                              || k.components[replacement.value].body.kind != k.components[ref].body.kind))
  }

  predicate ArchiveRefused(k: Catalog, kind: Kind, componentId: string, version: string, content: Bytes, metadata: Json) {
    !IsIdentifier(componentId) || !IsIdentifier(version) || content == []
    || KindName(kind) + ":" + componentId + ":" + version in k.components || CanonicalJson(metadata).None?
  }

  predicate EvidenceRefused(s: State, v: Evidence) {
    !IsIdentifier(v.id) || !IsIdentifier(v.claimId) || !IsIdentifier(v.runId)
    || !(v.capturedAt <= v.minimumRetainUntil <= v.deletionRequiredBy)
    || v.id in s.custody.evidence || !CapturesValid(s.catalog, v)
  }

  predicate DeletionRefused(s: State, e: string, at: Instant, basis: Basis, authority: string) {
    !IsIdentifier(authority) || e !in s.custody.evidence || RetentionDecision(s, e, at).status != AllowedStatus(basis)
  }

  function KindName(kind: Kind): string {
    match kind
    case BridgeKind => "bridge"
    case KeyKind => "key"
    case PolicyKind => "policy"
    case SchemaKind => "schema"
    case VerifierKind => "verifier"
  }

  class Directory {
    const site: Site
    var journal: seq<Event>
    var objects: map<Hash, Bytes>
    var fuse: nat                 // atomic writes left before the host stops
    ghost var run: seq<Disk>      // every disk this directory has been
    ghost var writes: seq<Write>

    ghost function Now(): Disk
      reads this
    {
      Disk(journal, objects)
    }

    /** The signing keys that are or were in force, in order. */
    ghost function Authorities(): seq<Key>
      reads this
    {
      if Accepted(site, journal) then ChainOf(site, Now()).history else []
    }

    ghost predicate Valid()
      reads this
    {
      Correct(site.scheme) && IsRun(site, run, writes) && run[|writes|] == Now()
    }

    /** `create` */
    constructor (site: Site, fuse: nat)
      requires Correct(site.scheme)
      ensures Valid() && Now() == FRESH && this.site == site
    {
      this.site, this.fuse := site, fuse;
      journal, objects := [], map[];
      run, writes := [FRESH], [];
    }

    /** Whatever happened before, including crashes, the directory satisfies the vault's invariant. */
    lemma Safe()
      requires Valid()
      ensures Inv(site, Now())
    {
      RunSafe(site, run, writes, |writes|);
    }

    ghost method Record(w: Write, before: Disk)
      requires Correct(site.scheme) && IsRun(site, run, writes) && run[|writes|] == before
      requires WellSpelled(w) && Steps(site, before, w, Now())
      modifies this`run, this`writes
      ensures Valid()
    {
      run, writes := run + [Now()], writes + [w];
    }

    /** The atomic step of `_append_event`: sign with the active key, or refuse a stale signer. */
    method AppendEvent(signer: Key, body: Body, at: Instant, ghost w: Write) returns (out: Outcome)
      requires Valid() && Inv(site, Now()) && Enabled(site, Now(), w)
      requires w == Command(body, at) || (w.Commit? && IsPending(StateOf(site, Now()).custody, w.evidenceId)
                 && body == EvidenceDeleted(CommitBody(StateOf(site, Now()).custody.intents[w.evidenceId]))
                 && at == StateOf(site, Now()).custody.intents[w.evidenceId].body.deletedAt)
      modifies this
      ensures out.Done? ==> Now() == Perform(site, old(Now()), w) && signer == Active(ChainOf(site, old(Now())))
      ensures !out.Done? ==> Now() == old(Now()) && Valid()
      ensures out.Failed? ==> out.error.StaleSigner? && signer != Active(ChainOf(site, old(Now())))
      ensures WellSpelled(w) ==> Valid()
    {
      var replayed := Replay(site, journal);
      if replayed.None? {
        return Failed(CorruptJournal);
      }
      var chain := replayed.value.0;
      if signer != Active(chain) {
        return Failed(StaleSigner);
      }
      if fuse == 0 {
        return Crashed;
      }
      ghost var before := Now();
      fuse := fuse - 1;
      journal := journal + [MakeEvent(site, chain, body, at)];
      if WellSpelled(w) { Record(w, before); }
      out := Done;
    }

    /** `_put_object`: content already stored is checked, not rewritten. */
    method PutObject(content: Bytes) returns (out: Outcome)
      requires Valid() && Inv(site, Now()) && Clean(site, Now())
      modifies this
      ensures Valid() && Inv(site, Now()) && journal == old(journal) && !out.Failed?
      ensures out.Done? ==> Now() == Perform(site, old(Now()), Put(content))
      ensures !out.Done? ==> Now() == old(Now())
    {
      var h := Sha256(content);
      if h in objects {
        if Sha256(objects[h]) != h {
          return Failed(ObjectCorrupted);
        }
        assert objects == objects[h := content];
        return Done;
      }
      if fuse == 0 {
        return Crashed;
      }
      ghost var before := Now();
      fuse := fuse - 1;
      objects := objects[h := content];
      Record(Put(content), before);
      Safe();
      out := Done;
    }

    /** Removes one object. */
    method Unlink(h: Hash, ghost w: Write) returns (out: Outcome)
      requires Valid() && Inv(site, Now()) && Enabled(site, Now(), w) && (w.Collect? || w.UnlinkPending?)
      requires Perform(site, Now(), w) == Disk(journal, objects - {h})
      modifies this
      ensures Valid() && Inv(site, Now()) && !out.Failed?
      ensures out.Done? ==> Now() == Perform(site, old(Now()), w)
      ensures !out.Done? ==> Now() == old(Now())
    {
      if fuse == 0 {
        return Crashed;
      }
      ghost var before := Now();
      fuse := fuse - 1;
      objects := objects - {h};
      Record(w, before);
      Safe();
      out := Done;
    }

    // ----- recovery -----

    /** One pending deletion: unlink if it is physical and still there, then commit. */
    method FinishDeletion(signer: Key, state: State, id: string) returns (out: Outcome)
      requires Valid() && Inv(site, Now()) && state == StateOf(site, Now()) && IsPending(state.custody, id)
      modifies this
      ensures Valid() && Inv(site, Now()) && Recovered(site, Now()) == Recovered(site, old(Now()))
      ensures out.Done? ==> Quiet(StateOf(site, Now()).custody)
      ensures out.Failed? ==> out.error.StaleSigner? && signer != Active(ChainOf(site, old(Now())))
    {
      var i := state.custody.intents[id];
      if i.body.physical && (RetainingEvidence(state.custody, i.body.address, Some(id)) != {}
                             || RetainingComponents(state.catalog, i.body.address) != {}) {
        NoConflict(state, id);
        return Failed(PendingConflict);
      }
      if i.body.physical && i.body.address in objects {
        RecoveryConverges(site, Now(), UnlinkPending(id));
        out := Unlink(i.body.address, UnlinkPending(id));
        if !out.Done? {
          return;
        }
      }
      RecoveryConverges(site, Now(), Commit(id));
      CommitWriteKeeps(site, Now(), id);
      out := AppendEvent(signer, EvidenceDeleted(CommitBody(i)), i.body.deletedAt, Commit(id));
    }

    lemma NoConflict(s: State, id: string)
      requires PendingUnshared(s.custody, s.catalog) && IsPending(s.custody, id) && s.custody.intents[id].body.physical
      ensures RetainingEvidence(s.custody, s.custody.intents[id].body.address, Some(id)) == {}
      ensures RetainingComponents(s.catalog, s.custody.intents[id].body.address) == {}
    {
      var h := s.custody.intents[id].body.address;
      forall e ensures e !in RetainingEvidence(s.custody, h, Some(id)) { assert !EvidenceNeeds(s.custody, e, h); }
      forall x ensures x !in RetainingComponents(s.catalog, h) { assert !ComponentNeeds(s.catalog, x, h); }
    }

    /** The collection pass over the stored objects. */
    method CollectGarbage(state: State) returns (out: Outcome)
      requires Valid() && Inv(site, Now()) && state == StateOf(site, Now()) && Quiet(state.custody)
      modifies this
      ensures Valid() && Inv(site, Now()) && Recovered(site, Now()) == Recovered(site, old(Now())) && !out.Failed?
      ensures journal == old(journal) && (out.Done? ==> Clean(site, Now()))
    {
      var todo := objects.Keys;
      while todo != {}
        invariant Valid() && Inv(site, Now()) && Recovered(site, Now()) == Recovered(site, old(Now()))
        invariant journal == old(journal) && todo <= objects.Keys
        invariant forall h :: h in objects && h !in todo ==> Referenced(state, h)
        decreases todo
      {
        var h :| h in todo;
        todo := todo - {h};
        if RetainingEvidence(state.custody, h, None) == {} && RetainingComponents(state.catalog, h) == {} {
          Unretained(state, h);
          RecoveryConverges(site, Now(), Collect(h));
          out := Unlink(h, Collect(h));
          if !out.Done? {
            return;
          }
        } else {
          Unretained(state, h);
        }
      }
      out := Done;
    }

    lemma Unretained(s: State, h: Hash)
      ensures RetainingEvidence(s.custody, h, None) == {} && RetainingComponents(s.catalog, h) == {} <==> !Referenced(s, h)
    {
      if Referenced(s, h) {
        if e :| e in s.custody.evidence && EvidenceNeeds(s.custody, e, h) {
          assert e in RetainingEvidence(s.custody, h, None);
        } else {
          var x :| x in s.catalog.components && ComponentNeeds(s.catalog, x, h);
          assert x in RetainingComponents(s.catalog, h);
        }
      } else {
        forall e ensures e !in RetainingEvidence(s.custody, h, None) { assert !EvidenceNeeds(s.custody, e, h); }
        forall x ensures x !in RetainingComponents(s.catalog, h) { assert !ComponentNeeds(s.catalog, x, h); }
      }
    }

    /** `_recover_locked`. Wherever it stops, recovering again leads to the same disk; when it finishes, that is
        the disk it leaves. It can fail only because the signer is stale. */
    method Recover(signer: Key) returns (out: Outcome)
      requires Valid()
      modifies this
      ensures Valid() && Inv(site, old(Now())) && Inv(site, Now())
      ensures Recovered(site, Now()) == Recovered(site, old(Now()))
      ensures out.Done? ==> Now() == Recovered(site, old(Now())) && Clean(site, Now())
      ensures out.Failed? ==> out.error.StaleSigner? && signer != Active(ChainOf(site, old(Now())))
    {
      Safe();
      var replayed := Replay(site, journal);
      if replayed.None? {
        return Failed(CorruptJournal);
      }
      out := FinishDeletions(signer, replayed.value.1);
      if !out.Done? {
        return;
      }
      replayed := Replay(site, journal);
      if replayed.None? {
        return Failed(CorruptJournal);
      }
      out := CollectGarbage(replayed.value.1);
      if out.Done? { CleanIsRecovered(site, Now()); }
    }

    /** The loop over pending deletions; the invariant leaves it at most one to do. */
    method FinishDeletions(signer: Key, state: State) returns (out: Outcome)
      requires Valid() && Inv(site, Now()) && state == StateOf(site, Now())
      modifies this
      ensures Valid() && Inv(site, Now()) && Recovered(site, Now()) == Recovered(site, old(Now()))
      ensures out.Done? ==> Quiet(StateOf(site, Now()).custody)
      ensures out.Failed? ==> out.error.StaleSigner? && signer != Active(ChainOf(site, old(Now())))
    {
      var pending := SortedNames(Pending(state.custody));
      QuietIsEmpty(state.custody);
      AtMostOne(state.custody);
      for i := 0 to |pending|
        invariant Valid() && Inv(site, Now()) && Recovered(site, Now()) == Recovered(site, old(Now()))
        invariant i == 0 ==> Now() == old(Now())
        invariant i > 0 ==> Quiet(StateOf(site, Now()).custody)
      {
        assert pending[i] in Pending(state.custody);
        out := FinishDeletion(signer, state, pending[i]);
        if !out.Done? {
          return;
        }
      }
      out := Done;
    }

    lemma AtMostOne(c: Custody)
      requires DeletionsSound(c)
      ensures |SortedNames(Pending(c))| <= 1
    {
      var names := SortedNames(Pending(c));
      NameOrder();
      assert |names| > 1 ==> names[0] in Pending(c) && names[1] in Pending(c) && NameLess(names[0], names[1]);
      assert forall e :: e in Pending(c) ==> IsPending(c, e);
    }

    // ----- commands -----

    /** What `_locked_mutation` does before every command, and the state the command then works on. */
    method Begin(signer: Key) returns (out: Outcome, chain: Chain, state: State)
      requires Valid()
      modifies this
      ensures Valid() && Inv(site, old(Now())) && Inv(site, Now())
      ensures Recovered(site, Now()) == Recovered(site, old(Now()))
      ensures out.Done? ==> Now() == Recovered(site, old(Now())) && Clean(site, Now())
      ensures out.Done? ==> chain == ChainOf(site, Now()) && state == StateOf(site, Now())
      ensures chain.history != [] && (out.Done? ==> chain.history == old(Authorities()))
      ensures out.Failed? ==> out.error.StaleSigner? && signer != Active(ChainOf(site, old(Now())))
    {
      chain, state := Chain(0, None, [site.manifest.initialKey]), EMPTY;
      out := Recover(signer);
      if out.Done? {
        RecoveredAuthority(site, old(Now()));
        var replayed := Replay(site, journal);
        chain, state := replayed.value.0, replayed.value.1;
      }
    }

    /** The last step of a command whose checks have passed on a clean directory. */
    method Issue(signer: Key, ghost chain: Chain, ghost state: State, body: Body, at: Instant) returns (out: Outcome)
      requires Valid() && Inv(site, Now()) && Clean(site, Now())
      requires chain == ChainOf(site, Now()) && state == StateOf(site, Now())
      requires chain.history != [] && CommandAllows(chain, state, objects, body, at)
      modifies this
      ensures Enabled(site, old(Now()), Command(body, at))
      ensures out.Done? ==> Now() == Perform(site, old(Now()), Command(body, at)) && signer == Active(chain)
      ensures !out.Done? ==> Now() == old(Now()) && Valid()
      ensures out.Failed? ==> out.error.StaleSigner? && signer != Active(chain)
      ensures ClaimIdsValid(body) ==> Valid()
    {
      out := AppendEvent(signer, body, at, Command(body, at));
    }

    /** A command that writes one event: what it leaves when it succeeds, and that otherwise it leaves nothing
        recovery does not clear. */
    twostate predicate OneEvent(out: Outcome, body: Body, at: Instant)
      reads this
    {
      && Inv(site, old(Now()))
      && (out.Done? ==>
            && Enabled(site, Recovered(site, old(Now())), Command(body, at))
            && Now() == Perform(site, Recovered(site, old(Now())), Command(body, at)))
      && (!out.Done? ==> Inv(site, Now()) && Recovered(site, Now()) == Recovered(site, old(Now())))
    }

    /** A command fails only because the signer is not the active key, or because its arguments were refused. */
    twostate predicate FailsOnly(out: Outcome, signer: Key, refused: State -> bool)
      reads this
    {
      && Accepted(site, old(Now()).journal)
      && (out.Failed? ==>
            if out.error.StaleSigner? then signer != Active(ChainOf(site, old(Now())))
            else Accepted(site, journal) && refused(StateOf(site, Now())))
    }

    method RotateJournalAuthority(signer: Key, successor: Key, at: Instant) returns (out: Outcome, ghost body: Body)
      requires Valid()
      modifies this
      ensures Valid() && OneEvent(out, body, at)
      ensures out.Done? ==> body == AuthorityRotated(Rotation(signer, successor))
      ensures out.Failed? ==> if out.error.StaleSigner? then signer != Active(ChainOf(site, old(Now())))
                              else successor in old(Authorities())
    {
      var chain, state;
      out, chain, state := Begin(signer);
      body := AuthorityRotated(Rotation(Active(chain), successor));
      if out.Done? {
        out := Rotate(signer, chain, state, successor, at);
      }
    }

    /** The rotation itself: refused exactly for a key that is or was in force. */
    method Rotate(signer: Key, chain: Chain, ghost state: State, successor: Key, at: Instant) returns (out: Outcome)
      requires Valid() && Inv(site, Now()) && Clean(site, Now())
      requires chain == ChainOf(site, Now()) && state == StateOf(site, Now()) && chain.history != []
      modifies this
      ensures Valid() && (!out.Done? ==> Now() == old(Now()))
      ensures out.Done? ==>
                var w := Command(AuthorityRotated(Rotation(Active(chain), successor)), at);
                signer == Active(chain) && Enabled(site, old(Now()), w) && Now() == Perform(site, old(Now()), w)
      ensures out.Failed? ==> if out.error.StaleSigner? then signer != Active(chain) else successor in chain.history
    {
      if successor in chain.history {
        return Failed(DuplicateIdentity);
      }
      out := Issue(signer, chain, state, AuthorityRotated(Rotation(Active(chain), successor)), at);
    }

    method CreateBundle(signer: Key, bundleId: string, evidenceIds: seq<string>, at: Instant) returns (out: Outcome, ghost body: Body)
      requires Valid()
      modifies this
      ensures Valid() && OneEvent(out, body, at)
      ensures out.Done? ==> body.BundleSealed? && body.bundle.id == bundleId
      ensures out.Done? ==> BundleOf(body.bundle.rows, SortedNames(set e | e in evidenceIds)) && |body.bundle.rows| == |evidenceIds|
      ensures FailsOnly(out, signer, (s: State) => BundleRefused(s, bundleId, evidenceIds))
    {
      var chain, state;
      out, chain, state := Begin(signer);
      body := BundleSealed(Bundle(bundleId, []));
      if !out.Done? {
        return;
      }
      var ids := SortedNames(set e | e in evidenceIds);
      if !IsIdentifier(bundleId) || ids == [] || |ids| != |evidenceIds| {
        return Failed(InvalidArgument), body;
      }
      if bundleId in state.bundles {
        return Failed(DuplicateIdentity), body;
      }
      var rows := BundleRows(state.custody, ids);
      if rows.None? {
        return Failed(Unresolved), body;
      }
      var event := BundleSealed(Bundle(bundleId, rows.value));
      body := event;
      out := Issue(signer, chain, state, event, at);
    }

    /** One row per evidence id; refused when one is unknown, deleted or being deleted. */
    method BundleRows(c: Custody, ids: seq<string>) returns (rows: Option<seq<BundleRow>>)
      ensures rows.None? <==> exists e :: e in ids && !Live(c, e)
      ensures rows.Some? ==> BundleOf(rows.value, ids) && forall row :: row in rows.value ==> RowValid(c, row)
    {
      var done: seq<BundleRow> := [];
      for i := 0 to |ids|
        invariant |done| == i && forall k :: 0 <= k < i ==> RowValid(c, done[k]) && done[k].evidenceId == ids[k]
      {
        if !Live(c, ids[i]) {
          return None;
        }
        done := done + [BundleRow(ids[i], c.evidence[ids[i]].root, c.evidence[ids[i]].body.address)];
      }
      rows := Some(done);
    }

    ghost predicate BundleOf(rows: seq<BundleRow>, ids: seq<string>) {
      |rows| == |ids| && forall k :: 0 <= k < |ids| ==> rows[k].evidenceId == ids[k]
    }

    method PlaceLegalHold(signer: Key, holdId: string, evidenceIds: seq<string>, authority: string, at: Instant)
      returns (out: Outcome, ghost body: Body)
      requires Valid()
      modifies this
      ensures Valid() && OneEvent(out, body, at)
      ensures out.Done? ==> body.HoldPlaced? && body.hold.id == holdId && forall e :: e in body.hold.evidenceIds <==> e in evidenceIds
      ensures FailsOnly(out, signer, (s: State) => HoldRefused(s, holdId, evidenceIds, authority))
    {
      var chain, state;
      out, chain, state := Begin(signer);
      var ids := SortedNames(set e | e in evidenceIds);
      var event := HoldPlaced(Hold(holdId, ids, authority));
      body := event;
      if !out.Done? {
        return;
      }
      if !IsIdentifier(holdId) || !IsIdentifier(authority) || ids == [] || |ids| != |evidenceIds| {
        return Failed(InvalidArgument), event;
      }
      if holdId in state.holds {
        return Failed(DuplicateIdentity), event;
      }
      if exists e :: e in ids && !Live(state.custody, e) {
        return Failed(Unresolved), event;
      }
      out := Issue(signer, chain, state, event, at);
    }

    method ReleaseLegalHold(signer: Key, holdId: string, authority: string, at: Instant) returns (out: Outcome, ghost body: Body)
      requires Valid()
      modifies this
      ensures Valid() && OneEvent(out, body, at)
      ensures out.Done? ==> body.HoldReleased? && body.release.holdId == holdId
      ensures FailsOnly(out, signer, (s: State) => !IsIdentifier(authority) || holdId !in s.holds || s.holds[holdId].released)
    {
      var chain, state;
      out, chain, state := Begin(signer);
      body := HoldReleased(Release(holdId, authority, ManifestRoot(site.manifest)));
      if !out.Done? {
        return;
      }
      if !IsIdentifier(authority) {
        return Failed(InvalidArgument), body;
      }
      if holdId !in state.holds || state.holds[holdId].released {
        return Failed(Unresolved), body;
      }
      var event := HoldReleased(Release(holdId, authority, state.holds[holdId].placedRoot));
      body := event;
      out := Issue(signer, chain, state, event, at);
    }

    /** Claim ids are not checked: when one is malformed the event is written all the same, and from then on
        replay refuses the journal. */
    method RetireComponent(signer: Key, ref: string, replacement: Option<string>, impacted: seq<string>, unsupported: seq<string>, at: Instant)
      returns (out: Outcome, ghost body: Body)
      requires Valid()
      modifies this
      ensures OneEvent(out, body, at)
      ensures out.Done? ==> body.ComponentRetired? && body.retirement.ref == ref && body.retirement.replacement == replacement
      ensures out.Done? ==> forall x :: x in body.retirement.impacted <==> x in impacted
      ensures out.Done? ==> forall x :: x in body.retirement.unsupported <==> x in unsupported
      ensures out.Done? ==> (Accepted(site, journal) <==> ClaimIdsValid(body))
      ensures FailsOnly(out, signer, (s: State) => RetirementRefused(s.catalog, ref, replacement))
      ensures !out.Done? || ClaimIdsValid(body) ==> Valid()
    {
      var chain, state;
      out, chain, state := Begin(signer);
      body := ComponentRetired(Retirement(ref, replacement, [], [], Sha256([]), at));
      if !out.Done? {
        return;
      }
      var k := state.catalog;
      if ref !in k.components {
        return Failed(Unresolved), body;
      }
      if ref in k.retirements {
        return Failed(DuplicateIdentity), body;
      }
      if replacement.Some? && (replacement.value !in k.components || replacement.value == ref || replacement.value in k.retirements
                               || k.components[replacement.value].body.kind != k.components[ref].body.kind) {
        return Failed(Unresolved), body;
      }
      var r := Retirement(ref, replacement, SortedNames(set x | x in impacted), SortedNames(set x | x in unsupported),
                          k.components[ref].body.address, at);
      var event := ComponentRetired(r);
      body := event;
      AppendAccepted(site, Now(), event, at);
      RetirementReplayed(state, MakeEvent(site, chain, event, at), r);
      out := Issue(signer, chain, state, event, at);
    }

    // ----- commands that store an object first -----

    ghost function Stored(d: Disk, content: Bytes): Disk {
      d.(objects := d.objects[Sha256(content) := content])
    }

    twostate predicate ObjectAndEvent(out: Outcome, content: Bytes, body: Body, at: Instant)
      reads this
    {
      && Inv(site, old(Now()))
      && (out.Done? ==>
            && Enabled(site, Stored(Recovered(site, old(Now())), content), Command(body, at))
            && Now() == Perform(site, Stored(Recovered(site, old(Now())), content), Command(body, at)))
      && (!out.Done? ==> Inv(site, Now()) && Recovered(site, Now()) == Recovered(site, old(Now())))
    }

    /** Stores the object, then the event that refers to it. */
    method StoreAndIssue(signer: Key, ghost chain: Chain, ghost state: State, content: Bytes, body: Body, at: Instant, refuse: bool)
      returns (out: Outcome)
      requires Valid() && Inv(site, Now()) && Clean(site, Now())
      requires chain == ChainOf(site, Now()) && state == StateOf(site, Now()) && chain.history != []
      requires CommandAllows(chain, state, objects[Sha256(content) := content], body, at) && ClaimIdsValid(body)
      modifies this
      ensures Valid()
      ensures out.Done? ==>
                && Enabled(site, Stored(old(Now()), content), Command(body, at))
                && Now() == Perform(site, Stored(old(Now()), content), Command(body, at)) && !refuse
      ensures !out.Done? ==> Inv(site, Now()) && Recovered(site, Now()) == Recovered(site, old(Now()))
      ensures out.Failed? ==> if out.error.StaleSigner? then signer != Active(chain) else refuse && journal == old(journal)
    {
      PutKeepsOutcome(site, Now(), content);
      out := PutObject(content);
      if !out.Done? {
        return;
      }
      if refuse {
        return Failed(InvalidArgument);
      }
      out := AppendEvent(signer, body, at, Command(body, at));
    }

    /** Metadata is only found not to be canonical JSON after the object has been stored. */
    method ArchiveComponent(signer: Key, kind: Kind, componentId: string, version: string, content: Bytes, metadata: Json, at: Instant)
      returns (out: Outcome, ghost body: Body)
      requires Valid()
      modifies this
      ensures Valid() && ObjectAndEvent(out, content, body, at)
      ensures body == ComponentArchived(Component(KindName(kind) + ":" + componentId + ":" + version, kind, Sha256(content), metadata))
      ensures out.Done? ==> content != [] && CanonicalJson(metadata).Some?
      ensures FailsOnly(out, signer, (s: State) => ArchiveRefused(s.catalog, kind, componentId, version, content, metadata))
    {
      var ref := KindName(kind) + ":" + componentId + ":" + version;
      var event := ComponentArchived(Component(ref, kind, Sha256(content), metadata));
      body := event;
      var chain, state;
      out, chain, state := Begin(signer);
      if !out.Done? {
        return;
      }
      if !IsIdentifier(componentId) || !IsIdentifier(version) || content == [] {
        return Failed(InvalidArgument), event;
      }
      if ref in state.catalog.components {
        return Failed(DuplicateIdentity), event;
      }
      out := StoreAndIssue(signer, chain, state, content, event, at, CanonicalJson(metadata).None?);
    }

    /** Refuses unresolved, mis-kinded and retired references. */
    method AppendEvidence(signer: Key, v: Evidence, content: Bytes, at: Instant) returns (out: Outcome, ghost body: Body)
      requires Valid() && v.address == Sha256(content)
      modifies this
      ensures Valid() && ObjectAndEvent(out, content, body, at) && body == EvidenceAppended(v)
      ensures FailsOnly(out, signer, (s: State) => EvidenceRefused(s, v))
    {
      var event := EvidenceAppended(v);
      body := event;
      var chain, state;
      out, chain, state := Begin(signer);
      if !out.Done? {
        return;
      }
      if !IsIdentifier(v.id) || !IsIdentifier(v.claimId) || !IsIdentifier(v.runId)
         || !(v.capturedAt <= v.minimumRetainUntil <= v.deletionRequiredBy) {
        return Failed(InvalidArgument), event;
      }
      if v.id in state.custody.evidence {
        return Failed(DuplicateIdentity), event;
      }
      if !CapturesValid(state.catalog, v) {
        return Failed(Unresolved), event;
      }
      out := StoreAndIssue(signer, chain, state, content, event, at, false);
    }

    // ----- deletion -----

    ghost predicate DeletionStarted(d: Disk, i: Intent) {
      Enabled(site, d, Command(DeletionIntent(i), i.deletedAt))
    }

    /** The outcome of a deletion that reached its intent is fixed from then on, crash or not. */
    twostate predicate Deletes(out: Outcome, i: Intent)
      reads this
    {
      && Inv(site, old(Now())) && Inv(site, Now())
      && (out.Done? ==>
            && DeletionStarted(Recovered(site, old(Now())), i)
            && Accepted(site, IntentWritten(site, Recovered(site, old(Now())), i).journal)
            && Now() == Recovered(site, IntentWritten(site, Recovered(site, old(Now())), i)))
      && (!out.Done? ==>
            || Recovered(site, Now()) == Recovered(site, old(Now()))
            || (&& DeletionStarted(Recovered(site, old(Now())), i)
                && Accepted(site, IntentWritten(site, Recovered(site, old(Now())), i).journal)
                && Recovered(site, Now()) == Recovered(site, IntentWritten(site, Recovered(site, old(Now())), i))))
    }

    method DeleteEvidence(signer: Key, evidenceId: string, deletedAt: Instant, basis: Basis, authority: string)
      returns (out: Outcome, ghost intent: Intent)
      requires Valid()
      modifies this
      ensures Valid() && Deletes(out, intent)
      ensures out.Done? ==> intent.evidenceId == evidenceId && intent.deletedAt == deletedAt && intent.basis == basis
      ensures out.Failed? ==> !out.error.AlreadyUnavailable? && !out.error.PendingConflict?
      ensures out.Failed? && !out.error.StaleSigner? ==>
                Accepted(site, journal) && DeletionRefused(StateOf(site, Now()), evidenceId, deletedAt, basis, authority)
      ensures out.Failed? && out.error.StaleSigner? && Now() == Recovered(site, old(Now())) ==> signer != Active(ChainOf(site, old(Now())))
      ensures out.Failed? && out.error.DeletionPrevented? ==>
                && evidenceId in StateOf(site, Now()).custody.evidence
                && RetentionDecision(StateOf(site, Now()), evidenceId, deletedAt).status != AllowedStatus(basis)
    {
      var chain, state;
      out, chain, state := Begin(signer);
      intent := Intent(evidenceId, deletedAt, Sha256([]), basis, authority, Decision(deletedAt, Deleted, []), false, [], []);
      if !out.Done? {
        return;
      }
      if !IsIdentifier(authority) {
        return Failed(InvalidArgument), intent;
      }
      if evidenceId !in state.custody.evidence {
        return Failed(Unresolved), intent;
      }
      var i := IntentFor(state, evidenceId, deletedAt, basis, authority);
      intent := i;
      if i.decision.status != AllowedStatus(basis) {
        return Failed(DeletionPrevented), i;
      }
      ObjectAvailable(state, i);
      if i.physical && i.address !in objects {
        return Failed(AlreadyUnavailable), i;
      }
      out := Erase(signer, chain, state, i);
    }

    /** The object of live evidence is there: "already unavailable" cannot happen. */
    lemma ObjectAvailable(s: State, i: Intent)
      requires StoreInv(s, objects) && DeletionAllowed(s, i)
      ensures i.address in objects
    {
      AllowedDeletion(s, i.evidenceId, i.deletedAt, i.basis);
      assert EvidenceNeeds(s.custody, i.evidenceId, i.address);
      assert NeededByEvidence(s.custody, i.address);
    }

    /** Intent, unlink, commit. */
    method Erase(signer: Key, ghost chain: Chain, ghost state: State, i: Intent) returns (out: Outcome)
      requires Valid() && Inv(site, Now()) && Clean(site, Now())
      requires chain == ChainOf(site, Now()) && state == StateOf(site, Now()) && chain.history != []
      requires DeletionAllowed(state, i) && i.address in objects
      modifies this
      ensures Valid() && Inv(site, Now()) && DeletionStarted(old(Now()), i)
      ensures Accepted(site, IntentWritten(site, old(Now()), i).journal)
      ensures out.Done? ==> Now() == Recovered(site, IntentWritten(site, old(Now()), i))
      ensures !out.Done? ==> Now() == old(Now()) || Recovered(site, Now()) == Recovered(site, IntentWritten(site, old(Now()), i))
      ensures out.Failed? ==> out.error.StaleSigner? && (Now() == old(Now()) ==> signer != Active(chain))
    {
      ghost var d := Now();
      assert DeletionStarted(d, i);
      DeletionCompletes(site, d, i);
      DeletionWrites(site, d, i);
      out := Issue(signer, chain, state, DeletionIntent(i), i.deletedAt);
      if !out.Done? {
        return;
      }
      IntentPending(site, d, i);
      var row := Row(i, journal[|journal| - 1].root);
      if i.physical {
        RecoveryConverges(site, Now(), UnlinkPending(i.evidenceId));
        out := Unlink(i.address, UnlinkPending(i.evidenceId));
        if !out.Done? {
          return;
        }
      }
      out := AppendEvent(signer, EvidenceDeleted(CommitBody(row)), i.deletedAt, Commit(i.evidenceId));
    }
  }
}
