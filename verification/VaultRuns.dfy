/** Whole runs of the vault: safety under crashes, monotonicity, and what recovery converges to. */
module VaultRuns {
  import opened Wrappers
  import opened Order
  import opened VaultTypes
  import opened VaultReplay
  import opened VaultModel

  // ----- runs -----

  const FRESH := Disk([], map[])

  /** A run is a sequence of atomic writes. Where one process crashed and another took over leaves no trace
      in it: the next write only depends on what is on disk. */
  ghost predicate IsRun(site: Site, run: seq<Disk>, writes: seq<Write>) {
    && |run| == |writes| + 1 && run[0] == FRESH
    && forall i :: 0 <= i < |writes| ==> WellSpelled(writes[i]) && Steps(site, run[i], writes[i], run[i + 1])
  }

  ghost predicate Steps(site: Site, d: Disk, w: Write, d': Disk) {
    Enabled(site, d, w) && d' == Perform(site, d, w)
  }

  lemma FreshInv(site: Site)
    ensures Inv(site, FRESH)
  {
    assert FoldState([]) == Some(EMPTY);
    assert forall h :: !Referenced(EMPTY, h);
  }

  /** Safety over every run, at every crash point. */
  lemma {:induction false} RunSafe(site: Site, run: seq<Disk>, writes: seq<Write>, i: nat)
    requires Correct(site.scheme) && IsRun(site, run, writes) && i < |run|
    ensures Inv(site, run[i])
  {
    if i == 0 {
      FreshInv(site);
    } else {
      RunSafe(site, run, writes, i - 1);
      assert Steps(site, run[i - 1], writes[i - 1], run[i]);
      WriteKeeps(site, run[i - 1], writes[i - 1]);
    }
  }

  /** The same in the vault's own words: archived components and live evidence keep their bytes, at most one
      deletion is in flight, and the deletion in flight never conflicts with a live reference. */
  lemma RunRetains(site: Site, run: seq<Disk>, writes: seq<Write>, i: nat)
    requires Correct(site.scheme) && IsRun(site, run, writes) && i < |run|
    ensures Accepted(site, run[i].journal)
    ensures var s, objects := StateOf(site, run[i]), run[i].objects;
      && (forall c :: c in s.catalog.components ==>
            var h := s.catalog.components[c].body.address; h in objects && Sha256(objects[h]) == h)
      && (forall e :: Live(s.custody, e) ==>
            var h := s.custody.evidence[e].body.address; h in objects && Sha256(objects[h]) == h)
      && (forall a, b :: IsPending(s.custody, a) && IsPending(s.custody, b) ==> a == b)
      && (forall e :: IsPending(s.custody, e) && s.custody.intents[e].body.physical ==> !Referenced(s, s.custody.intents[e].body.address))
  {
    RunSafe(site, run, writes, i);
    var s := StateOf(site, run[i]);
    forall c | c in s.catalog.components ensures Referenced(s, s.catalog.components[c].body.address) {
      assert ComponentNeeds(s.catalog, c, s.catalog.components[c].body.address);
    }
    forall e | Live(s.custody, e) ensures Referenced(s, s.custody.evidence[e].body.address) {
      assert EvidenceNeeds(s.custody, e, s.custody.evidence[e].body.address);
    }
  }

  /** Lifecycle safety: holds and minimum retention are respected, and nothing is captured against a retired component. */
  lemma RunRespectsLifecycle(site: Site, run: seq<Disk>, writes: seq<Write>, i: nat)
    requires Correct(site.scheme) && IsRun(site, run, writes) && i < |run|
    ensures Accepted(site, run[i].journal)
    ensures var s := StateOf(site, run[i]);
      && (forall h, e :: h in s.holds && !s.holds[h].released && e in s.holds[h].evidenceIds ==>
            !IsPending(s.custody, e) && e !in s.custody.deletions)
      && (forall e :: e in s.custody.deletions ==>
            && e in s.custody.evidence
            && RecordedAt(s.custody.deletions[e].root) >= s.custody.evidence[e].body.minimumRetainUntil)
      && (forall e :: e in s.custody.evidence ==> CaptureRespected(s.custody.evidence[e], s.catalog))
  {
    RunSafe(site, run, writes, i);
    var s := StateOf(site, run[i]);
    forall h, e | h in s.holds && !s.holds[h].released && e in s.holds[h].evidenceIds
      ensures !IsPending(s.custody, e) && e !in s.custody.deletions {
      assert Live(s.custody, e);
    }
  }

  // ----- replacement chains -----

  /** The component a retired reference leads to, following replacements. */
  ghost function Successor(k: Catalog, n: nat, c: string): (r: string)
    requires CatalogSound(k) && SequencedCatalog(k, n) && c in k.components
    ensures r in k.components && k.components[r].body.kind == k.components[c].body.kind
    ensures r in k.retirements ==> k.retirements[r].body.replacement.None?
    decreases if c in k.retirements then n + 1 - SequenceOf(k.retirements[c].root) else 0
  {
    if c in k.retirements && k.retirements[c].body.replacement.Some? then
      assert ReplacementOrdered(k, c, k.retirements[c].body.replacement.value);
      Successor(k, n, k.retirements[c].body.replacement.value)
    else c
  }

  // ----- records only grow -----

  ghost predicate SubMap<K, V>(a: map<K, V>, b: map<K, V>) {
    forall x :: x in a ==> x in b && b[x] == a[x]
  }

  ghost predicate HoldsGrow(a: map<string, HoldState>, b: map<string, HoldState>) {
    forall h :: h in a ==>
      && h in b && b[h].evidenceIds == a[h].evidenceIds && b[h].placedRoot == a[h].placedRoot
      && (a[h].released ==> b[h].released)
  }

  ghost predicate Grows(s: State, t: State) {
    && SubMap(s.catalog.components, t.catalog.components) && SubMap(s.catalog.retirements, t.catalog.retirements)
    && SubMap(s.custody.evidence, t.custody.evidence) && SubMap(s.custody.intents, t.custody.intents)
    && SubMap(s.custody.deletions, t.custody.deletions) && SubMap(s.bundles, t.bundles)
    && HoldsGrow(s.holds, t.holds)
  }

  lemma SubMapAdd<K, V>(m: map<K, V>, k: K, v: V)
    ensures SubMap(m, m)
    ensures k !in m ==> SubMap(m, m[k := v])
  {
  }

  lemma StepGrows(s: State, e: Event)
    requires StateStep(s, e).Some?
    ensures Grows(s, StateStep(s, e).value)
  {
    GrowsRefl(s);
    var root := e.root;
    match e.payload.body
    case ComponentArchived(x) => SubMapAdd(s.catalog.components, x.ref, Row(x, root));
    case EvidenceAppended(v) => SubMapAdd(s.custody.evidence, v.id, Row(v, root));
    case BundleSealed(b) => SubMapAdd(s.bundles, b.id, Row(b, root));
    case DeletionIntent(i) => SubMapAdd(s.custody.intents, i.evidenceId, Row(i, root));
    case EvidenceDeleted(t) => SubMapAdd(s.custody.deletions, t.evidenceId, Row(t, root));
    case ComponentRetired(r) => SubMapAdd(s.catalog.retirements, r.ref, Row(r, root));
    case _ =>
  }

  lemma GrowsRefl(s: State)
    ensures Grows(s, s)
  {
  }

  lemma WriteGrows(site: Site, d: Disk, w: Write)
    requires Correct(site.scheme) && Inv(site, d) && Enabled(site, d, w) && WellSpelled(w)
    ensures Inv(site, Perform(site, d, w)) && Grows(StateOf(site, d), StateOf(site, Perform(site, d, w)))
    ensures d.journal <= Perform(site, d, w).journal
  {
    WriteKeeps(site, d, w);
    var d' := Perform(site, d, w);
    if d'.journal != d.journal {
      var e := d'.journal[|d.journal|];
      assert d'.journal == d.journal + [e];
      Append(site, d.journal, e);
      StepGrows(StateOf(site, d), e);
    }
  }

  /** Between any two points of a run no record disappears or changes, and a released hold stays released. */
  lemma {:induction false} RunGrows(site: Site, run: seq<Disk>, writes: seq<Write>, i: nat, j: nat)
    requires Correct(site.scheme) && IsRun(site, run, writes) && i <= j < |run|
    ensures Inv(site, run[i]) && Inv(site, run[j])
    ensures run[i].journal <= run[j].journal && Grows(StateOf(site, run[i]), StateOf(site, run[j]))
    decreases j - i
  {
    RunSafe(site, run, writes, i);
    if i < j {
      assert Steps(site, run[i], writes[i], run[i + 1]);
      WriteGrows(site, run[i], writes[i]);
      RunGrows(site, run, writes, i + 1, j);
      GrowsTransitive(StateOf(site, run[i]), StateOf(site, run[i + 1]), StateOf(site, run[j]));
    }
  }

  lemma GrowsTransitive(s: State, t: State, u: State)
    requires Grows(s, t) && Grows(t, u)
    ensures Grows(s, u)
  {
  }

  // ----- recovery -----

  predicate IsRecoveryWrite(w: Write) {
    w.Collect? || w.UnlinkPending? || w.Commit?
  }

  function PendingId(c: Custody): (e: string)
    requires Pending(c) != {}
    ensures IsPending(c, e)
  {
    LeastName(Pending(c))
  }

  /** The journal once the deletion in flight, if any, is committed. */
  function CommittedJournal(site: Site, d: Disk): seq<Event>
    requires Accepted(site, d.journal)
  {
    var c := StateOf(site, d).custody;
    if Pending(c) == {} then d.journal
    else
      var i := c.intents[PendingId(c)];
      d.journal + [MakeEvent(site, ChainOf(site, d), EvidenceDeleted(CommitBody(i)), i.body.deletedAt)]
  }

  /** What recovery is for: the deletion in flight is committed, and the disk holds exactly what is referenced. */
  ghost predicate IsRecovered(site: Site, d: Disk, r: Disk)
    requires Accepted(site, d.journal)
  {
    && r.journal == CommittedJournal(site, d)
    && r.objects == map h | h in d.objects && Referenced(StateOf(site, d), h) :: d.objects[h]
  }

  ghost function Recovered(site: Site, d: Disk): (r: Disk)
    requires Accepted(site, d.journal)
    ensures IsRecovered(site, d, r)
  {
    Disk(CommittedJournal(site, d), map h | h in d.objects && Referenced(StateOf(site, d), h) :: d.objects[h])
  }

  lemma PendingUnique(c: Custody, e: string)
    requires DeletionsSound(c) && IsPending(c, e)
    ensures Pending(c) == {e} && PendingId(c) == e
  {
    assert e in Pending(c);
    forall x | x in Pending(c) ensures x == e { assert IsPending(c, x); }
  }

  lemma QuietIsEmpty(c: Custody)
    ensures Quiet(c) <==> Pending(c) == {}
  {
    if Quiet(c) {
      forall x ensures x !in Pending(c) { assert !IsPending(c, x); }
    } else {
      var e :| IsPending(c, e);
      assert e in Pending(c);
    }
  }

  /** Dropping an object nothing refers to does not change what recovery leads to. */
  lemma DropKeepsOutcome(site: Site, d: Disk, h: Hash)
    requires Accepted(site, d.journal) && !Referenced(StateOf(site, d), h)
    ensures Recovered(site, d.(objects := d.objects - {h})) == Recovered(site, d)
  {
    assert Recovered(site, d.(objects := d.objects - {h})).objects == Recovered(site, d).objects;
  }

  lemma CommitKeepsOutcome(site: Site, d: Disk, e: string)
    requires Correct(site.scheme) && Inv(site, d) && Enabled(site, d, Commit(e))
    ensures Accepted(site, Perform(site, d, Commit(e)).journal)
    ensures Recovered(site, Perform(site, d, Commit(e))) == Recovered(site, d)
  {
    var d' := Perform(site, d, Commit(e));
    CommitWriteKeeps(site, d, e);
    PendingUnique(StateOf(site, d).custody, e);
    QuietIsEmpty(StateOf(site, d').custody);
    assert CommittedJournal(site, d') == CommittedJournal(site, d);
    SameReferences(site, d, d');
  }

  lemma SameReferences(site: Site, d: Disk, d': Disk)
    requires Accepted(site, d.journal) && Accepted(site, d'.journal) && d.objects == d'.objects
    requires forall h :: Referenced(StateOf(site, d'), h) <==> Referenced(StateOf(site, d), h)
    ensures Recovered(site, d').objects == Recovered(site, d).objects
  {
  }

  /** Each write of recovery brings the disk closer to the same outcome: recovery can crash anywhere and be restarted. */
  lemma RecoveryConverges(site: Site, d: Disk, w: Write)
    requires Correct(site.scheme) && Inv(site, d) && Enabled(site, d, w) && IsRecoveryWrite(w)
    ensures Inv(site, Perform(site, d, w)) && Recovered(site, Perform(site, d, w)) == Recovered(site, d)
  {
    WriteKeeps(site, d, w);
    match w
    case Collect(h) => DropKeepsOutcome(site, d, h);
    case UnlinkPending(e) => DropKeepsOutcome(site, d, StateOf(site, d).custody.intents[e].body.address);
    case Commit(e) => CommitKeepsOutcome(site, d, e);
  }

  /** Storing an object nothing refers to yet leaves a trace that recovery clears. */
  lemma PutKeepsOutcome(site: Site, d: Disk, content: Bytes)
    requires Inv(site, d)
    ensures Recovered(site, d.(objects := d.objects[Sha256(content) := content])) == Recovered(site, d)
  {
    assert Recovered(site, d.(objects := d.objects[Sha256(content) := content])).objects == Recovered(site, d).objects;
  }

  /** A recovered disk: nothing in flight, and exactly the referenced objects. */
  ghost predicate Clean(site: Site, d: Disk)
    requires Accepted(site, d.journal)
  {
    Quiet(StateOf(site, d).custody) && forall h :: h in d.objects <==> Referenced(StateOf(site, d), h)
  }

  lemma CleanIsRecovered(site: Site, d: Disk)
    requires Inv(site, d)
    ensures Recovered(site, d) == d <==> Clean(site, d)
  {
    var r := Recovered(site, d);
    QuietIsEmpty(StateOf(site, d).custody);
    if Clean(site, d) {
      assert r.objects == d.objects;
    }
    if r == d {
      assert |r.journal| == |d.journal|;
      forall h ensures h in d.objects <==> Referenced(StateOf(site, d), h) {
        assert h in r.objects <==> h in d.objects && Referenced(StateOf(site, d), h);
      }
    }
  }

  ghost predicate RecoveryRun(site: Site, run: seq<Disk>, writes: seq<Write>) {
    && |run| == |writes| + 1
    && forall i :: 0 <= i < |writes| ==> IsRecoveryWrite(writes[i]) && Steps(site, run[i], writes[i], run[i + 1])
  }

  lemma RecoveryTail(site: Site, run: seq<Disk>, writes: seq<Write>)
    requires RecoveryRun(site, run, writes) && writes != []
    ensures RecoveryRun(site, run[1..], writes[1..])
  {
    forall i | 0 <= i < |writes[1..]| ensures IsRecoveryWrite(writes[1..][i]) && Steps(site, run[1..][i], writes[1..][i], run[1..][i + 1]) {
      assert IsRecoveryWrite(writes[i + 1]) && Steps(site, run[i + 1], writes[i + 1], run[i + 2]);
    }
  }

  /** Any number of crashed and restarted recoveries, followed by one that completes, ends in the same disk
      as a recovery that was never interrupted; recovering again changes nothing. */
  lemma {:induction false} CrashedRecoveries(site: Site, run: seq<Disk>, writes: seq<Write>)
    requires Correct(site.scheme) && RecoveryRun(site, run, writes) && Inv(site, run[0])
    ensures Inv(site, run[|writes|]) && Recovered(site, run[|writes|]) == Recovered(site, run[0])
    ensures Clean(site, run[|writes|]) ==> run[|writes|] == Recovered(site, run[0])
    decreases |writes|
  {
    if writes != [] {
      assert Steps(site, run[0], writes[0], run[1]);
      RecoveryConverges(site, run[0], writes[0]);
      RecoveryTail(site, run, writes);
      CrashedRecoveries(site, run[1..], writes[1..]);
    }
    CleanIsRecovered(site, run[|writes|]);
  }

  /** The outcome of recovery is itself a clean, valid vault, and recovering it changes nothing. */
  lemma RecoveredIsClean(site: Site, d: Disk)
    requires Correct(site.scheme) && Inv(site, d)
    ensures Inv(site, Recovered(site, d)) && Clean(site, Recovered(site, d))
    ensures Recovered(site, Recovered(site, d)) == Recovered(site, d)
  {
    var s := StateOf(site, d);
    var r := Recovered(site, d);
    QuietIsEmpty(s.custody);
    if Pending(s.custody) != {} {
      var e := PendingId(s.custody);
      var unlinked := d.(objects := d.objects - {s.custody.intents[e].body.address});
      if s.custody.intents[e].body.physical {
        CommitFrom(site, d, unlinked, e);
      } else {
        CommitFrom(site, d, d, e);
      }
    }
    CleanIsRecovered(site, r);
  }

  /** Recovery never changes the signing authority. */
  lemma RecoveredAuthority(site: Site, d: Disk)
    requires Correct(site.scheme) && Inv(site, d)
    ensures Accepted(site, Recovered(site, d).journal)
    ensures ChainOf(site, Recovered(site, d)).history == ChainOf(site, d).history
  {
    RecoveredIsClean(site, d);
    var c := StateOf(site, d).custody;
    if Pending(c) != {} {
      var i := c.intents[PendingId(c)];
      Append(site, d.journal, MakeEvent(site, ChainOf(site, d), EvidenceDeleted(CommitBody(i)), i.body.deletedAt));
    }
  }

  lemma CommitFrom(site: Site, d: Disk, u: Disk, e: string)
    requires Correct(site.scheme) && Inv(site, d) && IsPending(StateOf(site, d).custody, e)
    requires u.journal == d.journal && Inv(site, u) && Enabled(site, u, Commit(e))
    ensures FoldState(CommittedJournal(site, d)).Some?
    ensures Inv(site, Recovered(site, d)) && Clean(site, Recovered(site, d))
  {
    PendingUnique(StateOf(site, d).custody, e);
    CommitWriteKeeps(site, u, e);
    var r := Recovered(site, d);
    assert r.journal == Perform(site, u, Commit(e)).journal;
  }

  // ----- deletion -----

  /** The disk right after the intent of an allowed deletion is on the journal. */
  ghost function IntentWritten(site: Site, d: Disk, i: Intent): Disk
    requires Enabled(site, d, Command(DeletionIntent(i), i.deletedAt))
  {
    Perform(site, d, Command(DeletionIntent(i), i.deletedAt))
  }

  /** The situation between intent and commit. */
  lemma IntentPending(site: Site, d: Disk, i: Intent)
    requires Correct(site.scheme) && Inv(site, d)
    requires Enabled(site, d, Command(DeletionIntent(i), i.deletedAt))
    ensures Inv(site, IntentWritten(site, d, i)) && IntentWritten(site, d, i).objects == d.objects
    ensures var s, s1 := StateOf(site, d), StateOf(site, IntentWritten(site, d, i));
      && IsPending(s1.custody, i.evidenceId)
      && |IntentWritten(site, d, i).journal| == |d.journal| + 1
      && s1.custody.intents[i.evidenceId] == Row(i, IntentWritten(site, d, i).journal[|d.journal|].root)
      && exists root :: s1 == s.(custody := s.custody.(intents := s.custody.intents[i.evidenceId := Row(i, root)]))
  {
    WriteKeeps(site, d, Command(DeletionIntent(i), i.deletedAt));
    AppendAccepted(site, d, DeletionIntent(i), i.deletedAt);
    var e := MakeEvent(site, ChainOf(site, d), DeletionIntent(i), i.deletedAt);
    assert FoldState(d.journal + [e]) == StateStep(StateOf(site, d), e);
    AllowedIsDeletable(StateOf(site, d), i);
    IntentKeeps(StateOf(site, d), |d.journal|, e, i);
  }

  ghost function Unlinked(d: Disk, i: Intent): Disk {
    if i.physical then d.(objects := d.objects - {i.address}) else d
  }

  /** Crash refinement for `delete_evidence`: its remaining writes after the intent are recovery's own writes,
      and completing them yields the recovered disk, so a deletion that crashed after its intent and was
      recovered ends exactly as one that did not crash. */
  lemma DeletionCompletes(site: Site, d: Disk, i: Intent)
    requires Correct(site.scheme) && Inv(site, d) && Clean(site, d)
    requires Enabled(site, d, Command(DeletionIntent(i), i.deletedAt))
    ensures Inv(site, IntentWritten(site, d, i))
    ensures var d1 := IntentWritten(site, d, i); var d2 := Unlinked(d1, i);
      && (i.physical ==> Enabled(site, d1, UnlinkPending(i.evidenceId)) && Perform(site, d1, UnlinkPending(i.evidenceId)) == d2)
      && Enabled(site, d2, Commit(i.evidenceId))
      && Perform(site, d2, Commit(i.evidenceId)) == Recovered(site, d1)
  {
    DeletionWrites(site, d, i);
    DeletionEndsClean(site, d, i);
    CleanIsRecovered(site, Perform(site, Unlinked(IntentWritten(site, d, i), i), Commit(i.evidenceId)));
  }

  lemma DeletionWrites(site: Site, d: Disk, i: Intent)
    requires Correct(site.scheme) && Inv(site, d)
    requires Enabled(site, d, Command(DeletionIntent(i), i.deletedAt))
    ensures Inv(site, IntentWritten(site, d, i))
    ensures var d1 := IntentWritten(site, d, i); var d2 := Unlinked(d1, i);
      && (i.physical ==> Enabled(site, d1, UnlinkPending(i.evidenceId)) && Perform(site, d1, UnlinkPending(i.evidenceId)) == d2)
      && Enabled(site, d2, Commit(i.evidenceId)) && Inv(site, d2) && d2.journal == d1.journal
      && Inv(site, Perform(site, d2, Commit(i.evidenceId)))
      && Recovered(site, Perform(site, d2, Commit(i.evidenceId))) == Recovered(site, d1)
  {
    IntentPending(site, d, i);
    var d1 := IntentWritten(site, d, i);
    if i.physical { RecoveryConverges(site, d1, UnlinkPending(i.evidenceId)); }
    RecoveryConverges(site, Unlinked(d1, i), Commit(i.evidenceId));
  }

  lemma DeletionEndsClean(site: Site, d: Disk, i: Intent)
    requires Correct(site.scheme) && Inv(site, d) && Clean(site, d)
    requires Enabled(site, d, Command(DeletionIntent(i), i.deletedAt))
    requires Accepted(site, IntentWritten(site, d, i).journal)
    requires Inv(site, Unlinked(IntentWritten(site, d, i), i))
    requires Enabled(site, Unlinked(IntentWritten(site, d, i), i), Commit(i.evidenceId))
    requires Inv(site, Perform(site, Unlinked(IntentWritten(site, d, i), i), Commit(i.evidenceId)))
    ensures Clean(site, Perform(site, Unlinked(IntentWritten(site, d, i), i), Commit(i.evidenceId)))
  {
    var d1 := IntentWritten(site, d, i);
    var d2 := Unlinked(d1, i);
    CommitWriteKeeps(site, d2, i.evidenceId);
    IntentObjects(site, d, i);
    SameObjects(site, d1, Perform(site, d2, Commit(i.evidenceId)));
  }

  lemma IntentObjects(site: Site, d: Disk, i: Intent)
    requires Correct(site.scheme) && Inv(site, d) && Clean(site, d)
    requires Enabled(site, d, Command(DeletionIntent(i), i.deletedAt))
    requires Accepted(site, IntentWritten(site, d, i).journal)
    ensures forall h :: h in Unlinked(IntentWritten(site, d, i), i).objects ==> Referenced(StateOf(site, IntentWritten(site, d, i)), h)
  {
    IntentPending(site, d, i);
    var s, t := StateOf(site, d), StateOf(site, IntentWritten(site, d, i));
    var root :| t == s.(custody := s.custody.(intents := s.custody.intents[i.evidenceId := Row(i, root)]));
    DeletedObjects(s, t, i, root, d.objects);
  }

  lemma SameObjects(site: Site, d1: Disk, d3: Disk)
    requires Accepted(site, d1.journal) && Inv(site, d3) && Quiet(StateOf(site, d3).custody)
    requires forall h :: Referenced(StateOf(site, d3), h) <==> Referenced(StateOf(site, d1), h)
    requires forall h :: h in d3.objects ==> Referenced(StateOf(site, d1), h)
    ensures Clean(site, d3)
  {
  }

  /** After the intent the disk, less the unlinked object, holds only what is still referenced. */
  lemma DeletedObjects(s: State, t: State, i: Intent, root: Root, objects: map<Hash, Bytes>)
    requires DeletionAllowed(s, i) && forall h :: h in objects ==> Referenced(s, h)
    requires t == s.(custody := s.custody.(intents := s.custody.intents[i.evidenceId := Row(i, root)]))
    ensures forall h :: h in (if i.physical then objects - {i.address} else objects) ==> Referenced(t, h)
  {
    forall h | h in (if i.physical then objects - {i.address} else objects) ensures Referenced(t, h) {
      ShrinksBy(s, t, i, root, h);
    }
  }

  /** A deletion that is not physical leaves a live reference to its object behind. */
  lemma SharedStays(s: State, i: Intent)
    requires DeletionAllowed(s, i) && !i.physical
    ensures NeededByComponent(s.catalog, i.address) || exists x :: x in s.custody.evidence && x != i.evidenceId && EvidenceNeeds(s.custody, x, i.address)
  {
    var h := i.address;
    var others, components := RetainingEvidence(s.custody, h, Some(i.evidenceId)), RetainingComponents(s.catalog, h);
    assert |SortedNames(others)| > 0 || |SortedNames(components)| > 0;
    if others != {} {
      var y :| y in others;
      assert EvidenceNeeds(s.custody, y, h);
    } else {
      var y :| y in components;
      assert ComponentNeeds(s.catalog, y, h);
    }
  }

  /** Writing the intent takes away exactly one reference: the deleted evidence's own. */
  lemma ShrinksBy(s: State, t: State, i: Intent, root: Root, h: Hash)
    requires DeletionAllowed(s, i) && Referenced(s, h) && (i.physical ==> h != i.address)
    requires t == s.(custody := s.custody.(intents := s.custody.intents[i.evidenceId := Row(i, root)]))
    ensures Referenced(t, h)
  {
    assert EvidenceNeeds(s.custody, i.evidenceId, h) ==> h == i.address;
    if h == i.address { SharedStays(s, i); }
    if !NeededByComponent(s.catalog, h) {
      var x :| x in s.custody.evidence && x != i.evidenceId && EvidenceNeeds(s.custody, x, h);
      assert EvidenceNeeds(t.custody, x, h);
    }
  }
}
