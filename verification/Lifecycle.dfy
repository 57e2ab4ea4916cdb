/** Claim-relative lifecycle transformations, and the audit horizon of a timeline of evidence. */
module Lifecycle {
  import opened Wrappers
  import opened Canonical
  import opened FiniteTables
  import opened InformationOrder
  import opened JsonEquality
  import opened Certificates

  /** One state before and after the transformation, with the claim made of it. */
  datatype Step = Step(source: Value, transformed: Value, claim: Value)

  datatype LifecycleCertificate = LifecycleCertificate(
    claimId: string, transformationId: string, rows: seq<Row<Step>>,
    source: Quotient, decoder: seq<Reading>, twin: Option<Twin>)

  predicate StepOk(s: Step) {
    Printable(s.source) && Printable(s.transformed) && Printable(s.claim)
  }

  function SourceRows(rows: seq<Row<Step>>): seq<Row<Reading>> {
    seq(|rows|, i requires 0 <= i < |rows| => Row(rows[i].id, Reading(rows[i].data.source, rows[i].data.claim)))
  }

  function TransformedRows(rows: seq<Row<Step>>): seq<Row<Reading>> {
    seq(|rows|, i requires 0 <= i < |rows| => Row(rows[i].id, Reading(rows[i].data.transformed, rows[i].data.claim)))
  }

  /** The transformation itself, as a table from source to transformed evidence. */
  function TransformationRows(rows: seq<Row<Step>>): seq<Row<Reading>> {
    seq(|rows|, i requires 0 <= i < |rows| => Row(rows[i].id, Reading(rows[i].data.source, rows[i].data.transformed)))
  }

  ghost predicate Deterministic(rows: seq<Row<Step>>) {
    Factors(Readings(TransformationRows(rows)))
  }

  /** The evidence held at capture time supports the claim. */
  ghost predicate Supported(rows: seq<Row<Step>>) {
    Factors(Readings(SourceRows(rows)))
  }

  ghost predicate Preserved(rows: seq<Row<Step>>) {
    Factors(Readings(TransformedRows(rows)))
  }

  ghost predicate IsDecoder(rows: seq<Row<Reading>>, decoder: seq<Reading>) {
    exists groups :: IsPartition(Field(rows), groups) && decoder == DecoderTable(rows, groups)
  }

  /** What `analyze_lifecycle_transformation` demands of its input. */
  ghost predicate Analyzable(claimId: string, transformationId: string, rows: seq<Row<Step>>) {
    && IsName(claimId) && IsName(transformationId) && IsName(transformationId + ":source")
    && Normalize(rows, StepOk).Some? && Deterministic(rows) && Supported(rows)
  }

  ghost predicate IsLifecycle(rows: seq<Row<Step>>, c: LifecycleCertificate) {
    && Analyzable(c.claimId, c.transformationId, rows)
    && Normalize(rows, StepOk) == Some(c.rows)
    && c.source.claimId == c.claimId && c.source.evidenceId == c.transformationId + ":source"
    && IsQuotient(SourceRows(c.rows), c.source)
    && c.twin == TwinOf(TransformedRows(c.rows))
    && (if c.twin.None? then IsDecoder(TransformedRows(c.rows), c.decoder) else c.decoder == [])
  }

  // ----- projections keep the rows -----

  lemma SameProjections(a: seq<Row<Step>>, b: seq<Row<Step>>)
    requires SameRows(a, b)
    ensures SameRows(SourceRows(a), SourceRows(b))
    ensures SameRows(TransformedRows(a), TransformedRows(b))
    ensures SameRows(TransformationRows(a), TransformationRows(b))
  {
    SameProjectionsOneWay(a, b);
    SameRowsSymmetric(a, b);
    SameProjectionsOneWay(b, a);
  }

  lemma SameRowsSymmetric<D>(a: seq<Row<D>>, b: seq<Row<D>>)
    requires SameRows(a, b)
    ensures SameRows(b, a)
  {
  }

  lemma SameProjectionsOneWay(a: seq<Row<Step>>, b: seq<Row<Step>>)
    requires SameRows(a, b)
    ensures forall i :: 0 <= i < |a| ==> HasRow(SourceRows(b), a[i].id, SourceRows(a)[i].data)
    ensures forall i :: 0 <= i < |a| ==> HasRow(TransformedRows(b), a[i].id, TransformedRows(a)[i].data)
    ensures forall i :: 0 <= i < |a| ==> HasRow(TransformationRows(b), a[i].id, TransformationRows(a)[i].data)
  {
    forall i | 0 <= i < |a|
      ensures HasRow(SourceRows(b), a[i].id, SourceRows(a)[i].data)
      ensures HasRow(TransformedRows(b), a[i].id, TransformedRows(a)[i].data)
      ensures HasRow(TransformationRows(b), a[i].id, TransformationRows(a)[i].data) {
      assert HasRow(b, a[i].id, a[i].data);
      var k :| 0 <= k < |b| && b[k].id == a[i].id && b[k].data == a[i].data;
      assert SourceRows(b)[k].id == a[i].id && TransformedRows(b)[k].id == a[i].id && TransformationRows(b)[k].id == a[i].id;
    }
  }

  lemma FactorsOfSame(a: seq<Row<Reading>>, b: seq<Row<Reading>>)
    requires SameRows(a, b)
    ensures Factors(Readings(a)) <==> Factors(Readings(b))
  {
    SameRowsSymmetric(a, b);
    if Factors(Readings(a)) { FactorsSameRows(a, b); }
    if Factors(Readings(b)) { FactorsSameRows(b, a); }
  }

  lemma AcceptableProjections(rows: seq<Row<Step>>)
    requires Acceptable(rows, StepOk)
    ensures Acceptable(SourceRows(rows), ReadingOk)
    ensures Acceptable(TransformedRows(rows), ReadingOk)
    ensures Acceptable(TransformationRows(rows), ReadingOk)
  {
  }

  /** A normalized table stays normalized when columns are dropped. */
  lemma SourceNormal(t: seq<Row<Step>>)
    requires Normalize(t, StepOk) == Some(t)
    ensures Normalize(SourceRows(t), ReadingOk).Some?
  {
    AcceptableProjections(t);
    CollectDistinct(t);
    CollectDistinct(SourceRows(t));
  }

  // ----- the analysis -----

  /** `analyze_lifecycle_transformation` */
  method AnalyzeLifecycle(claimId: string, transformationId: string, rows: seq<Row<Step>>) returns (r: Option<LifecycleCertificate>)
    ensures r.Some? <==> Analyzable(claimId, transformationId, rows)
    ensures r.Some? ==> r.value.claimId == claimId && r.value.transformationId == transformationId && IsLifecycle(rows, r.value)
  {
    var table := Normalize(rows, StepOk);
    if table.None? {
      return None;
    }
    TableFacts(rows);
    var split := FirstTwin(Readings(TransformationRows(table.value)));
    if split.Some? {
      return None;
    }
    var source := AnalyzeAuditability(claimId, transformationId + ":source", SourceRows(table.value));
    if source.None? {
      return None;
    }
    QuotientMeaning(SourceRows(table.value), source.value);
    if source.value.twin.Some? || !IsName(transformationId) {
      return None;
    }
    var transformed := TransformedRows(table.value);
    var twin := FirstTwin(Readings(transformed));
    var decoder: seq<Reading> := [];
    if twin.None? {
      var groups := Partition(Field(transformed));
      decoder := BuildDecoder(transformed, groups);
    }
    r := Some(LifecycleCertificate(claimId, transformationId, table.value, source.value, decoder,
                                   if twin.None? then None else Some(TwinAt(transformed, twin.value))));
  }

  lemma TableFacts(rows: seq<Row<Step>>)
    requires Normalize(rows, StepOk).Some?
    ensures var t := Normalize(rows, StepOk).value;
      && SameRows(rows, t) && Acceptable(t, StepOk) && Normalize(SourceRows(t), ReadingOk).Some?
      && (TwinFrom(KeysOf(Readings(TransformationRows(t))), 0).None? <==> Deterministic(rows))
      && (TwinFrom(KeysOf(Readings(TransformedRows(t))), 0).None? <==> Preserved(rows))
      && (Supported(t) <==> Supported(rows))
  {
    var t := Normalize(rows, StepOk).value;
    NormalizedRows(rows, StepOk);
    NormalizeIdempotent(rows, StepOk);
    SourceNormal(t);
    AcceptableProjections(t);
    AcceptableReadings(TransformationRows(t));
    AcceptableReadings(TransformedRows(t));
    TwinDecides(Readings(TransformationRows(t)));
    TwinDecides(Readings(TransformedRows(t)));
    SameProjections(rows, t);
    FactorsOfSame(SourceRows(rows), SourceRows(t));
    FactorsOfSame(TransformedRows(rows), TransformedRows(t));
    FactorsOfSame(TransformationRows(rows), TransformationRows(t));
  }

  /** Decoder descent: the status is PRESERVED exactly when some decoder of the transformed evidence
      gives every supplied row its claim, and then the induced table is such a decoder; otherwise the
      twin names two supplied states the transformation merged. */
  lemma Descent(rows: seq<Row<Step>>, c: LifecycleCertificate)
    requires IsLifecycle(rows, c)
    ensures c.twin.None? <==> exists d :: Decodes(d, Readings(TransformedRows(rows)))
    ensures c.twin.None? ==> TableDecodes(c.decoder, Readings(TransformedRows(rows))) && TableSorted(c.decoder)
    ensures c.twin.Some? ==> TwinIn(TransformedRows(rows), c.twin.value)
  {
    TableFacts(rows);
    SameProjections(rows, c.rows);
    AcceptableProjections(c.rows);
    AcceptableReadings(TransformedRows(c.rows));
    FactorsIffDecodes(Readings(TransformedRows(rows)));
    if c.twin.None? {
      TwinDecides(Readings(TransformedRows(c.rows)));
      var groups :| IsPartition(Field(TransformedRows(c.rows)), groups) && c.decoder == DecoderTable(TransformedRows(c.rows), groups);
      InducedDecoder(TransformedRows(c.rows), groups);
      AnsweredSameRows(c.decoder, TransformedRows(rows), TransformedRows(c.rows));
    } else {
      TwinInRows(TransformedRows(rows), TransformedRows(c.rows));
    }
  }

  /** A claim that survives the transformation was supported before it: losing evidence never helps. */
  lemma DescentNeedsSupport(rows: seq<Row<Step>>)
    requires Deterministic(rows) && Preserved(rows)
    ensures Supported(rows)
  {
    var s, t, f := Readings(SourceRows(rows)), Readings(TransformedRows(rows)), Readings(TransformationRows(rows));
    forall i, j | 0 <= i < |s| && 0 <= j < |s| && Same(s[i].value, s[j].value) ensures Same(s[i].claim, s[j].claim) {
      assert Same(f[i].value, f[j].value);
      assert Same(t[i].value, t[j].value);
      assert Same(t[i].claim, t[j].claim);
    }
  }

  /** Rows supplied in another order give the same certificate. */
  lemma LifecycleInvariant(rows: seq<Row<Step>>, rows': seq<Row<Step>>, c: LifecycleCertificate, c': LifecycleCertificate)
    requires multiset(rows) == multiset(rows') && IsLifecycle(rows, c) && IsLifecycle(rows', c')
    requires c.claimId == c'.claimId && c.transformationId == c'.transformationId
    ensures c == c'
  {
    NormalizeIgnoresOrder(rows, rows', StepOk);
    assert c.rows == c'.rows;
    QuotientInvariant(SourceRows(c.rows), SourceRows(c.rows), c.source, c'.source);
    if c.twin.None? {
      var transformed := TransformedRows(c.rows);
      var g :| IsPartition(Field(transformed), g) && c.decoder == DecoderTable(transformed, g);
      var h :| IsPartition(Field(transformed), h) && c'.decoder == DecoderTable(transformed, h);
      PartitionUnique(Field(transformed), g, h);
    }
  }

  predicate StepsAlike(eq: (Json, Json) -> bool, a: seq<Row<Step>>, b: seq<Row<Step>>) {
    |a| == |b| && forall i :: 0 <= i < |a| ==>
      && a[i].id == b[i].id && eq(a[i].data.source, b[i].data.source)
      && eq(a[i].data.transformed, b[i].data.transformed) && eq(a[i].data.claim, b[i].data.claim)
  }

  /** The certificates differ at most in JSON values, and those only as far as `eq` does not see. Of the source
      certificate only a digest is compared, which sees everything. */
  predicate LifecyclesAlike(eq: (Json, Json) -> bool, a: LifecycleCertificate, b: LifecycleCertificate) {
    && a.claimId == b.claimId && a.transformationId == b.transformationId && StepsAlike(eq, a.rows, b.rows)
    && QuotientsAlike(Same, a.source, b.source) && TablesAlike(eq, a.decoder, b.decoder) && TwinsAlike(eq, a.twin, b.twin)
  }

  /** The certificate is equal in Python to the one its own rows produce. */
  ghost predicate LifecycleReproduces(c: LifecycleCertificate) {
    exists d :: IsLifecycle(c.rows, d) && LifecyclesAlike(Equal, c, d)
  }

  ghost predicate GenuineLifecycle(c: LifecycleCertificate) {
    exists rows :: IsLifecycle(rows, c)
  }

  /** `verify_lifecycle_certificate`: accepts exactly the certificates that are equal in Python to what their
      own rows produce. That is so of every genuine one, and the status of an accepted one is true. */
  method VerifyLifecycleCertificate(c: LifecycleCertificate) returns (ok: bool)
    ensures ok <==> LifecycleReproduces(c)
    ensures GenuineLifecycle(c) ==> ok
    ensures ok ==> Deterministic(c.rows) && Supported(c.rows) && (c.twin.None? <==> Preserved(c.rows))
  {
    var rebuilt := AnalyzeLifecycle(c.claimId, c.transformationId, c.rows);
    ok := rebuilt.Some? && LifecyclesAlike(Equal, c, rebuilt.value);
    forall d | IsLifecycle(c.rows, d) && LifecyclesAlike(Equal, c, d) ensures ok {
      LifecycleInvariant(c.rows, c.rows, d, rebuilt.value);
    }
    if GenuineLifecycle(c) { GenuineLifecycleReproduces(c); }
    if ok { StatusCarries(c, rebuilt.value); }
  }

  lemma GenuineLifecycleReproduces(c: LifecycleCertificate)
    requires GenuineLifecycle(c)
    ensures LifecycleReproduces(c)
  {
    var rows :| IsLifecycle(rows, c);
    Replayable(rows, c);
    EqualToItself(c.source);
    LifecycleEqualToItself(c);
  }

  lemma LifecycleEqualToItself(c: LifecycleCertificate)
    ensures LifecyclesAlike(Equal, c, c)
  {
  }

  lemma StatusCarries(c: LifecycleCertificate, d: LifecycleCertificate)
    requires IsLifecycle(c.rows, d) && LifecyclesAlike(Equal, c, d)
    ensures Deterministic(c.rows) && Supported(c.rows) && (c.twin.None? <==> Preserved(c.rows))
  {
    TableFacts(c.rows);
  }

  /** The certificate has the canonical text of one that some table produces. */
  ghost predicate GenuineLifecycleText(c: LifecycleCertificate) {
    exists rows, d :: IsLifecycle(rows, d) && LifecyclesAlike(Same, c, d)
  }

  lemma TransformedAlike(a: seq<Row<Step>>, b: seq<Row<Step>>)
    requires StepsAlike(Same, a, b)
    ensures RowsAlike(Same, SourceRows(a), SourceRows(b)) && RowsAlike(Same, TransformedRows(a), TransformedRows(b))
  {
  }

  /** Tables that print alike have certificates that print alike. */
  lemma LifecycleRespectsSame(x: LifecycleCertificate, y: LifecycleCertificate)
    requires IsLifecycle(x.rows, x) && IsLifecycle(y.rows, y)
    requires x.claimId == y.claimId && x.transformationId == y.transformationId && StepsAlike(Same, x.rows, y.rows)
    ensures LifecyclesAlike(Same, x, y)
  {
    TransformedAlike(x.rows, y.rows);
    SourcesAlike(x, y);
    TableFacts(x.rows);
    TableFacts(y.rows);
    AcceptableProjections(x.rows);
    AcceptableProjections(y.rows);
    TwinsOfAlike(TransformedRows(x.rows), TransformedRows(y.rows));
    if x.twin.None? {
      InducedAlike(TransformedRows(x.rows), TransformedRows(y.rows), x.decoder, y.decoder);
    }
  }

  lemma SourcesAlike(x: LifecycleCertificate, y: LifecycleCertificate)
    requires IsQuotient(SourceRows(x.rows), x.source) && IsQuotient(SourceRows(y.rows), y.source)
    requires x.source.claimId == y.source.claimId && x.source.evidenceId == y.source.evidenceId
    requires RowsAlike(Same, SourceRows(x.rows), SourceRows(y.rows))
    requires Normalize(x.rows, StepOk) == Some(x.rows) && Normalize(y.rows, StepOk) == Some(y.rows)
    ensures QuotientsAlike(Same, x.source, y.source)
  {
    ProjectedNormal(x.rows);
    ProjectedNormal(y.rows);
    QuotientRespectsSame(x.source, y.source);
  }

  /** Dropping columns of a normalized table leaves it in order. */
  lemma ProjectedNormal(t: seq<Row<Step>>)
    requires Normalize(t, StepOk) == Some(t)
    ensures Normalize(SourceRows(t), ReadingOk) == Some(SourceRows(t))
  {
    SourceNormal(t);
    NormalizedRows(t, StepOk);
    NormalizedRows(SourceRows(t), ReadingOk);
    SortedRowsEqual(SourceRows(t), Normalize(SourceRows(t), ReadingOk).value);
  }

  lemma InducedAlike(a: seq<Row<Reading>>, b: seq<Row<Reading>>, da: seq<Reading>, db: seq<Reading>)
    requires RowsAlike(Same, a, b) && Acceptable(a, ReadingOk) && Acceptable(b, ReadingOk)
    requires IsDecoder(a, da) && IsDecoder(b, db)
    ensures TablesAlike(Same, da, db)
  {
    var g :| IsPartition(Field(a), g) && da == DecoderTable(a, g);
    var h :| IsPartition(Field(b), h) && db == DecoderTable(b, h);
    EvidenceAlike(a, b, g, h);
  }

  /** An accepted certificate has the text of a genuine one exactly when its values have the texts of the
      recomputed ones. */
  lemma AcceptedLifecycleExactly(c: LifecycleCertificate, d: LifecycleCertificate)
    requires IsLifecycle(c.rows, d) && LifecyclesAlike(Equal, c, d)
    ensures GenuineLifecycleText(c) <==> LifecyclesAlike(Same, c, d)
  {
    if rows, g :| IsLifecycle(rows, g) && LifecyclesAlike(Same, c, g) {
      AlreadyNormal(c.rows, d.rows, StepOk);
      Replayable(rows, g);
      LifecycleRespectsSame(d, g);
      SameLifecycle(c, d, g);
    }
  }

  lemma SameLifecycle(c: LifecycleCertificate, d: LifecycleCertificate, g: LifecycleCertificate)
    requires LifecyclesAlike(Same, c, g) && LifecyclesAlike(Same, d, g)
    ensures LifecyclesAlike(Same, c, d)
  {
    SameAsBoth(c.source, d.source, g.source);
  }

  /** Accepted although no table produces it: the decoder answers 1 where the claim is `True`. */
  lemma LifecycleNumberForBoolean(g: LifecycleCertificate)
    requires g.rows == [Row("a", Step(Null, Null, Bool(true)))] && IsLifecycle(g.rows, g)
    ensures var c := g.(decoder := [Reading(Null, Int(1))]); LifecycleReproduces(c) && !GenuineLifecycleText(c)
  {
    var c := g.(decoder := [Reading(Null, Int(1))]);
    SingleStep(g);
    assert LifecyclesAlike(Equal, c, g);
    AcceptedLifecycleExactly(c, g);
    assert !ReadingsAlike(Same, c.decoder[0], g.decoder[0]);
  }

  lemma SingleStep(g: LifecycleCertificate)
    requires |g.rows| == 1 && IsLifecycle(g.rows, g)
    ensures g.twin.None? && g.decoder == [Reading(g.rows[0].data.transformed, g.rows[0].data.claim)]
  {
    var rows := TransformedRows(g.rows);
    SingleTwin(KeysOf(Readings(rows)));
    var groups :| IsPartition(Field(rows), groups) && g.decoder == DecoderTable(rows, groups);
    SingleFiber(Texts(Field(rows)), FibersOf(groups));
    TableEntries(rows, groups);
  }

  lemma Replayable(rows: seq<Row<Step>>, c: LifecycleCertificate)
    requires IsLifecycle(rows, c)
    ensures IsLifecycle(c.rows, c)
  {
    NormalizeIdempotent(rows, StepOk);
    TableFacts(rows);
    SameProjections(rows, c.rows);
    FactorsOfSame(TransformationRows(rows), TransformationRows(c.rows));
  }

  // ----- the audit horizon -----

  /** The evidence channel available at one time. */
  datatype Point = Point(time: string, evidenceId: string, rows: seq<Row<Reading>>)

  datatype Horizon = Horizon(sufficient: seq<bool>, prefixClosed: bool, last: Option<nat>)

  ghost predicate Sufficient(p: Point) {
    Factors(Readings(p.rows))
  }

  ghost predicate ValidPoint(p: Point) {
    IsName(p.evidenceId) && Normalize(p.rows, ReadingOk).Some?
  }

  /** Once insufficient, insufficient ever after. */
  ghost predicate PrefixClosed(timeline: seq<Point>) {
    forall i, j :: 0 <= i < j < |timeline| && Sufficient(timeline[j]) ==> Sufficient(timeline[i])
  }

  ghost predicate IsLast(timeline: seq<Point>, last: Option<nat>, n: nat)
    requires n <= |timeline|
  {
    && (last.Some? ==> last.value < n && Sufficient(timeline[last.value]))
    && (forall i :: 0 <= i < n && Sufficient(timeline[i]) ==> last.Some? && i <= last.value)
  }

  ghost predicate ClosedSoFar(sufficient: seq<bool>) {
    forall i, j :: 0 <= i < j < |sufficient| && sufficient[j] ==> sufficient[i]
  }

  lemma ClosedStep(sufficient: seq<bool>, ok: bool)
    ensures ClosedSoFar(sufficient + [ok]) <==> ClosedSoFar(sufficient) && (ok ==> forall i :: 0 <= i < |sufficient| ==> sufficient[i])
  {
    var longer := sufficient + [ok];
    if ClosedSoFar(longer) {
      forall i, j | 0 <= i < j < |sufficient| && sufficient[j] ensures sufficient[i] {
        assert longer[j] && longer[i] == sufficient[i];
      }
      if ok {
        forall i | 0 <= i < |sufficient| ensures sufficient[i] {
          assert longer[|sufficient|] && longer[i] == sufficient[i];
        }
      }
    }
  }

  ghost predicate Valid(claimId: string, timeline: seq<Point>, n: nat)
    requires n <= |timeline|
  {
    (n > 0 ==> IsName(claimId)) && forall i :: 0 <= i < n ==> ValidPoint(timeline[i])
  }

  /** What has been recorded after the first `n` points. */
  ghost predicate Tallied(timeline: seq<Point>, n: nat, seenHard: bool, h: Horizon) {
    && n == |h.sufficient| <= |timeline|
    && (forall i :: 0 <= i < n ==> (h.sufficient[i] <==> Sufficient(timeline[i])))
    && (seenHard <==> exists i :: 0 <= i < n && !h.sufficient[i])
    && (h.prefixClosed <==> ClosedSoFar(h.sufficient))
    && IsLast(timeline, h.last, n)
  }

  lemma TallyStep(timeline: seq<Point>, n: nat, seenHard: bool, h: Horizon, ok: bool)
    requires Tallied(timeline, n, seenHard, h) && n < |timeline| && (ok <==> Sufficient(timeline[n]))
    ensures Tallied(timeline, n + 1, seenHard || !ok,
                    Horizon(h.sufficient + [ok], h.prefixClosed && !(seenHard && ok), if ok then Some(n) else h.last))
  {
    ClosedStep(h.sufficient, ok);
    var longer := h.sufficient + [ok];
    assert longer[n] == ok && forall i :: 0 <= i < n ==> longer[i] == h.sufficient[i];
  }

  /** Which points of the timeline suffice; refused when some point is malformed. */
  method Sufficiency(claimId: string, timeline: seq<Point>) returns (r: Option<Horizon>)
    ensures r.Some? <==> Valid(claimId, timeline, |timeline|)
    ensures r.Some? ==> exists hard :: Tallied(timeline, |timeline|, hard, r.value)
  {
    var h := Horizon([], true, None);
    var seenHard := false;
    for n := 0 to |timeline|
      invariant Valid(claimId, timeline, n)
      invariant Tallied(timeline, n, seenHard, h)
    {
      var point := CheckPoint(claimId, timeline[n]);
      if point.None? {
        return None;
      }
      var ok := point.value;
      TallyStep(timeline, n, seenHard, h, ok);
      h := Horizon(h.sufficient + [ok], h.prefixClosed && !(seenHard && ok), if ok then Some(n) else h.last);
      seenHard := seenHard || !ok;
    }
    r := Some(h);
  }

  method CheckPoint(claimId: string, p: Point) returns (ok: Option<bool>)
    ensures ok.Some? <==> IsName(claimId) && ValidPoint(p)
    ensures ok.Some? ==> (ok.value <==> Sufficient(p))
  {
    var certificate := AnalyzeAuditability(claimId, p.evidenceId, p.rows);
    if certificate.None? {
      return None;
    }
    QuotientMeaning(p.rows, certificate.value);
    ok := Some(certificate.value.twin.None?);
  }

  /** `semantic_audit_horizon` */
  method SemanticAuditHorizon(claimId: string, timeline: seq<Point>, noNewEvidence: bool) returns (r: Option<Horizon>)
    ensures r.None? <==>
              || timeline == [] || !IsName(claimId) || (exists i :: 0 <= i < |timeline| && !ValidPoint(timeline[i]))
              || (noNewEvidence && !PrefixClosed(timeline))
    ensures r.Some? ==>
              && |r.value.sufficient| == |timeline|
              && (forall i :: 0 <= i < |timeline| ==> (r.value.sufficient[i] <==> Sufficient(timeline[i])))
              && (r.value.prefixClosed <==> PrefixClosed(timeline))
              && IsLast(timeline, r.value.last, |timeline|)
  {
    if timeline == [] {
      return None;
    }
    r := Sufficiency(claimId, timeline);
    if r.Some? && noNewEvidence && !r.value.prefixClosed {
      r := None;
    }
  }

  /** The later channel shows each world only a function of what the earlier one showed. */
  ghost predicate Derived(later: Point, earlier: Point, f: Json -> Json) {
    forall i :: 0 <= i < |earlier.rows| ==> Processed(later.rows, earlier.rows[i], f)
  }

  ghost predicate Processed(rows: seq<Row<Reading>>, before: Row<Reading>, f: Json -> Json) {
    exists j :: 0 <= j < |rows| && rows[j].id == before.id && Same(rows[j].data.claim, before.data.claim)
      && Normal(rows[j].data.value) == f(Normal(before.data.value))
  }

  ghost predicate Degraded(later: Point, earlier: Point) {
    exists f :: Derived(later, earlier, f)
  }

  ghost predicate NoNewEvidence(timeline: seq<Point>) {
    forall n, m :: 0 <= m < |timeline| && n == m + 1 && n < |timeline| ==> Degraded(timeline[n], timeline[m])
  }

  lemma DegradedInsufficient(later: Point, earlier: Point)
    requires Degraded(later, earlier) && Sufficient(later)
    ensures Sufficient(earlier)
  {
    var f :| Derived(later, earlier, f);
    var before, after := Readings(earlier.rows), Readings(later.rows);
    forall i, j | 0 <= i < |before| && 0 <= j < |before| && Same(before[i].value, before[j].value)
      ensures Same(before[i].claim, before[j].claim) {
      var k := ProcessedRow(later.rows, earlier.rows[i], f);
      var l := ProcessedRow(later.rows, earlier.rows[j], f);
      assert Same(after[k].value, after[l].value);
    }
  }

  lemma ProcessedRow(rows: seq<Row<Reading>>, before: Row<Reading>, f: Json -> Json) returns (k: nat)
    requires Processed(rows, before, f)
    ensures k < |rows| && Same(Readings(rows)[k].claim, before.data.claim)
    ensures Normal(Readings(rows)[k].value) == f(Normal(before.data.value))
  {
    k :| 0 <= k < |rows| && rows[k].id == before.id && Same(rows[k].data.claim, before.data.claim)
      && Normal(rows[k].data.value) == f(Normal(before.data.value));
  }

  /** When every channel is computed from the one before it, a lost claim is never regained; so the
      horizon is prefix-closed and the analysis does not refuse the timeline. */
  lemma HorizonIsPrefixClosed(timeline: seq<Point>)
    requires NoNewEvidence(timeline)
    ensures PrefixClosed(timeline)
  {
    forall i, j | 0 <= i < j < |timeline| && Sufficient(timeline[j]) ensures Sufficient(timeline[i]) {
      SufficientEarlier(timeline, i, j);
    }
  }

  lemma {:induction false} SufficientEarlier(timeline: seq<Point>, i: nat, j: nat)
    requires NoNewEvidence(timeline) && i <= j < |timeline| && Sufficient(timeline[j])
    ensures Sufficient(timeline[i])
    decreases j
  {
    if i < j {
      assert Degraded(timeline[j], timeline[j - 1]);
      DegradedInsufficient(timeline[j], timeline[j - 1]);
      SufficientEarlier(timeline, i, j - 1);
    }
  }

  /** For such a timeline the reported last index says everything: exactly the points up to it suffice. */
  lemma HorizonIsAnIndex(timeline: seq<Point>, last: Option<nat>)
    requires NoNewEvidence(timeline) && IsLast(timeline, last, |timeline|)
    ensures forall i :: 0 <= i < |timeline| ==> (Sufficient(timeline[i]) <==> last.Some? && i <= last.value)
  {
    HorizonIsPrefixClosed(timeline);
  }
}
