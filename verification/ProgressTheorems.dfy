/**
 * The way through: with no fault on the way a job can always go on, so the guards of the pipeline
 * do not block one another.
 */
module ProgressTheorems {
  import opened Basics
  import opened AuditChain
  import opened BurnIn
  import opened VerifyGate
  import opened ReviewStore
  import opened Pipeline
  import opened PipelineTheorems
  import opened RunTheorems

  lemma RunOneMore(env: Env, original: Bytes, actions: seq<Action>, a: Action)
    ensures Run(env, original, actions + [a]) == Step(env, Run(env, original, actions), a)
  {
    hide Step;
    assert (actions + [a])[..|actions|] == actions;
  }

  lemma RunThreeMore(env: Env, original: Bytes, actions: seq<Action>, a: Action, b: Action, c: Action)
    ensures Run(env, original, actions + [a, b, c])
         == Step(env, Step(env, Step(env, Run(env, original, actions), a), b), c)
  {
    hide Step, Run;
    assert actions + [a] + [b] + [c] == actions + [a, b, c];
    RunOneMore(env, original, actions, a);
    RunOneMore(env, original, actions + [a], b);
    RunOneMore(env, original, actions + [a] + [b], c);
  }

  /** From upload, one good ingest and one good detection with fresh row ids bring the job to review. */
  lemma UploadReachesReview(env: Env, original: Bytes, pages: nat, found: seq<PageDetection>, newId: nat -> Uuid)
    requires FreshIds(map[], newId, |DetectedRows(found)|)
    ensures Run(env, original, [DeliverIngest(pages, true), DeliverDetect(found, newId, true)]).tables.status
         == InReview
  {
    var first, second := DeliverIngest(pages, true), DeliverDetect(found, newId, true);
    assert [] + [first] == [first] && [first] + [second] == [first, second];
    RunOneMore(env, original, [], first);
    RunOneMore(env, original, [first], second);
    var start := Created(env, original);
    assert Run(env, original, []) == start;
    assert start.tables == Tables(Uploaded, Store({}, map[], map[], []), None);
    hide Run, Created, Ingest, Detect, FreshIds, DetectedRows;
    IngestAdvances(env, start, pages);
    DetectAdvances(env, Ingest(env, start, pages, true), found, newId);
  }

  lemma DetectAdvances(env: Env, w: World, found: seq<PageDetection>, newId: nat -> Uuid)
    requires w.tables.status == Ingested && w.tables.store.spans == map[]
    requires FreshIds(map[], newId, |DetectedRows(found)|)
    ensures Detect(env, w, found, newId, true).tables.status == InReview
  {
  }

  lemma IngestAdvances(env: Env, w: World, pages: nat)
    requires w.tables.status == Uploaded
    ensures Ingest(env, w, pages, true).tables == w.tables.(status := Ingested)
  {
  }

  ghost predicate AllDisposed(s: Store) {
    forall id :: id in s.spans ==> id in s.dispositions
  }

  /**
   * What a document and the spans approved on it must satisfy: it rasterizes, the spans' pages exist,
   * no box is refused, and from the burned document no approved text can be recovered.
   */
  ghost predicate CanPass(env: Env, original: Bytes, s: Store) {
    && env.renderer.rasterize(original).Some?
    && var rasters := env.renderer.rasterize(original).value;
       && PagesExist(ApprovedSpans(s), |rasters|)
       && PagesDrawable(rasters, ApprovedSpans(s), |rasters|)
       && var out := env.renderer.rebuild(BurnedPages(rasters, ApprovedSpans(s)));
          && env.read(out).Some?
          && Unrecoverable(GateOf(env), env.read(out).value, ApprovedTexts(s))
  }

  /** Burning in and gating give a passing result exactly then. */
  lemma PassesIffCanPass(env: Env, original: Bytes, s: Store)
    ensures (exists result :: ApplyGave(env, original, s, result) && Passed(result)) <==> CanPass(env, original, s)
  {
    var spans := ApprovedSpans(s);
    match Burned(env.renderer, original, spans)
    case Err(_) =>
    case Ok(out) =>
      assert out == env.renderer.rebuild(BurnedPages(env.renderer.rasterize(original).value, spans));
      TextsToLookFor(s);
      VerdictMeaning(GateOf(env), out, DistinctTexts(spans));
      hide Unrecoverable, ApprovedSpans, ApprovedTexts, BurnedPages, TextSet, DistinctTexts;
      if CanPass(env, original, s) {
        var v := VerifyGate.Verified(GateOf(env), out, DistinctTexts(spans)).value;
        assert ApplyGave(env, original, s, ApplyResult(out, v)) && Passed(ApplyResult(out, v));
      }
  }

  lemma TextsToLookFor(s: Store)
    ensures TextSet(DistinctTexts(ApprovedSpans(s))) == ApprovedTexts(s)
  {
    ApprovedTextsAreProjected(s);
    DistinctTextsAre(ApprovedSpans(s));
    assert TextSet(DistinctTexts(ApprovedSpans(s))) == SpanTexts(ApprovedSpans(s));
  }

  /** In review a request to apply is accepted exactly when every span has a disposition. */
  lemma ApplyStartsIffReviewed(env: Env, w: World)
    requires w.tables.status == InReview
    ensures StartApply(env, w) == if AllDisposed(w.tables.store) then w.(tables := w.tables.(status := Applying)) else w
  {
  }

  /** An apply delivery without a fault ends in VERIFIED exactly when the document and the approved spans can pass. */
  lemma ApplyVerifiesIffPassed(env: Env, original: Bytes, w: World, requester: Uuid, started: Stamp, concluded: Stamp)
    requires w.tables.status == Applying && OriginalPdf(env, w.objects) == Some(original)
    ensures RunApply(env, w, Some(requester), started, concluded, NoFault).tables.status == JobStatus.Verified
            <==> CanPass(env, original, w.tables.store)
  {
    PassesIffCanPass(env, original, w.tables.store);
    hide OriginalPdf, ApprovedSpans, Applied, CanPass;
    var result := Applied(env.renderer, GateOf(env), original, ApprovedSpans(w.tables.store));
    if result.Some? {
      assert ApplyGave(env, original, w.tables.store, result.value);
      VerdictDecides(env, w, result.value, requester, started, concluded);
    }
  }

  lemma VerdictDecides(env: Env, w: World, result: ApplyResult, reviewer: Uuid, started: Stamp, concluded: Stamp)
    requires w.tables.status == Applying
    ensures ConcludeApply(env, w, result, reviewer, started, concluded, NoFault).tables.status
         == if Passed(result) then JobStatus.Verified else Failed
  {
    ConcludeOutcomes(env, w, result, reviewer, started, concluded, NoFault);
  }

  lemma ExportServes(env: Env, w: World, exporter: Uuid, stamp: Stamp, generatedAt: string)
    requires Bundled(env, w, generatedAt).Some? && w.tables.status == JobStatus.Verified
    ensures Export(env, w, exporter, stamp, generatedAt, NoFault).0.tables.status == JobStatus.Exported
    ensures Export(env, w, exporter, stamp, generatedAt, NoFault).1 == Bundled(env, w, generatedAt)
  {
    hide Bundled, Appended, ManifestKey;
  }

  /** In a reachable VERIFIED state an export without a fault is served and ends in EXPORTED. */
  lemma VerifiedIsExportable(env: Env, original: Bytes, w: World, exporter: Uuid, stamp: Stamp, generatedAt: string)
    requires Inv(env, original, w) && w.tables.status == JobStatus.Verified
    ensures Export(env, w, exporter, stamp, generatedAt, NoFault).0.tables.status == JobStatus.Exported
    ensures Export(env, w, exporter, stamp, generatedAt, NoFault).1.Some?
  {
    hide Inv, Bundled, IsRedactionOf, ManifestTells, Export;
    BundleOfGoodWorld(env, original, w, generatedAt);
    ExportServes(env, w, exporter, stamp, generatedAt);
  }

  lemma ReviewLeadsOn(env: Env, original: Bytes, w: World, requester: Uuid, s1: Stamp, s2: Stamp, exporter: Uuid,
                      s3: Stamp, generatedAt: string)
    requires Inv(env, original, w) && w.tables.status == InReview && AllDisposed(w.tables.store)
    requires CanPass(env, original, w.tables.store)
    ensures var x := StartApply(env, w);
            var y := RunApply(env, x, Some(requester), s1, s2, NoFault);
            Export(env, y, exporter, s3, generatedAt, NoFault).0.tables.status == JobStatus.Exported
  {
    var x := StartApply(env, w);
    var y := RunApply(env, x, Some(requester), s1, s2, NoFault);
    StartApplyKeeps(env, original, w);
    RunApplyKeeps(env, original, x, Some(requester), s1, s2, NoFault);
    hide TablesInv, StartApply, RunApply, Export, CanPass, AllDisposed, StoredIsApproved, OriginalPdf;
    ApplyStartsIffReviewed(env, w);
    ApplyVerifiesIffPassed(env, original, x, requester, s1, s2);
    VerifiedIsExportable(env, original, y, exporter, s3, generatedAt);
  }

  /**
   * From any reachable review in which every span has a disposition and the document can pass,
   * one request, one delivery and one export bring the job to EXPORTED.
   */
  lemma ReviewReachesExport(env: Env, original: Bytes, actions: seq<Action>, requester: Uuid, s1: Stamp, s2: Stamp,
                            exporter: Uuid, s3: Stamp, generatedAt: string)
    requires Run(env, original, actions).tables.status == InReview
    requires AllDisposed(Run(env, original, actions).tables.store)
    requires CanPass(env, original, Run(env, original, actions).tables.store)
    ensures var way := [RequestApply, DeliverApply(Some(requester), s1, s2, NoFault),
                        RequestExport(exporter, s3, generatedAt, NoFault)];
            Run(env, original, actions + way).tables.status == JobStatus.Exported
  {
    var a, b, c := RequestApply, DeliverApply(Some(requester), s1, s2, NoFault),
        RequestExport(exporter, s3, generatedAt, NoFault);
    hide Run, Inv, StartApply, RunApply, Export, CanPass, AllDisposed;
    EveryRunKeepsInv(env, original, actions);
    RunThreeMore(env, original, actions, a, b, c);
    var w := Run(env, original, actions);
    assert Step(env, w, a) == StartApply(env, w);
    ReviewLeadsOn(env, original, w, requester, s1, s2, exporter, s3, generatedAt);
  }
}
