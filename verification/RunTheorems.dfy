/** The promises of the service, for every run of a job. */
module RunTheorems {
  import opened Basics
  import opened Json
  import opened TextLayer
  import opened Dedupe
  import opened AuditChain
  import opened BurnIn
  import opened VerifyGate
  import opened Normalization
  import opened Whitespace
  import opened ReviewStore
  import opened Manifest
  import opened Pipeline
  import opened PipelineTheorems

  // ---------- what is approved ----------

  ghost function ApprovedTexts(s: Store): iset<string> {
    iset id | id in ApprovedIds(s) :: s.spans[id].text
  }

  /** The projected span list: sorted by page and then id, each approved span once, nothing else. */
  ghost predicate SortedProjection(s: Store, ids: seq<Uuid>) {
    && (forall id :: id in ids <==> id in s.spans && id in s.dispositions && s.dispositions[id].action == Redact)
    && (forall a, b :: 0 <= a < b < |ids| ==>
         && ids[a] in s.spans && ids[b] in s.spans
         && var x, y := s.spans[ids[a]].page, s.spans[ids[b]].page; x < y || (x == y && ids[a] < ids[b]))
    && |ApprovedSpans(s)| == |ids|
    && forall k :: 0 <= k < |ids| ==>
         ids[k] in s.spans && var span := s.spans[ids[k]];
         ApprovedSpans(s)[k] == ApprovedSpan(span.page, span.bboxes, span.text)
  }

  lemma {:induction false} OrderedIsSorted(spans: map<Uuid, SpanRow>, ids: set<Uuid>)
    requires ids <= spans.Keys
    ensures forall a, b :: 0 <= a < b < |Ordered(spans, ids)| ==>
              Ordered(spans, ids)[a] in ids && Ordered(spans, ids)[b] in ids
              && Before(spans, Ordered(spans, ids)[a], Ordered(spans, ids)[b])
    decreases |ids|
  {
    var r := Ordered(spans, ids);
    if ids != {} {
      var rest := ids - {r[0]};
      FirstExists(spans, ids);
      assert r[1..] == Ordered(spans, rest);
      OrderedIsSorted(spans, rest);
      forall a, b | 0 <= a < b < |r| ensures r[a] in ids && r[b] in ids && Before(spans, r[a], r[b]) {
        assert r[a] in r && r[b] == r[1..][b - 1] && r[b] in r[1..];
        if a > 0 { assert r[a] == r[1..][a - 1]; }
      }
    }
  }

  lemma ApprovedSpansAreSorted(s: Store)
    ensures exists ids :: SortedProjection(s, ids)
  {
    OrderedIsSorted(s.spans, ApprovedIds(s));
    assert SortedProjection(s, Ordered(s.spans, ApprovedIds(s)));
  }

  lemma ApprovedTextsAreProjected(s: Store)
    ensures SpanTexts(ApprovedSpans(s)) == ApprovedTexts(s)
  {
    var ids, projected := Ordered(s.spans, ApprovedIds(s)), ApprovedSpans(s);
    forall t | t in SpanTexts(projected) ensures t in ApprovedTexts(s) {
      var span :| span in projected && span.text == t;
      var k :| 0 <= k < |projected| && projected[k] == span;
      assert ids[k] in ids;
    }
    forall t | t in ApprovedTexts(s) ensures t in SpanTexts(projected) {
      var id :| id in ApprovedIds(s) && s.spans[id].text == t;
      assert id in ids;
      var k :| 0 <= k < |ids| && ids[k] == id;
      assert projected[k] in projected;
    }
  }

  // ---------- export safety ----------

  /**
   * The bytes are the original with exactly the approved spans burned in, and no approved text can
   * be found in them.
   */
  ghost predicate IsRedactionOf(env: Env, original: Bytes, s: Store, out: Bytes) {
    && env.renderer.rasterize(original).Some?
    && var rasters := env.renderer.rasterize(original).value;
       && PagesExist(ApprovedSpans(s), |rasters|)
       && out == env.renderer.rebuild(BurnedPages(rasters, ApprovedSpans(s)))
       && env.read(out).Some?
       && Unrecoverable(GateOf(env), env.read(out).value, ApprovedTexts(s))
  }

  /** The normal form is in no page's text layer and not in the metadata, and OCR of no page scores 85 for it. */
  ghost predicate NotIn(env: Env, doc: Reading, target: string) {
    && (forall page :: page in doc.pages ==>
          && !Contains(env.normalize(page.textLayer), target)
          && page.ocr.Some? && env.score(target, env.normalize(page.ocr.value)) < 85.0)
    && !Contains(env.normalize(doc.metadata), target)
  }

  lemma StoredIsRedaction(env: Env, original: Bytes, t: Tables, objects: map<string, Blob>)
    requires StoredIsApproved(env, original, t, objects)
    ensures t.redactedKey == Some(RedactedKey(env)) && RedactedKey(env) in objects && objects[RedactedKey(env)].PdfBlob?
    ensures IsRedactionOf(env, original, t.store, objects[RedactedKey(env)].pdf)
  {
    var result :| ApplyGave(env, original, t.store, result) && Passed(result)
        && ResultIsStored(env, t, objects, result);
    PassedOutput(env.renderer, GateOf(env), original, ApprovedSpans(t.store));
    ApprovedTextsAreProjected(t.store);
  }

  /**
   * Whenever a job is verified or exported, the object it points at is the redaction of the
   * original by the spans approved now.
   */
  lemma ExportSafety(env: Env, original: Bytes, actions: seq<Action>)
    requires PastGate(Run(env, original, actions).tables.status)
    ensures var w := Run(env, original, actions);
            && w.tables.redactedKey == Some(RedactedKey(env)) && RedactedKey(env) in w.objects
            && w.objects[RedactedKey(env)].PdfBlob?
            && IsRedactionOf(env, original, w.tables.store, w.objects[RedactedKey(env)].pdf)
            && var doc := env.read(w.objects[RedactedKey(env)].pdf).value;
               forall raw :: raw in ApprovedTexts(w.tables.store) && env.normalize(raw) != "" ==>
                   NotIn(env, doc, env.normalize(raw))
  {
    EveryRunKeepsInv(env, original, actions);
    var w := Run(env, original, actions);
    hide Run, TablesInv, StoredIsApproved, IsRedactionOf, NotIn, RedactedKey;
    StoredIsRedaction(env, original, w.tables, w.objects);
    RedactionHidesTexts(env, original, w.tables.store, w.objects[RedactedKey(env)].pdf);
  }

  lemma RedactionHidesTexts(env: Env, original: Bytes, s: Store, out: Bytes)
    requires IsRedactionOf(env, original, s, out)
    ensures env.read(out).Some?
    ensures forall raw :: raw in ApprovedTexts(s) && env.normalize(raw) != "" ==>
              NotIn(env, env.read(out).value, env.normalize(raw))
  {
    hide ApprovedTexts, Contains, BurnedPages, ApprovedSpans;
  }

  lemma ProjectedSpan(s: Store, id: Uuid)
    requires id in ApprovedIds(s)
    ensures ApprovedSpan(s.spans[id].page, s.spans[id].bboxes, s.spans[id].text) in ApprovedSpans(s)
  {
    var ids := Ordered(s.spans, ApprovedIds(s));
    assert id in ids;
    var k :| 0 <= k < |ids| && ids[k] == id;
    assert ApprovedSpans(s)[k] == ApprovedSpan(s.spans[id].page, s.spans[id].bboxes, s.spans[id].text);
  }

  /** This pixel of this page, if it exists, is black. */
  ghost predicate BlackOn(pages: seq<Image>, pageNumber: int, x: nat, y: nat) {
    && 1 <= pageNumber <= |pages|
    && var page := pages[pageNumber - 1]; x < page.width && y < page.height ==> page.pixels[y][x] == Color(0, 0, 0)
  }

  lemma RedactionHidesInk(rasters: seq<Image>, s: Store, id: Uuid, b: BBox, x: nat, y: nat)
    requires PagesExist(ApprovedSpans(s), |rasters|)
    requires id in ApprovedIds(s) && b in s.spans[id].bboxes
    requires MeetsRange(b.x0, b.x1, x) && MeetsRange(b.y0, b.y1, y)
    ensures BlackOn(BurnedPages(rasters, ApprovedSpans(s)), s.spans[id].page, x, y)
  {
    var spans, span := ApprovedSpans(s), ApprovedSpan(s.spans[id].page, s.spans[id].bboxes, s.spans[id].text);
    ProjectedSpan(s, id);
    var p := span.pageNumber - 1;
    if x < rasters[p].width && y < rasters[p].height { InkIsGone(rasters, spans, span, b, p, x, y); }
  }

  /** In the burned pages that object is rebuilt from, no pixel under a box of an approved span survives. */
  lemma ApprovedInkIsGone(env: Env, original: Bytes, actions: seq<Action>, id: Uuid, b: BBox, x: nat, y: nat)
    requires PastGate(Run(env, original, actions).tables.status)
    requires id in ApprovedIds(Run(env, original, actions).tables.store)
    requires b in Run(env, original, actions).tables.store.spans[id].bboxes
    requires MeetsRange(b.x0, b.x1, x) && MeetsRange(b.y0, b.y1, y)
    ensures var w := Run(env, original, actions);
            && env.renderer.rasterize(original).Some?
            && var pages := BurnedPages(env.renderer.rasterize(original).value, ApprovedSpans(w.tables.store));
               && RedactedKey(env) in w.objects && w.objects[RedactedKey(env)] == PdfBlob(env.renderer.rebuild(pages))
               && BlackOn(pages, w.tables.store.spans[id].page, x, y)
  {
    ExportSafety(env, original, actions);
    var s := Run(env, original, actions).tables.store;
    hide Run, BurnedPages, ApprovedSpans;
    RedactionHidesInk(env.renderer.rasterize(original).value, s, id, b, x, y);
  }

  /**
   * No page of that object shows an approved text in its text layer, except texts that are all
   * whitespace; so wherever such a text occurs, it is composed with its surroundings.
   */
  lemma ExportedTextIsGone(env: Env, original: Bytes, actions: seq<Action>, u: Unicode)
    requires PastGate(Run(env, original, actions).tables.status) && NormalizesBy(GateOf(env), u)
    ensures var w := Run(env, original, actions);
            && RedactedKey(env) in w.objects && w.objects[RedactedKey(env)].PdfBlob?
            && var doc := env.read(w.objects[RedactedKey(env)].pdf);
               && doc.Some?
               && NothingShown(GateOf(env), u, doc.value.pages, ApprovedTexts(w.tables.store))
               && forall page, before, raw, after ::
                    && page in doc.value.pages && page.textLayer == before + raw + after
                    && raw in ApprovedTexts(w.tables.store) && env.normalize(raw) != ""
                    ==> !ComposesApart(u, before, raw, after)
  {
    ExportSafety(env, original, actions);
    var w := Run(env, original, actions);
    hide Run, Unrecoverable, NormalizesBy, ApprovedTexts, ShowsText, ComposesApart;
    var doc := env.read(w.objects[RedactedKey(env)].pdf).value;
    UnrecoverableIsNotShown(GateOf(env), u, doc, ApprovedTexts(w.tables.store));
    forall page, before, raw, after |
      && page in doc.pages && page.textLayer == before + raw + after
      && raw in ApprovedTexts(w.tables.store) && env.normalize(raw) != ""
      ensures !ComposesApart(u, before, raw, after)
    {
      if ComposesApart(u, before, raw, after) { OccurrenceShows(u, before, raw, after); }
    }
  }

  // ---------- review gate ----------

  lemma ReviewGate(env: Env, original: Bytes, actions: seq<Action>)
    requires Reviewed(Run(env, original, actions).tables.status)
    ensures var s := Run(env, original, actions).tables.store;
            forall id :: id in s.spans <==> id in s.dispositions
  {
    EveryRunKeepsInv(env, original, actions);
  }

  // ---------- the log ----------

  ghost function Occurrences(log: seq<AuditEntry>, a: AuditAction): nat {
    if log == [] then 0 else Occurrences(log[..|log| - 1], a) + if log[|log| - 1].action == a then 1 else 0
  }

  lemma {:induction false} ReviewLogHasNone(log: seq<AuditEntry>, a: AuditAction)
    requires AllReview(log) && !IsReviewVerb(a)
    ensures Occurrences(log, a) == 0
  {
    if log != [] { ReviewLogHasNone(log[..|log| - 1], a); }
  }

  ghost function Count(tail: seq<AuditAction>, a: AuditAction): nat {
    if tail == [] then 0 else Count(tail[..|tail| - 1], a) + if tail[|tail| - 1] == a then 1 else 0
  }

  lemma {:induction false} TailDecides(log: seq<AuditEntry>, tail: seq<AuditAction>, a: AuditAction)
    requires EndsWith(log, tail) && !IsReviewVerb(a)
    ensures Occurrences(log, a) == Count(tail, a)
  {
    if tail == [] { ReviewLogHasNone(log, a); } else { TailDecides(log[..|log| - 1], tail[..|tail| - 1], a); }
  }

  lemma TailCounts(tail: seq<AuditAction>, a: AuditAction)
    requires tail in {[], FAILED_TAIL, PASSED_TAIL, EXPORTED_TAIL} && !IsReviewVerb(a)
    ensures Count(tail, a) <= 1
    ensures a == AuditAction.Exported ==> (Count(tail, a) == 1 <==> tail == EXPORTED_TAIL)
  {
    assert EXPORTED_TAIL[..2] == PASSED_TAIL && PASSED_TAIL[..1] == [ApplyStarted]
      && FAILED_TAIL[..1] == [ApplyStarted];
    assert Count([], a) == 0;
    assert Count([ApplyStarted], a) == if a == ApplyStarted then 1 else 0 by { assert [ApplyStarted][..0] == []; }
  }

  /** The log's shape in every reachable state. */
  lemma AuditGrammar(env: Env, original: Bytes, actions: seq<Action>)
    ensures var t := Run(env, original, actions).tables;
            && t.status != Detected
            && FitsGrammar(t.store.log)
            && LogFitsStatus(t.status, t.store.log)
  {
    EveryRunKeepsInv(env, original, actions);
  }

  /** Review entries and then one of the four tails; the longest in exported jobs only. */
  lemma TailOf(status: JobStatus, log: seq<AuditEntry>) returns (tail: seq<AuditAction>)
    requires LogFitsStatus(status, log)
    ensures tail in {[], FAILED_TAIL, PASSED_TAIL, EXPORTED_TAIL} && EndsWith(log, tail)
    ensures tail == EXPORTED_TAIL <==> status == JobStatus.Exported
  {
    assert AllReview(log) ==> EndsWith(log, []);
    hide EndsWith, AllReview;
    tail := match status
      case Verified => PASSED_TAIL
      case Exported => EXPORTED_TAIL
      case Failed =>
        if EndsWith(log, FAILED_TAIL) then FAILED_TAIL else if EndsWith(log, PASSED_TAIL) then PASSED_TAIL else []
      case _ => [];
    assert log == [] ==> EndsWith(log, []) by { EmptyLogEndsInNothing(log); }
  }

  lemma EmptyLogEndsInNothing(log: seq<AuditEntry>)
    ensures log == [] ==> EndsWith(log, [])
  {
  }

  /** Each job-level action is logged at most once, and EXPORTED exactly in exported jobs. */
  lemma LifecycleOnce(env: Env, original: Bytes, actions: seq<Action>, a: AuditAction)
    requires !IsReviewVerb(a)
    ensures Occurrences(Run(env, original, actions).tables.store.log, a) <= 1
    ensures Occurrences(Run(env, original, actions).tables.store.log, AuditAction.Exported) == 1
            <==> Run(env, original, actions).tables.status == JobStatus.Exported
  {
    hide Run, Occurrences, Count, EndsWith, LogFitsStatus;
    AuditGrammar(env, original, actions);
    var t := Run(env, original, actions).tables;
    var tail := TailOf(t.status, t.store.log);
    TailDecides(t.store.log, tail, a);
    TailDecides(t.store.log, tail, AuditAction.Exported);
    TailCounts(tail, a);
    TailCounts(tail, AuditAction.Exported);
  }

  /**
   * Replaying the log gives the disposition table, and each decision's latest entry digests the
   * span's present text.
   */
  lemma LogTellsTheStore(env: Env, original: Bytes, actions: seq<Action>)
    ensures var s := Run(env, original, actions).tables.store;
            && GoodLog(LedgerOf(env), s.log)
            && LogRefinesStore(LedgerOf(env), s)
            && (forall e :: e in s.log ==> e.jobId == env.jobId && e.organizationId == env.organizationId)
  {
    EveryRunKeepsInv(env, original, actions);
  }

  // ---------- the export bundle ----------

  /** What the gate says of these bytes, looking for the texts approved now. */
  ghost predicate GateSaid(env: Env, s: Store, redacted: Bytes, v: VerifyResult) {
    VerifyGate.Verified(GateOf(env), redacted, DistinctTexts(ApprovedSpans(s))) == Some(v)
  }

  lemma ApplyAskedTheGate(env: Env, original: Bytes, s: Store, result: ApplyResult)
    requires ApplyGave(env, original, s, result)
    ensures GateSaid(env, s, result.pdf, result.verify)
  {
    hide Burned, VerifyGate.Verified, ApprovedSpans, DistinctTexts;
  }

  /** Each listed disposition and event says what its entry recorded. */
  ghost predicate EntriesAreTold(log: seq<AuditEntry>, m: ExportManifest) {
    && |m.dispositions| + |m.lifecycleEvents| == |log|
    && (forall k :: 0 <= k < |m.dispositions| ==> TellsDecision(m.dispositions[k], log[k]))
    && (forall k :: 0 <= k < |m.lifecycleEvents| ==> TellsEvent(m.lifecycleEvents[k], log[|m.dispositions| + k]))
  }

  lemma ListsTell(log: seq<AuditEntry>, m: ExportManifest)
    requires |m.dispositions| <= |log| && AllReview(log[..|m.dispositions|])
    requires m.dispositions == DispositionList(log[..|m.dispositions|])
    requires m.lifecycleEvents == LifecycleList(log[|m.dispositions|..])
    ensures EntriesAreTold(log, m)
  {
    var n := |m.dispositions|;
    forall k | 0 <= k < n ensures TellsDecision(m.dispositions[k], log[k]) {
      assert m.dispositions[k] == ToDisposition(log[..n][k]);
    }
    forall k | 0 <= k < |m.lifecycleEvents| ensures TellsEvent(m.lifecycleEvents[k], log[n + k]) {
      assert m.lifecycleEvents[k] == ToLifecycle(log[n..][k]);
    }
  }

  /** The three checks, passed, over this many pages. */
  function AllPassed(pages: nat): seq<CheckSummary> {
    [CheckSummary(TextLayerCheck, true, pages), CheckSummary(OcrCheck, true, pages),
     CheckSummary(MetadataCheck, true, pages)]
  }

  lemma PassedChecks(env: Env, s: Store, redacted: Bytes, v: VerifyResult)
    requires GateSaid(env, s, redacted, v) && v.verdict == Pass
    ensures env.read(redacted).Some? && v.checks == AllPassed(|env.read(redacted).value.pages|)
  {
    VerdictIsEveryCheck(GateOf(env), redacted, DistinctTexts(ApprovedSpans(s)));
    hide VerifyGate.Verified, DistinctTexts, ApprovedSpans, TextClean, OcrClean, MetadataClean;
    assert env.read(redacted).Some? by { ReadBeforeVerdict(GateOf(env), redacted, DistinctTexts(ApprovedSpans(s))); }
  }

  lemma ReadBeforeVerdict(g: Gate, pdf: Bytes, strings: seq<string>)
    requires VerifyGate.Verified(g, pdf, strings).Some?
    ensures g.read(pdf).Some?
  {
  }

  /**
   * The manifest lists the whole log: review entries, then job-level entries, each in order, and
   * the verdict that passed.
   */
  ghost predicate ManifestTells(env: Env, original: Bytes, t: Tables, redacted: Bytes, generatedAt: string,
                                m: ExportManifest) {
    && m.jobId == env.jobId && m.documentId == env.documentId
    && m.originalSha256 == env.sha256(original) && m.redactedSha256 == env.sha256(redacted)
    && m.entryCount == |m.dispositions| + |m.lifecycleEvents| == |t.store.log|
    && AllReview(t.store.log[..|m.dispositions|])
    && m.dispositions == DispositionList(t.store.log[..|m.dispositions|])
    && m.lifecycleEvents == LifecycleList(t.store.log[|m.dispositions|..])
    && EntriesAreTold(t.store.log, m)
    && (exists v: VerifyResult ::
          GateSaid(env, t.store, redacted, v) && v.verdict == Pass && m.verifySummary == VerdictJson(v))
    && env.read(redacted).Some?
    && TellsVerdict(m.verifySummary, Pass, AllPassed(|env.read(redacted).value.pages|))
    && m.generatedAt == generatedAt
    && m.auditChainVerified && ChainVerifies(env.hash, t.store.log) && m.auditChainHead == Head(t.store.log)
  }

  lemma LifecycleOneMore(init: seq<AuditEntry>, last: AuditEntry, n: nat)
    requires n <= |init|
    ensures LifecycleList((init + [last])[n..]) == LifecycleList(init[n..]) + [ToLifecycle(last)]
    ensures (init + [last])[..n] == init[..n]
  {
    assert (init + [last])[n..] == init[n..] + [last];
  }

  /** The log splits into review entries and n later ones, and decodes to this verdict. */
  ghost predicate SplitsAt(log: seq<AuditEntry>, n: nat, summary: Json) {
    && n <= |log| && AllReview(log[..n])
    && SplitOf(log) == Some(Split(DispositionList(log[..n]), LifecycleList(log[n..]), summary))
  }

  lemma SplitsOneMore(init: seq<AuditEntry>, last: AuditEntry, n: nat, summary: Json)
    requires SplitsAt(init, n, summary) && last.spanId.None?
    ensures !IsVerifyAction(last.action) ==> SplitsAt(init + [last], n, summary)
    ensures IsVerifyAction(last.action) && LoadJson(last.category).Some? ==>
              SplitsAt(init + [last], n, LoadJson(last.category).value)
  {
    var s := SplitOf(init).value;
    hide SplitOf, LoadJson, LifecycleList;
    LifecycleOneMore(init, last, n);
    SplitOneMore(init, last, s);
  }

  lemma SplitsNowhere(review: seq<AuditEntry>)
    requires AllReview(review)
    ensures SplitsAt(review, |review|, JObj([]))
  {
    SplitOfReview(review);
    assert review[..|review|] == review && LifecycleList(review[|review|..]) == [];
  }

  lemma SplitOfBegun(log: seq<AuditEntry>)
    requires EndsWith(log, [ApplyStarted])
    ensures log != [] && SplitsAt(log, |log| - 1, JObj([]))
  {
    var review, last := log[..|log| - 1], log[|log| - 1];
    assert [ApplyStarted][..0] == [];
    assert EndsWith(review, []);
    SplitsNowhere(review);
    hide EndsWith, SplitsAt;
    SplitsOneMore(review, last, |review|, JObj([]));
    assert review + [last] == log;
  }

  lemma PassedInit(log: seq<AuditEntry>)
    requires EndsWith(log, PASSED_TAIL)
    ensures log != [] && IsJobEntry(log[|log| - 1], VerifyPassed) && EndsWith(log[..|log| - 1], [ApplyStarted])
  {
    assert PASSED_TAIL[..1] == [ApplyStarted];
  }

  lemma PassedStep(begun: seq<AuditEntry>, last: AuditEntry, v: VerifyResult)
    requires EndsWith(begun, [ApplyStarted])
    requires last.action == VerifyPassed && last.spanId.None? && last.category == VerdictCategory(v)
    ensures begun != [] && SplitsAt(begun + [last], |begun| - 1, VerdictJson(v))
  {
    hide EndsWith, SplitsAt, LoadJson, Encode, VerdictJson;
    SplitOfBegun(begun);
    LoadUndoesEncode(VerdictJson(v));
    SplitsOneMore(begun, last, |begun| - 1, JObj([]));
  }

  lemma SplitOfPassed(log: seq<AuditEntry>, v: VerifyResult)
    requires EndsWith(log, PASSED_TAIL) && log != [] && log[|log| - 1].category == VerdictCategory(v)
    ensures |log| >= 2 && SplitsAt(log, |log| - 2, VerdictJson(v))
  {
    hide EndsWith, SplitsAt, VerdictCategory, VerdictJson;
    PassedInit(log);
    var begun, last := log[..|log| - 1], log[|log| - 1];
    PassedStep(begun, last, v);
    assert begun + [last] == log;
  }

  lemma {:induction false} SplitOfExported(log: seq<AuditEntry>, v: VerifyResult)
    requires EndsWith(log, EXPORTED_TAIL) && |log| >= 2 && log[|log| - 2].category == VerdictCategory(v)
    ensures |log| >= 3 && SplitsAt(log, |log| - 3, VerdictJson(v))
  {
    assert EXPORTED_TAIL[..2] == PASSED_TAIL;
    var init, last := log[..|log| - 1], log[|log| - 1];
    assert EndsWith(init, PASSED_TAIL);
    hide EndsWith, SplitsAt;
    SplitOfPassed(init, v);
    SplitsOneMore(init, last, |init| - 2, VerdictJson(v));
    assert init + [last] == log;
  }

  /**
   * In a reachable state an export request is answered exactly when the job is verified or
   * exported: no other guard can then refuse it. What it serves is the redaction, with a manifest
   * that tells the whole log.
   */
  lemma BundleIsFaithful(env: Env, original: Bytes, actions: seq<Action>, generatedAt: string)
    ensures var w := Run(env, original, actions);
            var b := Bundled(env, w, generatedAt);
            && (b.Some? <==> PastGate(w.tables.status))
            && (b.Some? ==> IsRedactionOf(env, original, w.tables.store, b.value.redacted)
                            && ManifestTells(env, original, w.tables, b.value.redacted, generatedAt, b.value.manifest))
  {
    EveryRunKeepsInv(env, original, actions);
    var w := Run(env, original, actions);
    if PastGate(w.tables.status) {
      BundleOfGoodWorld(env, original, w, generatedAt);
    }
  }

  lemma SplitPastGate(env: Env, t: Tables, objects: map<string, Blob>, result: ApplyResult) returns (n: nat)
    requires TablesInv(env, t) && PastGate(t.status) && ResultIsStored(env, t, objects, result)
    ensures n == |t.store.log| - (if t.status == JobStatus.Exported then 3 else 2)
    ensures SplitsAt(t.store.log, n, VerdictJson(result.verify))
  {
    hide GoodStore, VerdictJson, SplitsAt, EndsWith;
    if t.status == JobStatus.Exported {
      SplitOfExported(t.store.log, result.verify);
      n := |t.store.log| - 3;
    } else {
      SplitOfPassed(t.store.log, result.verify);
      n := |t.store.log| - 2;
    }
  }

  lemma AssembledTells(env: Env, original: Bytes, w: World, redacted: Bytes, generatedAt: string, n: nat,
                       v: VerifyResult)
    requires OriginalPdf(env, w.objects) == Some(original) && ChainVerifies(env.hash, w.tables.store.log)
    requires SplitsAt(w.tables.store.log, n, VerdictJson(v)) && v.verdict == Pass
    requires GateSaid(env, w.tables.store, redacted, v)
    ensures var m := Assembled(env, w, redacted, generatedAt);
            m.Some? && ManifestTells(env, original, w.tables, redacted, generatedAt, m.value)
  {
    hide EntriesAreTold, TellsVerdict, ChainVerifies, OriginalPdf, SplitOf, VerdictJson, GateSaid, AllReview;
    PassedChecks(env, w.tables.store, redacted, v);
    VerdictJsonTells(v);
    var m := Assembled(env, w, redacted, generatedAt).value;
    ListsTell(w.tables.store.log, m);
  }

  lemma BundleIsAssembled(env: Env, w: World, generatedAt: string)
    requires PastGate(w.tables.status) && ChainVerifies(env.hash, w.tables.store.log)
    requires w.tables.redactedKey == Some(RedactedKey(env)) && RedactedKey(env) in w.objects
    requires w.objects[RedactedKey(env)].PdfBlob?
    requires Assembled(env, w, w.objects[RedactedKey(env)].pdf, generatedAt).Some?
    ensures var pdf := w.objects[RedactedKey(env)].pdf;
            Bundled(env, w, generatedAt) == Some(Bundle(pdf, Assembled(env, w, pdf, generatedAt).value))
  {
    hide ChainVerifies, RedactedKey, Assembled;
  }

  lemma BundleOfGoodWorld(env: Env, original: Bytes, w: World, generatedAt: string)
    requires Inv(env, original, w) && PastGate(w.tables.status)
    ensures var b := Bundled(env, w, generatedAt);
            && b.Some? && IsRedactionOf(env, original, w.tables.store, b.value.redacted)
            && ManifestTells(env, original, w.tables, b.value.redacted, generatedAt, b.value.manifest)
  {
    assert ChainVerifies(env.hash, w.tables.store.log);
    assert OriginalPdf(env, w.objects) == Some(original);
    hide TablesInv, ObjectsInv, ApplyGave, IsRedactionOf, ChainVerifies, SplitsAt, ManifestTells, Assembled, Bundled,
        OriginalPdf, RedactedKey;
    StoredIsRedaction(env, original, w.tables, w.objects);
    var result :| ApplyGave(env, original, w.tables.store, result) && Passed(result)
        && ResultIsStored(env, w.tables, w.objects, result);
    var n := SplitPastGate(env, w.tables, w.objects, result);
    ApplyAskedTheGate(env, original, w.tables.store, result);
    hide GateSaid;
    AssembledTells(env, original, w, w.objects[RedactedKey(env)].pdf, generatedAt, n, result.verify);
    BundleIsAssembled(env, w, generatedAt);
  }

  // ---------- runs that go on ----------

  ghost predicate Frozen(status: JobStatus) {
    Reviewed(status) || status == Failed
  }

  /** What later steps may not touch once review is over. */
  ghost predicate SameReview(s: Store, t: Store) {
    t.pages == s.pages && t.spans == s.spans && t.dispositions == s.dispositions
  }

  predicate Terminal(status: JobStatus) {
    status == JobStatus.Exported || status == Failed
  }

  /** How far a job has come. */
  function Rank(status: JobStatus): nat {
    match status
    case Uploaded => 0
    case Ingested => 1
    case Detected => 2
    case InReview => 3
    case Applying => 4
    case Verified => 5
    case Exported => 6
    case Failed => 7
  }

  predicate BeforeReview(status: JobStatus) {
    Rank(status) <= Rank(Ingested)
  }

  ghost predicate Forward(t: Tables, u: Tables) {
    && t.store.log <= u.store.log
    && Rank(t.status) <= Rank(u.status)
    && (Frozen(t.status) ==> Frozen(u.status) && SameReview(t.store, u.store))
    && (Terminal(t.status) ==> u == t)
  }

  lemma DisposeIsForward(env: Env, w: World, subs: seq<Submission>, reviewer: Uuid)
    ensures Forward(w.tables, Dispose(env, w, subs, reviewer).tables)
  {
    if ApplyBatch(LedgerOf(env), w.tables.store, subs, reviewer).Ok? {
      BatchCounts(LedgerOf(env), w.tables.store, subs, reviewer);
    }
  }

  lemma ConcludeIsForward(env: Env, w: World, result: ApplyResult, reviewer: Uuid, started: Stamp, concluded: Stamp,
                          fault: Fault)
    requires w.tables.status == Applying
    ensures Forward(w.tables, ConcludeApply(env, w, result, reviewer, started, concluded, fault).tables)
  {
    ConcludeOutcomes(env, w, result, reviewer, started, concluded, fault);
    JudgedGrows(env, w.tables, result, reviewer, started, concluded);
    hide ConcludeApply, Judged, RedactedKey;
  }

  lemma JudgedGrows(env: Env, t: Tables, result: ApplyResult, reviewer: Uuid, started: Stamp, concluded: Stamp)
    ensures var u := Judged(env, t, result, reviewer, started, concluded);
            t.store.log <= u.store.log && SameReview(t.store, u.store) && u.status == t.status
  {
  }

  lemma RunApplyIsForward(env: Env, w: World, requester: Option<Uuid>, started: Stamp, concluded: Stamp, fault: Fault)
    ensures Forward(w.tables, RunApply(env, w, requester, started, concluded, fault).tables)
  {
    if w.tables.status == Applying && requester.Some? && OriginalPdf(env, w.objects).Some? {
      var result := Applied(env.renderer, GateOf(env), OriginalPdf(env, w.objects).value,
                            ApprovedSpans(w.tables.store));
      if result.Some? { ConcludeIsForward(env, w, result.value, requester.value, started, concluded, fault); }
    }
  }

  lemma FailIsForward(w: World)
    ensures Forward(w.tables, FailJob(w).tables)
  {
  }

  lemma ExportIsForward(env: Env, w: World, exporter: Uuid, stamp: Stamp, generatedAt: string, fault: Fault)
    ensures Forward(w.tables, Export(env, w, exporter, stamp, generatedAt, fault).0.tables)
  {
    ExportOutcomes(env, w, exporter, stamp, generatedAt, fault);
  }

  lemma IngestIsForward(env: Env, w: World, staged: nat, ok: bool)
    ensures Forward(w.tables, Ingest(env, w, staged, ok).tables)
  {
  }

  lemma DetectIsForward(env: Env, w: World, pages: seq<PageDetection>, newId: nat -> Uuid, ok: bool)
    ensures Forward(w.tables, Detect(env, w, pages, newId, ok).tables)
  {
  }

  lemma StartApplyIsForward(env: Env, w: World)
    ensures Forward(w.tables, StartApply(env, w).tables)
  {
  }

  lemma StepIsForward(env: Env, w: World, a: Action)
    ensures Forward(w.tables, Step(env, w, a).tables)
  {
    match a
    case DeliverIngest(staged, ok) => IngestIsForward(env, w, staged, ok);
    case DeliverDetect(pages, newId, ok) => DetectIsForward(env, w, pages, newId, ok);
    case SubmitDispositions(subs, reviewer) => DisposeIsForward(env, w, subs, reviewer);
    case RequestApply => StartApplyIsForward(env, w);
    case DeliverApply(requester, started, concluded, fault) =>
      RunApplyIsForward(env, w, requester, started, concluded, fault);
    case FailLate => FailIsForward(w);
    case RequestExport(exporter, stamp, generatedAt, fault) =>
      ExportIsForward(env, w, exporter, stamp, generatedAt, fault);
  }

  lemma ForwardTwice(t: Tables, u: Tables, v: Tables)
    ensures Forward(t, t)
    ensures Forward(t, u) && Forward(u, v) ==> Forward(t, v)
  {
  }

  /**
   * Whatever happens later, the job never goes back and its log only grows at its end; past review
   * nothing under review changes, and a terminal job's rows never change.
   */
  lemma {:induction false} RunsGoForward(env: Env, original: Bytes, actions: seq<Action>, more: seq<Action>)
    ensures Forward(Run(env, original, actions).tables, Run(env, original, actions + more).tables)
  {
    hide Forward, Step;
    var all := actions + more;
    var t := Run(env, original, actions).tables;
    if more == [] {
      assert all == actions;
      ForwardTwice(t, t, t);
    } else {
      var w, a := Run(env, original, all[..|all| - 1]), all[|all| - 1];
      assert all[..|all| - 1] == actions + more[..|more| - 1];
      RunsGoForward(env, original, actions, more[..|more| - 1]);
      StepIsForward(env, w, a);
      ForwardTwice(t, w.tables, Step(env, w, a).tables);
    }
  }

  // ---------- detection ----------

  /** How many detection deliveries of a run wrote to the tables. */
  ghost function DetectionsThatWrote(env: Env, original: Bytes, actions: seq<Action>): nat {
    if actions == [] then 0 else
    var init, a := actions[..|actions| - 1], actions[|actions| - 1];
    var w := Run(env, original, init);
    DetectionsThatWrote(env, original, init) + if a.DeliverDetect? && Step(env, w, a).tables != w.tables then 1 else 0
  }

  lemma {:induction false} DetectionWritesOnce(env: Env, original: Bytes, actions: seq<Action>)
    ensures DetectionsThatWrote(env, original, actions) <= 1
    ensures BeforeReview(Run(env, original, actions).tables.status) ==> DetectionsThatWrote(env, original, actions) == 0
  {
    if actions != [] {
      var init, a := actions[..|actions| - 1], actions[|actions| - 1];
      DetectionWritesOnce(env, original, init);
      StepIsForward(env, Run(env, original, init), a);
      if a.DeliverDetect? { DetectOutcomes(env, Run(env, original, init), a.pages, a.newId, a.ok); }
    }
  }

  /** The row of some candidate that survived deduplication on its page. */
  ghost predicate IsSurvivorRow(found: seq<PageDetection>, row: SpanRow) {
    exists d, m :: d in found && m in Deduped(d.page, d.tier1, d.tier2) && StoresCandidate(row, d, m)
  }

  /** The row has the candidate's boxes, text, category, tier and confidence, on the page it was found on. */
  ghost predicate StoresCandidate(row: SpanRow, d: PageDetection, m: CandidateSpan) {
    && row.page == d.page.pageNumber && row.bboxes == m.bboxes && row.text == m.text
    && row.category == m.category && row.sourceTier == m.sourceTier && row.confidence == Some(m.confidence)
  }

  lemma {:induction false} DetectedRowsAre(found: seq<PageDetection>, row: SpanRow)
    ensures row in DetectedRows(found) <==> IsSurvivorRow(found, row)
  {
    hide Deduped;
    if found != [] {
      var init, last := found[..|found| - 1], found[|found| - 1];
      var kept := Deduped(last.page, last.tier1, last.tier2);
      DetectedRowsAre(init, row);
      assert found == init + [last];
      if row in RowsOf(last.page.pageNumber, kept) {
        var k :| 0 <= k < |kept| && RowsOf(last.page.pageNumber, kept)[k] == row;
        assert kept[k] in kept && last in found;
      }
      if IsSurvivorRow(found, row) {
        var d, m :| d in found && m in Deduped(d.page, d.tier1, d.tier2) && StoresCandidate(row, d, m);
        if d !in init {
          var k :| 0 <= k < |kept| && kept[k] == m;
          assert RowsOf(last.page.pageNumber, kept)[k] == row;
        }
      }
    }
  }

  lemma {:induction false} InsertedExactly(newId: nat -> Uuid, rows: seq<SpanRow>)
    requires FreshIds(map[], newId, |rows|)
    ensures var spans := InsertRows(map[], newId, rows);
            && |spans| == |rows|
            && (forall k: nat :: k < |rows| ==> newId(k) in spans && spans[newId(k)] == rows[k])
            && (forall id :: id in spans ==> exists k: nat :: k < |rows| && newId(k) == id)
  {
    if rows != [] {
      var init := rows[..|rows| - 1];
      InsertedExactly(newId, init);
      assert forall k: nat :: k < |init| ==> rows[k] == init[k];
    }
  }

  /** A detection that writes stores one row for each surviving candidate and nothing else, none of them disposed of. */
  lemma DetectionStoresSurvivors(env: Env, original: Bytes, actions: seq<Action>, found: seq<PageDetection>,
                                 newId: nat -> Uuid)
    requires var w := Run(env, original, actions); Detect(env, w, found, newId, true).tables != w.tables
    ensures var s := Detect(env, Run(env, original, actions), found, newId, true).tables.store;
            && (forall row :: (exists id :: id in s.spans && s.spans[id] == row) <==> IsSurvivorRow(found, row))
            && |s.spans| == |DetectedRows(found)|
            && s.dispositions == map[] && s.log == []
  {
    EveryRunKeepsInv(env, original, actions);
    var w := Run(env, original, actions);
    var v, rows := Detect(env, w, found, newId, true), DetectedRows(found);
    assert w.tables.store == Store({}, map[], map[], []) && FreshIds(map[], newId, |rows|);
    DetectOutcomes(env, w, found, newId, true);
    hide Run, Detect, DetectedRows, InsertRows, FreshIds, IsSurvivorRow, TablesInv, ObjectsInv;
    InsertedExactly(newId, rows);
    forall row ensures (exists id :: id in v.tables.store.spans && v.tables.store.spans[id] == row)
        <==> IsSurvivorRow(found, row) {
      DetectedRowsAre(found, row);
      InsertedIsRow(newId, rows, row);
    }
  }

  lemma InsertedIsRow(newId: nat -> Uuid, rows: seq<SpanRow>, row: SpanRow)
    requires FreshIds(map[], newId, |rows|)
    ensures var spans := InsertRows(map[], newId, rows);
            (exists id :: id in spans && spans[id] == row) <==> row in rows
  {
    InsertedExactly(newId, rows);
    var spans := InsertRows(map[], newId, rows);
    hide InsertRows, FreshIds;
    if row in rows {
      var k :| 0 <= k < |rows| && rows[k] == row;
      assert spans[newId(k)] == row;
    }
  }
}
