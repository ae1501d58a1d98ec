/** What the audit log keeps of the text that was detected, over a run (`services/jobs_service.py`). */
module ReviewTheorems {
  import opened Basics
  import opened TextLayer
  import opened Dedupe
  import opened DedupeTheorems
  import opened AuditChain
  import opened BurnIn
  import opened ReviewStore
  import opened Pipeline
  import opened PipelineTheorems
  import opened RunTheorems
  import opened ProgressTheorems

  /** Upload, one ingest, one detection, one batch with a single edit. */
  function EditRun(pages: nat, found: seq<PageDetection>, newId: nat -> Uuid, edit: Item, reviewer: Uuid,
                   stamp: Stamp): seq<Action> {
    [DeliverIngest(pages, true), DeliverDetect(found, newId, true),
     SubmitDispositions([Submission(edit, 0, stamp)], reviewer)]
  }

  lemma DetectionRun(env: Env, original: Bytes, pages: nat, found: seq<PageDetection>, newId: nat -> Uuid)
    requires FreshIds(map[], newId, |DetectedRows(found)|)
    ensures var t := Run(env, original, [DeliverIngest(pages, true), DeliverDetect(found, newId, true)]).tables;
            && t.status == InReview && GoodStore(LedgerOf(env), t.store)
            && t.store.spans == InsertRows(map[], newId, DetectedRows(found)) && t.store.dispositions == map[]
  {
    var first, second := DeliverIngest(pages, true), DeliverDetect(found, newId, true);
    var w := Created(env, original);
    assert [first] + [second] == [first, second] && [] + [first] == [first];
    RunOneMore(env, original, [], first);
    RunOneMore(env, original, [first], second);
    assert Run(env, original, []) == w;
    UploadReachesReview(env, original, pages, found, newId);
    IngestAdvances(env, w, pages);
    DetectOutcomes(env, Ingest(env, w, pages, true), found, newId, true);
    EveryRunKeepsInv(env, original, [first, second]);
  }

  lemma OneEdit(env: Env, w: World, edit: Item, reviewer: Uuid, stamp: Stamp)
    requires w.tables.status == InReview && edit.EditItem? && edit.spanId in w.tables.store.spans
    ensures var after := ApplyExisting(LedgerOf(env), w.tables.store, edit, reviewer, stamp);
            && after.Ok?
            && Dispose(env, w, [Submission(edit, 0, stamp)], reviewer).tables.store == after.value.store
  {
    var sub := Submission(edit, 0, stamp);
    assert [sub][..0] == [];
    assert ApplyBatch(LedgerOf(env), w.tables.store, [], reviewer) == Ok(Outcome(w.tables.store, 0, 0, 0));
    hide ApplyExisting;
    assert ApplyOne(LedgerOf(env), w.tables.store, sub, reviewer)
      == ApplyExisting(LedgerOf(env), w.tables.store, edit, reviewer, stamp);
  }

  /**
   * The first thing done to a detected span is an edit: the digest of the detected text is in the
   * log exactly when the new text has the same one.
   */
  lemma FirstEditKeepsDigestIff(env: Env, original: Bytes, pages: nat, found: seq<PageDetection>, newId: nat -> Uuid,
                                k: nat, text: string, reviewer: Uuid, stamp: Stamp)
    requires FreshIds(map[], newId, |DetectedRows(found)|) && k < |DetectedRows(found)|
    ensures var run := EditRun(pages, found, newId, EditItem(newId(k), text, None, None), reviewer, stamp);
            var s := Run(env, original, run).tables.store;
            var was := DetectedRows(found)[k].text;
            && newId(k) in s.spans && s.spans[newId(k)].text == text
            && (DigestLogged(LedgerOf(env), s.log, newId(k), was)
                <==> env.hash(env.normalize(text)) == env.hash(env.normalize(was)))
  {
    var edit := EditItem(newId(k), text, None, None);
    var start := [DeliverIngest(pages, true), DeliverDetect(found, newId, true)];
    var submit := SubmitDispositions([Submission(edit, 0, stamp)], reviewer);
    assert start + [submit] == EditRun(pages, found, newId, edit, reviewer, stamp);
    RunOneMore(env, original, start, submit);
    DetectionRun(env, original, pages, found, newId);
    InsertedExactly(newId, DetectedRows(found));
    var w := Run(env, original, start);
    var s := w.tables.store;
    assert Step(env, w, submit) == Dispose(env, w, [Submission(edit, 0, stamp)], reviewer);
    hide Run, Dispose, DetectedRows, InsertRows, FreshIds, GoodStore, DigestLogged;
    OneEdit(env, w, edit, reviewer, stamp);
    EditKeepsOldDigestIff(LedgerOf(env), s, edit, reviewer, stamp);
  }

  const NUMBER := "123-45-6789"

  /** A page of one word, which a Tier-1 detector reported and no Tier-2 detector did. */
  function OneNumberFound(at: BBox): seq<PageDetection> {
    [PageDetection(PageModel(1, NUMBER, [WordBBox(0, 11, at)]),
                   [CandidateSpan(1, 0, 11, [at], NUMBER, "ssn", Tier1, 1.0)], [])]
  }

  lemma OneNumberIsDetected(at: BBox)
    ensures DetectedRows(OneNumberFound(at)) == [SpanRow(1, [at], NUMBER, "ssn", Tier1, Some(1.0))]
  {
    var d := OneNumberFound(at)[0];
    UnchangedIffApart(d.page, d.tier1, d.tier2);
    assert Deduped(d.page, d.tier1, d.tier2) == d.tier1 + d.tier2 == d.tier1;
    assert OneNumberFound(at)[..0] == [];
    assert DetectedRows([]) == [];
    assert RowsOf(1, d.tier1) == [SpanRow(1, [at], NUMBER, "ssn", Tier1, Some(1.0))];
  }

  /** The page is the text layer of its one word, and the candidate is what resolving its range gives. */
  lemma OneNumberIsExtracted(at: BBox)
    ensures var d := OneNumberFound(at)[0];
            && Layer([RawWord(at, NUMBER, 0, 0)], d.page.text, d.page.words)
            && d.page.words != [] && Resolved(d.page, d.tier1[0])
  {
    var d := OneNumberFound(at)[0];
    assert Placed([RawWord(at, NUMBER, 0, 0)], d.page.text, d.page.words, 0);
    assert ResolveSpanBBoxes(d.page.words[1..], 0, 11) == [];
  }

  /**
   * So a run exists after which the detected text has left no trace: the one word of a page is
   * found, and its first reviewer edits it.
   */
  lemma FirstEditLosesOldDigest(env: Env, original: Bytes, at: BBox, reviewer: Uuid, stamp: Stamp)
    requires env.hash(env.normalize(NUMBER)) != env.hash(env.normalize("redacted"))
    ensures var newId: nat -> Uuid := k => 7;
            var d := OneNumberFound(at)[0];
            var run := EditRun(1, [d], newId, EditItem(7, "redacted", None, None), reviewer, stamp);
            var s := Run(env, original, run).tables.store;
            && Layer([RawWord(at, NUMBER, 0, 0)], d.page.text, d.page.words) && Resolved(d.page, d.tier1[0])
            && DetectedRows([d]) == [SpanRow(1, [at], NUMBER, "ssn", Tier1, Some(1.0))]
            && 7 in s.spans && s.spans[7].text == "redacted"
            && !DigestLogged(LedgerOf(env), s.log, 7, NUMBER)
  {
    var newId: nat -> Uuid := k => 7;
    assert OneNumberFound(at) == [OneNumberFound(at)[0]];
    OneNumberIsDetected(at);
    OneNumberIsExtracted(at);
    hide Run, DetectedRows, DigestLogged, OneNumberFound, EditRun, Layer, Resolved;
    FirstEditKeepsDigestIff(env, original, 1, OneNumberFound(at), newId, 0, "redacted", reviewer, stamp);
  }
}
