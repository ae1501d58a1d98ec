/** What holds in every state of every run of a job, whatever is redelivered, repeated or fails. */
module PipelineTheorems {
  import opened Basics
  import opened AuditChain
  import opened BurnIn
  import opened VerifyGate
  import opened ReviewStore
  import opened Manifest
  import opened Pipeline

  // ---------- the shape of the log ----------

  /** A job-level entry for this action; only the verify actions carry a category of their own. */
  predicate IsJobEntry(e: AuditEntry, a: AuditAction) {
    e.action == a && e.spanId.None? && (IsVerifyAction(a) || e.category == JOB_LIFECYCLE_CATEGORY)
  }

  /** Review entries, then job-level entries with exactly these actions. */
  ghost predicate EndsWith(log: seq<AuditEntry>, tail: seq<AuditAction>) {
    if tail == [] then AllReview(log)
    else
      && log != []
      && IsJobEntry(log[|log| - 1], tail[|tail| - 1])
      && EndsWith(log[..|log| - 1], tail[..|tail| - 1])
  }

  const FAILED_TAIL := [ApplyStarted, VerifyFailed]
  const PASSED_TAIL := [ApplyStarted, VerifyPassed]
  const EXPORTED_TAIL := [ApplyStarted, VerifyPassed, AuditAction.Exported]

  /** Span* (nothing | APPLY_STARTED VERIFY_FAILED | APPLY_STARTED VERIFY_PASSED EXPORTED?) */
  ghost predicate FitsGrammar(log: seq<AuditEntry>) {
    AllReview(log) || EndsWith(log, FAILED_TAIL) || EndsWith(log, PASSED_TAIL) || EndsWith(log, EXPORTED_TAIL)
  }

  /** The status fixes which of these the log is. */
  ghost predicate LogFitsStatus(status: JobStatus, log: seq<AuditEntry>) {
    match status
    case Uploaded => log == []
    case Ingested => log == []
    case Detected => false
    case InReview => AllReview(log)
    case Applying => AllReview(log)
    case Verified => EndsWith(log, PASSED_TAIL)
    case Exported => EndsWith(log, EXPORTED_TAIL)
    case Failed => AllReview(log) || EndsWith(log, FAILED_TAIL) || EndsWith(log, PASSED_TAIL)
  }

  lemma EndsWithOneMore(l: Ledger, log: seq<AuditEntry>, tail: seq<AuditAction>, a: AuditAction,
                        category: string, reviewer: Uuid, stamp: Stamp)
    requires EndsWith(log, tail) && (IsVerifyAction(a) || category == JOB_LIFECYCLE_CATEGORY)
    ensures EndsWith(Appended(l, log, JobEvent(a, category, reviewer), stamp), tail + [a])
  {
    var more := Appended(l, log, JobEvent(a, category, reviewer), stamp);
    assert more[..|more| - 1] == log && (tail + [a])[..|tail|] == tail;
  }

  // ---------- the invariant ----------

  predicate Reviewed(status: JobStatus) {
    status == Applying || status == JobStatus.Verified || status == JobStatus.Exported
  }

  predicate PastGate(status: JobStatus) {
    status == JobStatus.Verified || status == JobStatus.Exported
  }

  /**
   * The object under the job's redacted key is the gate-passing result of applying the spans
   * approved now to the original.
   */
  ghost predicate StoredIsApproved(env: Env, original: Bytes, t: Tables, objects: map<string, Blob>) {
    exists result :: ApplyGave(env, original, t.store, result) && Passed(result)
        && ResultIsStored(env, t, objects, result)
  }

  ghost predicate ApplyGave(env: Env, original: Bytes, s: Store, result: ApplyResult) {
    Applied(env.renderer, GateOf(env), original, ApprovedSpans(s)) == Some(result)
  }

  /** The job points at the result's bytes, and its VERIFY_PASSED entry carries the result's verdict. */
  ghost predicate ResultIsStored(env: Env, t: Tables, objects: map<string, Blob>, result: ApplyResult) {
    && t.redactedKey == Some(RedactedKey(env))
    && RedactedKey(env) in objects && objects[RedactedKey(env)] == PdfBlob(result.pdf)
    && var log := if t.status == JobStatus.Exported && t.store.log != [] then t.store.log[..|t.store.log| - 1]
        else t.store.log;
       log != [] && log[|log| - 1].category == VerdictCategory(result.verify)
  }

  /** What the committed tables alone satisfy. */
  ghost predicate TablesInv(env: Env, t: Tables) {
    && GoodStore(LedgerOf(env), t.store)
    && LogFitsStatus(t.status, t.store.log)
    && (t.status in {Uploaded, Ingested} ==> t.store == Store({}, map[], map[], []))
    && (Reviewed(t.status) ==> t.store.dispositions.Keys == t.store.spans.Keys)
  }

  /** What the object store holds besides. */
  ghost predicate ObjectsInv(env: Env, original: Bytes, w: World) {
    && OriginalPdf(env, w.objects) == Some(original)
    && (PastGate(w.tables.status) ==> StoredIsApproved(env, original, w.tables, w.objects))
  }

  ghost predicate Inv(env: Env, original: Bytes, w: World) {
    TablesInv(env, w.tables) && ObjectsInv(env, original, w)
  }

  lemma KeysAreDistinct(env: Env, page: nat)
    ensures RedactedKey(env) != OriginalKey(env) && ManifestKey(env) != OriginalKey(env)
    ensures ManifestKey(env) != RedactedKey(env)
    ensures RasterKey(env, page) != OriginalKey(env) && TextLayerKey(env, page) != OriginalKey(env)
  {
    assert OriginalKey(env)[0] == 'd' && RedactedKey(env)[0] == 'j' && ManifestKey(env)[0] == 'j';
    var last := (s: string) requires s != "" => s[|s| - 1];
    assert last(OriginalKey(env)) == 'f' && last(RedactedKey(env)) == 'f' && last(ManifestKey(env)) == 'n';
    assert last(RasterKey(env, page)) == 'g' && last(TextLayerKey(env, page)) == 'n';
  }

  lemma {:induction false} StagingKeepsOriginal(env: Env, objects: map<string, Blob>, n: nat)
    ensures OriginalPdf(env, Staged(env, objects, n)) == OriginalPdf(env, objects)
  {
    if n > 0 {
      StagingKeepsOriginal(env, objects, n - 1);
      KeysAreDistinct(env, n);
    }
  }

  lemma {:induction false} InsertedRows(spans: map<Uuid, SpanRow>, newId: nat -> Uuid, rows: seq<SpanRow>)
    ensures spans.Keys <= InsertRows(spans, newId, rows).Keys
    ensures forall id :: id in InsertRows(spans, newId, rows) ==>
              (id in spans && InsertRows(spans, newId, rows)[id] == spans[id])
                  || InsertRows(spans, newId, rows)[id] in rows
  {
    if rows != [] {
      InsertedRows(spans, newId, rows[..|rows| - 1]);
      assert rows == rows[..|rows| - 1] + [rows[|rows| - 1]];
    }
  }

  lemma CreatedIsGood(env: Env, original: Bytes)
    ensures Inv(env, original, Created(env, original))
  {
  }

  lemma IngestKeeps(env: Env, original: Bytes, w: World, staged: nat, ok: bool)
    requires Inv(env, original, w)
    ensures Inv(env, original, Ingest(env, w, staged, ok))
  {
    StagingKeepsOriginal(env, w.objects, staged);
  }

  /** A store with spans on known pages that nobody has disposed of yet. */
  lemma UnreviewedIsGood(l: Ledger, pages: set<int>, spans: map<Uuid, SpanRow>)
    requires forall id :: id in spans ==> spans[id].page in pages
    ensures GoodStore(l, Store(pages, spans, map[], []))
  {
  }

  lemma DetectedSpansLieOnPages(newId: nat -> Uuid, rows: seq<SpanRow>)
    ensures var spans := InsertRows(map[], newId, rows);
            forall id :: id in spans ==> spans[id].page in PageNumbers(rows)
  {
    InsertedRows(map[], newId, rows);
    forall row | row in rows ensures row.page in PageNumbers(rows) {
      var k :| 0 <= k < |rows| && rows[k] == row;
    }
  }

  lemma DetectOutcomes(env: Env, w: World, found: seq<PageDetection>, newId: nat -> Uuid, ok: bool)
    ensures var v, s, rows := Detect(env, w, found, newId, ok), w.tables.store, DetectedRows(found);
            && v.objects == w.objects
            && (v.tables == w.tables
                || (w.tables.status == Ingested && v.tables.status == InReview
                    && v.tables.store == Store(s.pages + PageNumbers(rows), InsertRows(s.spans, newId, rows),
                                               s.dispositions, s.log)))
  {
  }

  lemma DetectKeeps(env: Env, original: Bytes, w: World, found: seq<PageDetection>, newId: nat -> Uuid, ok: bool)
    requires Inv(env, original, w)
    ensures Inv(env, original, Detect(env, w, found, newId, ok))
  {
    DetectOutcomes(env, w, found, newId, ok);
    var v, rows := Detect(env, w, found, newId, ok), DetectedRows(found);
    if v.tables != w.tables {
      DetectedSpansLieOnPages(newId, rows);
      UnreviewedIsGood(LedgerOf(env), {} + PageNumbers(rows), InsertRows(map[], newId, rows));
    }
  }

  lemma {:induction false} BatchLogsReview(l: Ledger, s: Store, subs: seq<Submission>, reviewer: Uuid)
    requires AllReview(s.log) && ApplyBatch(l, s, subs, reviewer).Ok?
    ensures AllReview(ApplyBatch(l, s, subs, reviewer).value.store.log)
  {
    if subs != [] { BatchLogsReview(l, s, subs[..|subs| - 1], reviewer); }
  }

  lemma DisposeKeeps(env: Env, original: Bytes, w: World, subs: seq<Submission>, reviewer: Uuid)
    requires Inv(env, original, w)
    ensures Inv(env, original, Dispose(env, w, subs, reviewer))
  {
    if w.tables.status == InReview && ApplyBatch(LedgerOf(env), w.tables.store, subs, reviewer).Ok? {
      BatchKeepsGoodStore(LedgerOf(env), w.tables.store, subs, reviewer);
      BatchLogsReview(LedgerOf(env), w.tables.store, subs, reviewer);
    }
  }

  lemma StartApplyKeeps(env: Env, original: Bytes, w: World)
    requires Inv(env, original, w)
    ensures Inv(env, original, StartApply(env, w))
  {
    hide GoodLog, OnPages, EndsWith, StoredIsApproved, OriginalPdf;
  }

  lemma FailKeeps(env: Env, original: Bytes, w: World)
    requires Inv(env, original, w)
    ensures Inv(env, original, FailJob(w))
  {
    hide GoodStore, EndsWith, StoredIsApproved, OriginalPdf;
  }

  /** A job-level entry leaves the replayed decisions and the approved spans as they were. */
  lemma LoggingKeepsStore(env: Env, t: Tables, a: AuditAction, category: string, reviewer: Uuid, stamp: Stamp)
    requires GoodStore(LedgerOf(env), t.store)
    ensures GoodStore(LedgerOf(env), Log(env, t, JobEvent(a, category, reviewer), stamp).store)
    ensures ApprovedSpans(Log(env, t, JobEvent(a, category, reviewer), stamp).store) == ApprovedSpans(t.store)
  {
    ReplayAppended(LedgerOf(env), t.store.log, JobEvent(a, category, reviewer), stamp);
    AppendKeepsGoodLog(LedgerOf(env), t.store.log, JobEvent(a, category, reviewer), stamp);
    assert ApprovedIds(Log(env, t, JobEvent(a, category, reviewer), stamp).store) == ApprovedIds(t.store);
  }

  /** The tables with APPLY_STARTED and the verdict logged. */
  function Judged(env: Env, t: Tables, result: ApplyResult, reviewer: Uuid, started: Stamp, concluded: Stamp): Tables {
    Log(env, Log(env, t, JobEvent(ApplyStarted, JOB_LIFECYCLE_CATEGORY, reviewer), started),
        JobEvent(if Passed(result) then VerifyPassed else VerifyFailed, VerdictCategory(result.verify), reviewer),
        concluded)
  }

  /** The tables once the output has passed and is stored. */
  function Cleared(env: Env, t: Tables): Tables {
    t.(status := JobStatus.Verified, redactedKey := Some(RedactedKey(env)))
  }

  lemma JudgedStore(env: Env, t: Tables, result: ApplyResult, reviewer: Uuid, started: Stamp, concluded: Stamp)
    requires GoodStore(LedgerOf(env), t.store)
    ensures GoodStore(LedgerOf(env), Judged(env, t, result, reviewer, started, concluded).store)
    ensures ApprovedSpans(Judged(env, t, result, reviewer, started, concluded).store) == ApprovedSpans(t.store)
  {
    var begun := Log(env, t, JobEvent(ApplyStarted, JOB_LIFECYCLE_CATEGORY, reviewer), started);
    LoggingKeepsStore(env, t, ApplyStarted, JOB_LIFECYCLE_CATEGORY, reviewer, started);
    LoggingKeepsStore(env, begun, if Passed(result) then VerifyPassed else VerifyFailed,
                      VerdictCategory(result.verify), reviewer, concluded);
  }

  lemma JudgedLog(env: Env, t: Tables, result: ApplyResult, reviewer: Uuid, started: Stamp, concluded: Stamp)
    requires AllReview(t.store.log)
    ensures var log := Judged(env, t, result, reviewer, started, concluded).store.log;
            && EndsWith(log, if Passed(result) then PASSED_TAIL else FAILED_TAIL)
            && log[|log| - 1].category == VerdictCategory(result.verify)
  {
    var l, log := LedgerOf(env), t.store.log;
    var begun := Log(env, t, JobEvent(ApplyStarted, JOB_LIFECYCLE_CATEGORY, reviewer), started);
    EndsWithOneMore(l, log, [], ApplyStarted, JOB_LIFECYCLE_CATEGORY, reviewer, started);
    EndsWithOneMore(l, begun.store.log, [ApplyStarted], if Passed(result) then VerifyPassed else VerifyFailed,
                    VerdictCategory(result.verify), reviewer, concluded);
  }

  /** The three ways an apply task can leave the world once it has a result. */
  lemma ConcludeOutcomes(env: Env, w: World, result: ApplyResult, reviewer: Uuid, started: Stamp, concluded: Stamp,
                         fault: Fault)
    requires w.tables.status == Applying
    ensures var v := ConcludeApply(env, w, result, reviewer, started, concluded, fault);
            var u := Judged(env, w.tables, result, reviewer, started, concluded);
            var stored := w.objects[RedactedKey(env) := PdfBlob(result.pdf)];
            || (v.tables == w.tables && (v.objects == w.objects || v.objects == stored))
            || (!Passed(result) && v.tables == u.(status := Failed) && v.objects == w.objects)
            || (Passed(result) && v.tables == Cleared(env, u) && v.objects == stored)
  {
    hide Appended, VerdictCategory, RedactedKey, HasUndispositioned;
  }

  lemma FailedVerdictKeeps(env: Env, t: Tables, result: ApplyResult, reviewer: Uuid, started: Stamp, concluded: Stamp)
    requires TablesInv(env, t) && t.status == Applying && !Passed(result)
    ensures TablesInv(env, Judged(env, t, result, reviewer, started, concluded).(status := Failed))
  {
    JudgedStore(env, t, result, reviewer, started, concluded);
    JudgedLog(env, t, result, reviewer, started, concluded);
  }

  lemma PassedVerdictKeeps(env: Env, t: Tables, result: ApplyResult, reviewer: Uuid, started: Stamp, concluded: Stamp)
    requires TablesInv(env, t) && t.status == Applying && Passed(result)
    ensures TablesInv(env, Cleared(env, Judged(env, t, result, reviewer, started, concluded)))
  {
    JudgedStore(env, t, result, reviewer, started, concluded);
    JudgedLog(env, t, result, reviewer, started, concluded);
  }

  lemma PassedVerdictStores(env: Env, original: Bytes, t: Tables, objects: map<string, Blob>, result: ApplyResult,
                            reviewer: Uuid, started: Stamp, concluded: Stamp)
    requires TablesInv(env, t) && t.status == Applying && Passed(result) && ApplyGave(env, original, t.store, result)
    ensures StoredIsApproved(env, original, Cleared(env, Judged(env, t, result, reviewer, started, concluded)),
                             objects[RedactedKey(env) := PdfBlob(result.pdf)])
  {
    JudgedStore(env, t, result, reviewer, started, concluded);
    JudgedLog(env, t, result, reviewer, started, concluded);
    var u := Cleared(env, Judged(env, t, result, reviewer, started, concluded));
    assert ApplyGave(env, original, u.store, result);
    assert ResultIsStored(env, u, objects[RedactedKey(env) := PdfBlob(result.pdf)], result);
  }

  lemma ConcludeKeeps(env: Env, original: Bytes, w: World, result: ApplyResult, reviewer: Uuid, started: Stamp,
                      concluded: Stamp, fault: Fault)
    requires Inv(env, original, w) && w.tables.status == Applying && ApplyGave(env, original, w.tables.store, result)
    ensures Inv(env, original, ConcludeApply(env, w, result, reviewer, started, concluded, fault))
  {
    hide TablesInv, StoredIsApproved, ApplyGave, Judged, ConcludeApply, RedactedKey, OriginalKey;
    ConcludeOutcomes(env, w, result, reviewer, started, concluded, fault);
    KeysAreDistinct(env, 0);
    if Passed(result) {
      PassedVerdictKeeps(env, w.tables, result, reviewer, started, concluded);
      PassedVerdictStores(env, original, w.tables, w.objects, result, reviewer, started, concluded);
    } else {
      FailedVerdictKeeps(env, w.tables, result, reviewer, started, concluded);
    }
  }

  lemma RunApplyKeeps(env: Env, original: Bytes, w: World, requester: Option<Uuid>, started: Stamp, concluded: Stamp,
                      fault: Fault)
    requires Inv(env, original, w)
    ensures Inv(env, original, RunApply(env, w, requester, started, concluded, fault))
  {
    hide TablesInv, StoredIsApproved, ConcludeApply;
    if w.tables.status == Applying && requester.Some? {
      var result := Applied(env.renderer, GateOf(env), original, ApprovedSpans(w.tables.store));
      if result.Some? {
        assert ApplyGave(env, original, w.tables.store, result.value);
        ConcludeKeeps(env, original, w, result.value, requester.value, started, concluded, fault);
      }
    }
  }

  function Shipped(env: Env, t: Tables, exporter: Uuid, stamp: Stamp): Tables {
    Log(env, t, JobEvent(AuditAction.Exported, JOB_LIFECYCLE_CATEGORY, exporter), stamp).(status := JobStatus.Exported)
  }

  lemma ShippedKeepsTables(env: Env, t: Tables, exporter: Uuid, stamp: Stamp)
    requires TablesInv(env, t) && t.status == JobStatus.Verified
    ensures TablesInv(env, Shipped(env, t, exporter, stamp))
  {
    LoggingKeepsStore(env, t, AuditAction.Exported, JOB_LIFECYCLE_CATEGORY, exporter, stamp);
    EndsWithOneMore(LedgerOf(env), t.store.log, PASSED_TAIL, AuditAction.Exported, JOB_LIFECYCLE_CATEGORY, exporter,
                    stamp);
    assert PASSED_TAIL + [AuditAction.Exported] == EXPORTED_TAIL;
  }

  lemma ShippedKeepsResult(env: Env, original: Bytes, t: Tables, objects: map<string, Blob>, exporter: Uuid,
                           stamp: Stamp)
    requires TablesInv(env, t) && t.status == JobStatus.Verified && StoredIsApproved(env, original, t, objects)
    ensures StoredIsApproved(env, original, Shipped(env, t, exporter, stamp), objects)
  {
    var u := Shipped(env, t, exporter, stamp);
    var result :| ApplyGave(env, original, t.store, result) && Passed(result)
        && ResultIsStored(env, t, objects, result);
    LoggingKeepsStore(env, t, AuditAction.Exported, JOB_LIFECYCLE_CATEGORY, exporter, stamp);
    assert ApplyGave(env, original, u.store, result);
    assert u.store.log[..|u.store.log| - 1] == t.store.log;
    assert ResultIsStored(env, u, objects, result);
  }

  lemma ManifestKeepsResult(env: Env, original: Bytes, t: Tables, objects: map<string, Blob>, m: ExportManifest)
    requires StoredIsApproved(env, original, t, objects)
    ensures StoredIsApproved(env, original, t, objects[ManifestKey(env) := ManifestBlob(m)])
  {
    KeysAreDistinct(env, 0);
    var result :| ApplyGave(env, original, t.store, result) && Passed(result)
        && ResultIsStored(env, t, objects, result);
    assert ResultIsStored(env, t, objects[ManifestKey(env) := ManifestBlob(m)], result);
  }

  lemma ExportOutcomes(env: Env, w: World, exporter: Uuid, stamp: Stamp, generatedAt: string, fault: Fault)
    ensures var v := Export(env, w, exporter, stamp, generatedAt, fault).0;
            && (v.objects == w.objects || exists m :: v.objects == w.objects[ManifestKey(env) := ManifestBlob(m)])
            && (v.tables == w.tables || (w.tables.status == JobStatus.Verified
                && v.tables == Shipped(env, w.tables, exporter, stamp)))
            && (v != w ==> PastGate(w.tables.status))
  {
  }

  lemma ExportKeeps(env: Env, original: Bytes, w: World, exporter: Uuid, stamp: Stamp, generatedAt: string,
                    fault: Fault)
    requires Inv(env, original, w)
    ensures Inv(env, original, Export(env, w, exporter, stamp, generatedAt, fault).0)
  {
    hide TablesInv, StoredIsApproved, Shipped, Export, ManifestKey, OriginalKey;
    var v := Export(env, w, exporter, stamp, generatedAt, fault).0;
    ExportOutcomes(env, w, exporter, stamp, generatedAt, fault);
    KeysAreDistinct(env, 0);
    if v != w {
      if v.objects != w.objects {
        var m :| v.objects == w.objects[ManifestKey(env) := ManifestBlob(m)];
        ManifestKeepsResult(env, original, w.tables, w.objects, m);
      }
      if v.tables != w.tables {
        ShippedKeepsTables(env, w.tables, exporter, stamp);
        ShippedKeepsResult(env, original, w.tables, v.objects, exporter, stamp);
      }
    }
  }

  lemma StepKeepsInv(env: Env, original: Bytes, w: World, a: Action)
    requires Inv(env, original, w)
    ensures Inv(env, original, Step(env, w, a))
  {
    match a
    case DeliverIngest(staged, ok) => IngestKeeps(env, original, w, staged, ok);
    case DeliverDetect(pages, newId, ok) => DetectKeeps(env, original, w, pages, newId, ok);
    case SubmitDispositions(subs, reviewer) => DisposeKeeps(env, original, w, subs, reviewer);
    case RequestApply => StartApplyKeeps(env, original, w);
    case DeliverApply(requester, started, concluded, fault) =>
      RunApplyKeeps(env, original, w, requester, started, concluded, fault);
    case FailLate => FailKeeps(env, original, w);
    case RequestExport(exporter, stamp, generatedAt, fault) =>
      ExportKeeps(env, original, w, exporter, stamp, generatedAt, fault);
  }

  lemma {:induction false} EveryRunKeepsInv(env: Env, original: Bytes, actions: seq<Action>)
    ensures Inv(env, original, Run(env, original, actions))
  {
    if actions == [] {
      CreatedIsGood(env, original);
    } else {
      EveryRunKeepsInv(env, original, actions[..|actions| - 1]);
      StepKeepsInv(env, original, Run(env, original, actions[..|actions| - 1]), actions[|actions| - 1]);
    }
  }
}
