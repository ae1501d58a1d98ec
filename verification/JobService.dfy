/**
 * The service as it runs: rows changed in place inside a session, committed or rolled back, beside
 * an object store that no rollback undoes (`services/`, `tasks/`, `api/jobs.py`). Every request and
 * task delivery is shown to move the committed world exactly as the transition system of `Pipeline` does.
 */
module JobService {
  import opened Basics
  import opened Dedupe
  import opened Tier2
  import opened AuditChain
  import opened BurnIn
  import opened VerifyGate
  import opened ReviewStore
  import opened Manifest
  import opened Pipeline

  datatype BatchResult = BatchResult(applied: nat, skipped: nat, spansCreated: nat)

  lemma {:induction false} InsertedKeys(spans: map<Uuid, SpanRow>, newId: nat -> Uuid, rows: seq<SpanRow>)
    ensures forall id :: id in InsertRows(spans, newId, rows) <==>
              id in spans || exists k: nat :: k < |rows| && newId(k) == id
  {
    if rows != [] { InsertedKeys(spans, newId, rows[..|rows| - 1]); }
  }

  lemma OneMoreFreshId(spans: map<Uuid, SpanRow>, newId: nat -> Uuid, rows: seq<SpanRow>)
    requires FreshIds(spans, newId, |rows|)
    ensures FreshIds(spans, newId, |rows| + 1) <==> newId(|rows|) !in InsertRows(spans, newId, rows)
  {
    InsertedKeys(spans, newId, rows);
  }

  lemma FreshIdsBelow(spans: map<Uuid, SpanRow>, newId: nat -> Uuid, m: nat, n: nat)
    requires m <= n && FreshIds(spans, newId, n)
    ensures FreshIds(spans, newId, m)
  {
  }

  class JobBackend {
    const env: Env

    // The job's rows as the open session sees them.
    var status: JobStatus
    var pages: set<int>
    var spans: map<Uuid, SpanRow>
    var dispositions: map<Uuid, DispositionRow>
    var entries: seq<AuditEntry>
    var redactedKey: Option<string>

    // What the database has committed, the object store, and task failures still to be recorded.
    var committed: Tables
    var objects: map<string, Blob>
    var pendingFailures: nat

    function Current(): Tables
      reads this
    {
      Tables(status, Store(pages, spans, dispositions, entries), redactedKey)
    }

    function Committed(): World
      reads this
    {
      World(committed, objects, pendingFailures)
    }

    /** No session is open: nothing is changed that is not committed. */
    predicate Idle()
      reads this
    {
      Current() == committed
    }

    constructor (env: Env, original: Bytes)
      ensures this.env == env && Idle() && Committed() == Created(env, original)
    {
      this.env := env;
      status, pages, spans, dispositions, entries, redactedKey := Uploaded, {}, map[], map[], [], None;
      committed := Tables(Uploaded, Store({}, map[], map[], []), None);
      objects := map[OriginalKey(env) := PdfBlob(original)];
      pendingFailures := 0;
    }

    method Commit()
      modifies `committed
      ensures committed == Current()
    {
      committed := Tables(status, Store(pages, spans, dispositions, entries), redactedKey);
    }

    method Rollback()
      modifies `status, `pages, `spans, `dispositions, `entries, `redactedKey
      ensures Idle()
    {
      status, redactedKey := committed.status, committed.redactedKey;
      pages, spans := committed.store.pages, committed.store.spans;
      dispositions, entries := committed.store.dispositions, committed.store.log;
    }

    /** A task's failure: its session is rolled back, and its fail step will run in a session of its own. */
    method TaskFails()
      modifies `status, `pages, `spans, `dispositions, `entries, `redactedKey, `pendingFailures
      ensures Idle() && pendingFailures == old(pendingFailures) + 1
    {
      Rollback();
      pendingFailures := pendingFailures + 1;
    }

    // ---------- services/redaction_job_service.py ----------

    method CountUndispositionedSpans() returns (n: nat)
      ensures n == |set id | id in spans && id !in dispositions|
      ensures n > 0 <==> HasUndispositioned(Current().store)
    {
      var missing := set id | id in spans && id !in dispositions;
      assert forall id :: id in missing <==> id in spans && id !in dispositions;
      n := |missing|;
      assert n > 0 ==> exists id :: id in missing by { if n > 0 { assert missing != {}; } }
    }

    method TransitionJobStatus(to: JobStatus) returns (error: Option<TransitionError>)
      modifies `status
      ensures match Transition(old(Current()), to)
              case Ok(t) => error.None? && Current() == t
              case Err(e) => error == Some(e) && Current() == old(Current())
    {
      if to !in ValidTransitions(status) { return Some(InvalidTransition); }
      if to == Applying {
        var undispositioned := CountUndispositionedSpans();
        if undispositioned > 0 { return Some(UndispositionedSpans); }
      }
      status := to;
      error := None;
    }

    method AppendAuditEntry(event: AuditEvent, stamp: Stamp) returns (ok: bool)
      modifies `entries
      ensures ok <==> (event.spanId.Some? ==> event.text.Some?)
      ensures entries == if ok then Appended(LedgerOf(env), old(entries), event, stamp) else old(entries)
    {
      if event.spanId.Some? && event.text.None? { return false; }
      var (prevHash, sequence) := NextChainLink(entries);
      var textHash := TextHash(LedgerOf(env), event.text);
      var payload := ChainPayload(env.jobId, event.spanId, event.action, event.category, event.reviewerId, stamp.now);
      var entryHash := ComputeEntryHash(env.hash, prevHash, payload);
      entries := entries + [
        AuditEntry(stamp.id, env.jobId, event.spanId, event.reviewerId, env.organizationId, event.action,
                   event.category, textHash, entryHash, prevHash, sequence, stamp.now)];
      ok := true;
    }

    // ---------- services/jobs_service.py ----------

    method ApplyExistingSpanDisposition(item: Item, reviewer: Uuid, stamp: Stamp) returns (r: Result<bool, BatchError>)
      requires !item.AddManualSpanItem?
      modifies `spans, `dispositions, `entries
      ensures match ApplyExisting(LedgerOf(env), old(Current().store), item, reviewer, stamp)
              case Ok(effect) => r == Ok(effect.changed) && Current().store == effect.store
              case Err(e) => r == Err(e) && Current() == old(Current())
    {
      var id := item.spanId;
      if id !in spans { return Err(SpanNotFound); }
      var existing := if id in dispositions then Some(dispositions[id].action) else None;
      var needsChange := DispositionNeedsChange(existing, DesiredAction(item), item.EditItem?, spans[id].text,
                                                if item.EditItem? then Some(item.text) else None);
      if item.EditItem? && item.newBBoxes.Some? && BBoxesDiffer(spans[id].bboxes, item.newBBoxes.value) {
        needsChange := true;
      }
      if !needsChange { return Ok(false); }
      ghost var before := spans[id];
      if item.EditItem? {
        spans := spans[id := spans[id].(text := item.text)];
        if item.newBBoxes.Some? { spans := spans[id := spans[id].(bboxes := item.newBBoxes.value)]; }
      }
      assert spans[id] == EditedSpan(before, item);
      assert spans == old(spans)[id := spans[id]];
      dispositions := dispositions[id := DispositionRow(DesiredAction(item), reviewer, item.reason)];
      var _ := AppendAuditEntry(AuditEvent(AuditVerb(item), spans[id].category, Some(spans[id].text), reviewer,
                                           Some(id)), stamp);
      r := Ok(true);
    }

    method GetOrCreatePage(pageNumber: int)
      modifies `pages
      ensures pages == old(pages) + {pageNumber}
    {
      if pageNumber !in pages { pages := pages + {pageNumber}; }
    }

    method AddManualSpan(item: Item, reviewer: Uuid, newSpanId: Uuid, stamp: Stamp) returns (error: Option<BatchError>)
      requires item.AddManualSpanItem?
      modifies `pages, `spans, `dispositions, `entries
      ensures match AddManual(LedgerOf(env), old(Current().store), item, reviewer, newSpanId, stamp)
              case Ok(s) => error.None? && Current().store == s
              case Err(e) => error == Some(e)
    {
      GetOrCreatePage(item.pageNumber);
      if newSpanId in spans { return Some(DuplicateKey); }
      spans := spans[newSpanId := SpanRow(item.pageNumber, item.bboxes, item.text, item.category, Manual, None)];
      dispositions := dispositions[newSpanId := DispositionRow(Redact, reviewer, item.reason)];
      var _ := AppendAuditEntry(AuditEvent(ManualSpanAdded, item.category, Some(item.text), reviewer, Some(newSpanId)),
                                stamp);
      error := None;
    }

    method ApplyItem(sub: Submission, reviewer: Uuid) returns (r: Result<bool, BatchError>)
      modifies `pages, `spans, `dispositions, `entries
      ensures match ApplyOne(LedgerOf(env), old(Current().store), sub, reviewer)
              case Ok(effect) => r == Ok(effect.changed) && Current().store == effect.store
              case Err(e) => r == Err(e)
    {
      if sub.item.AddManualSpanItem? {
        var error := AddManualSpan(sub.item, reviewer, sub.newSpanId, sub.stamp);
        r := if error.Some? then Err(error.value) else Ok(true);
      } else {
        r := ApplyExistingSpanDisposition(sub.item, reviewer, sub.stamp);
      }
    }

    method ApplyDispositionBatch(subs: seq<Submission>, reviewer: Uuid) returns (r: Result<BatchResult, BatchError>)
      modifies `pages, `spans, `dispositions, `entries
      ensures match ApplyBatch(LedgerOf(env), old(Current().store), subs, reviewer)
              case Ok(o) => r == Ok(BatchResult(o.applied, o.skipped, o.spansCreated)) && Current().store == o.store
              case Err(e) => r == Err(e)
    {
      ghost var start := Current().store;
      var applied, skipped, spansCreated := 0, 0, 0;
      ghost var o := Outcome(start, 0, 0, 0);
      assert subs[..|subs|] == subs;
      for n := 0 to |subs|
        invariant o == Outcome(Current().store, applied, skipped, spansCreated)
        invariant ApplyBatch(LedgerOf(env), start, subs[..n], reviewer) == Ok(o)
      {
        ghost var effect := ApplyOne(LedgerOf(env), o.store, subs[n], reviewer);
        BatchStep(LedgerOf(env), start, subs, reviewer, n, o, effect);
        var changed := ApplyItem(subs[n], reviewer);
        if changed.Err? {
          ErrorSticks(LedgerOf(env), start, subs, reviewer, n + 1);
          return Err(changed.error);
        }
        if subs[n].item.AddManualSpanItem? { spansCreated := spansCreated + 1; }
        if changed.value { applied := applied + 1; } else { skipped := skipped + 1; }
        o := Tally(o, subs[n].item, effect.value);
      }
      r := Ok(BatchResult(applied, skipped, spansCreated));
    }

    // ---------- services/detection_service.py ----------

    /** Inserts a row; a repeated id raises. */
    method PersistSpan(row: SpanRow,
                       newId: nat -> Uuid, ghost start: map<Uuid, SpanRow>, ghost before: seq<SpanRow>,
                       total: nat) returns (ok: bool)
      requires total == |before| && spans == InsertRows(start, newId, before) && FreshIds(start, newId, total)
      modifies `spans
      ensures ok <==> FreshIds(start, newId, total + 1)
      ensures ok ==> spans == InsertRows(start, newId, before + [row])
    {
      PersistOneMore(start, newId, before, row);
      if newId(total) in spans { return false; }
      spans := spans[newId(total) := row];
      ok := true;
    }

    /** Inserts one page's surviving candidates. */
    method PersistCandidates(pageNumber: int, candidates: seq<CandidateSpan>, newId: nat -> Uuid,
                             ghost start: map<Uuid, SpanRow>, ghost before: seq<SpanRow>, total: nat) returns (ok: bool)
      requires total == |before| && spans == InsertRows(start, newId, before) && FreshIds(start, newId, total)
      modifies `spans
      ensures ok <==> FreshIds(start, newId, total + |candidates|)
      ensures ok ==> spans == InsertRows(start, newId, before + RowsOf(pageNumber, candidates))
    {
      ghost var done := before;
      for k := 0 to |candidates|
        invariant |done| == total + k && done == before + RowsOf(pageNumber, candidates[..k])
        invariant FreshIds(start, newId, total + k) && spans == InsertRows(start, newId, done)
      {
        var inserted := PersistSpan(RowOf(pageNumber, candidates[k]), newId, start, done, total + k);
        if !inserted {
          if FreshIds(start, newId, total + |candidates|) {
            FreshIdsBelow(start, newId, total + k + 1, total + |candidates|);
          }
          return false;
        }
        RowsOneMore(pageNumber, candidates, before, k);
        done := done + [RowOf(pageNumber, candidates[k])];
      }
      assert candidates[..|candidates|] == candidates;
      ok := true;
    }

    method RunDetection(found: seq<PageDetection>, newId: nat -> Uuid) returns (ok: bool)
      modifies `pages, `spans
      ensures ok <==> FreshIds(old(spans), newId, |DetectedRows(found)|)
      ensures ok ==> spans == InsertRows(old(spans), newId, DetectedRows(found))
      ensures ok ==> pages == old(pages) + PageNumbers(DetectedRows(found))
    {
      ghost var start := spans;
      var total := 0;
      assert found[..|found|] == found;
      for k := 0 to |found|
        invariant total == |DetectedRows(found[..k])| && FreshIds(start, newId, total)
        invariant spans == InsertRows(start, newId, DetectedRows(found[..k]))
        invariant pages == old(pages) + PageNumbers(DetectedRows(found[..k]))
      {
        assert found[..k + 1][..k] == found[..k];
        ghost var before := DetectedRows(found[..k]);
        var number := found[k].page.pageNumber;
        var candidates := DedupeTier2AgainstTier1(found[k].page, found[k].tier1, found[k].tier2);
        assert DetectedRows(found[..k + 1]) == before + RowsOf(number, candidates);
        PageNumbersOfMore(before, number, candidates);
        if candidates != [] {
          GetOrCreatePage(number);
          var inserted := PersistCandidates(number, candidates, newId, start, before, total);
          if !inserted {
            if FreshIds(start, newId, |DetectedRows(found)|) {
              DetectedRowsGrow(found, k + 1);
              FreshIdsBelow(start, newId, total + |candidates|, |DetectedRows(found)|);
            }
            return false;
          }
          total := total + |candidates|;
        } else {
          assert before + RowsOf(number, candidates) == before;
        }
      }
      ok := true;
    }

    // ---------- tasks/ ----------

    /** tasks/ingest_job.py. Artifacts of `staged` pages were uploaded before ingest ended well or badly. */
    method IngestJob(staged: nat, ok: bool)
      requires Idle()
      modifies this
      ensures Idle() && Committed() == Ingest(env, old(Committed()), staged, ok)
    {
      if status != Uploaded { return; }
      for n := 0 to staged
        invariant objects == Staged(env, old(objects), n)
        invariant Current() == old(Current()) && committed == old(committed) && pendingFailures == old(pendingFailures)
      {
        objects := objects[RasterKey(env, n + 1) := PageArtifact][TextLayerKey(env, n + 1) := PageArtifact];
      }
      if !ok { TaskFails(); return; }
      var _ := TransitionJobStatus(Ingested);
      Commit();
    }

    /** tasks/detect_job.py */
    method DetectJob(found: seq<PageDetection>, newId: nat -> Uuid, ok: bool)
      requires Idle()
      modifies this
      ensures Idle() && Committed() == Detect(env, old(Committed()), found, newId, ok)
    {
      hide InsertRows, FreshIds, PageNumbers;
      if status != Ingested { return; }
      if !ok { TaskFails(); return; }
      var inserted := RunDetection(found, newId);
      if !inserted { TaskFails(); return; }
      var _ := TransitionJobStatus(Detected);
      var _ := TransitionJobStatus(InReview);
      Commit();
    }

    /** tasks/support.py: the failure step, in a session of its own. */
    method FailJobLate()
      requires Idle()
      modifies this
      ensures Idle() && Committed() == FailJob(old(Committed()))
    {
      if pendingFailures == 0 { return; }
      pendingFailures := pendingFailures - 1;
      if Failed in ValidTransitions(status) {
        var error := TransitionJobStatus(Failed);
        if error.None? { Commit(); }
      }
    }

    method LogJobEvent(action: AuditAction, category: string, reviewer: Uuid, stamp: Stamp)
      modifies `entries
      ensures Current() == Log(env, old(Current()), JobEvent(action, category, reviewer), stamp)
    {
      var _ := AppendAuditEntry(JobEvent(action, category, reviewer), stamp);
    }

    /** The failing verdict of tasks/apply_job.py. */
    method RecordFailedVerdict(result: ApplyResult, reviewer: Uuid, concluded: Stamp, fault: Fault)
      requires status == Applying
      modifies this
      ensures Idle() && objects == old(objects)
      ensures var u := Log(env, old(Current()), JobEvent(VerifyFailed, VerdictCategory(result.verify), reviewer),
                           concluded);
              if fault == CommitFails then committed == old(committed) && pendingFailures == old(pendingFailures) + 1
              else committed == u.(status := Failed) && pendingFailures == old(pendingFailures)
    {
      LogJobEvent(VerifyFailed, VerdictCategory(result.verify), reviewer, concluded);
      var error := TransitionJobStatus(Failed);
      if error.Some? || fault == CommitFails { TaskFails(); return; }
      Commit();
    }

    /** The passing verdict of tasks/apply_job.py: the bytes go up before the rows are committed. */
    method RecordPassedVerdict(result: ApplyResult, reviewer: Uuid, concluded: Stamp, fault: Fault)
      requires status == Applying
      modifies this
      ensures Idle()
      ensures objects
           == if fault == UploadFails then old(objects) else old(objects)[RedactedKey(env) := PdfBlob(result.pdf)]
      ensures var u := Log(env, old(Current()), JobEvent(VerifyPassed, VerdictCategory(result.verify), reviewer),
                           concluded);
              if fault == UploadFails || fault == CommitFails then
                committed == old(committed) && pendingFailures == old(pendingFailures) + 1
              else
                && committed == u.(status := JobStatus.Verified, redactedKey := Some(RedactedKey(env)))
                && pendingFailures == old(pendingFailures)
    {
      LogJobEvent(VerifyPassed, VerdictCategory(result.verify), reviewer, concluded);
      hide RedactedKey, VerdictCategory, Appended;
      if fault == UploadFails { TaskFails(); return; }
      objects := objects[RedactedKey(env) := PdfBlob(result.pdf)];
      MarkVerified(fault);
    }

    method MarkVerified(fault: Fault)
      requires status == Applying
      modifies `status, `pages, `spans, `dispositions, `entries, `redactedKey, `pendingFailures, `committed
      ensures Idle()
      ensures if fault == CommitFails then
                committed == old(committed) && pendingFailures == old(pendingFailures) + 1
              else
                && committed == old(Current()).(status := JobStatus.Verified, redactedKey := Some(RedactedKey(env)))
                && pendingFailures == old(pendingFailures)
    {
      redactedKey := Some(RedactedKey(env));
      var error := TransitionJobStatus(JobStatus.Verified);
      if error.Some? || fault == CommitFails { TaskFails(); return; }
      Commit();
    }

    method Conclude(result: ApplyResult, reviewer: Uuid, ghost started: Stamp, concluded: Stamp, fault: Fault)
      requires committed.status == Applying
      requires Current() == Log(env, committed, JobEvent(ApplyStarted, JOB_LIFECYCLE_CATEGORY, reviewer), started)
      modifies this
      ensures Idle() && Committed() == ConcludeApply(env, old(Committed()), result, reviewer, started, concluded, fault)
    {
      if !Passed(result) {
        RecordFailedVerdict(result, reviewer, concluded, fault);
      } else {
        RecordPassedVerdict(result, reviewer, concluded, fault);
      }
    }

    /** tasks/apply_job.py. The requester is None when the reviewer id it was queued with is malformed. */
    method ApplyJob(requester: Option<Uuid>, started: Stamp, concluded: Stamp, fault: Fault)
      requires Idle()
      modifies this
      ensures Idle() && Committed() == RunApply(env, old(Committed()), requester, started, concluded, fault)
    {
      if status != Applying { return; }
      if requester.None? || fault == DownloadFails { TaskFails(); return; }
      var original := OriginalPdf(env, objects);
      if original.None? { TaskFails(); return; }
      var approved := ApprovedSpans(Current().store);
      LogJobEvent(ApplyStarted, JOB_LIFECYCLE_CATEGORY, requester.value, started);
      var result := Apply(env.renderer, GateOf(env), original.value, approved);
      if result.None? { TaskFails(); return; }
      Conclude(result.value, requester.value, started, concluded, fault);
    }

    // ---------- api/jobs.py ----------

    /** POST /jobs/{id}/dispositions: all of the batch or none of it. */
    method CreateDispositions(subs: seq<Submission>, reviewer: Uuid) returns (r: Option<BatchResult>)
      requires Idle()
      modifies this
      ensures Idle() && Committed() == Dispose(env, old(Committed()), subs, reviewer)
      ensures r.None? ==> Committed() == old(Committed())
      ensures r.Some? ==>
                && r.value.applied + r.value.skipped == |subs|
                && |committed.store.log| == |old(committed).store.log| + r.value.applied
    {
      if !ValidRequest(subs) || status != InReview { return None; }
      var result := ApplyDispositionBatch(subs, reviewer);
      if result.Err? { Rollback(); return None; }
      BatchCounts(LedgerOf(env), old(Current().store), subs, reviewer);
      Commit();
      r := Some(result.value);
    }

    /** POST /jobs/{id}/apply */
    method RequestApply() returns (accepted: bool)
      requires Idle()
      modifies this
      ensures Idle() && Committed() == StartApply(env, old(Committed()))
      ensures accepted <==> old(status) == InReview && !HasUndispositioned(old(Current().store))
    {
      var error := TransitionJobStatus(Applying);
      if error.Some? { return false; }
      Commit();
      accepted := true;
    }

    /**
     * Raises on a broken chain and without a redacted artifact; otherwise the chain result it is
     * given goes into the manifest.
     */
    method AssembleExportManifest(chain: ChainVerifyResult, redacted: Bytes, generatedAt: string)
      returns (m: Option<ExportManifest>)
      requires Idle()
      ensures m == if !chain.verified || redactedKey.None? then None else
                   match Assembled(env, Committed(), redacted, generatedAt)
                   case None => None
                   case Some(a) => Some(a.(entryCount := chain.entryCount, auditChainHead := chain.head))
    {
      if !chain.verified || redactedKey.None? { return None; }
      var original := OriginalPdf(env, objects);
      if original.None? { return None; }
      var split := SplitEntries(entries);
      if split.None? { return None; }
      m := Some(ExportManifest(env.jobId, env.documentId, env.sha256(original.value), env.sha256(redacted),
                               split.value.dispositions, split.value.lifecycle, split.value.summary,
                               chain.entryCount, chain.head, chain.verified, generatedAt));
    }

    /** The guards and reads of an export request. */
    method PrepareBundle(generatedAt: string) returns (b: Option<Bundle>)
      requires Idle()
      ensures b == Bundled(env, Committed(), generatedAt)
    {
      if status != JobStatus.Verified && status != JobStatus.Exported { return None; }
      if redactedKey.None? { return None; }
      var chain := VerifyAuditChain(env.hash, entries);
      if !chain.verified { return None; }
      if redactedKey.value !in objects || !objects[redactedKey.value].PdfBlob? { return None; }
      var pdf := objects[redactedKey.value].pdf;
      var manifest := AssembleExportManifest(chain, pdf, generatedAt);
      b := if manifest.None? then None else Some(Bundle(pdf, manifest.value));
    }

    /** GET /jobs/{id}/export */
    method ExportJob(exporter: Uuid, stamp: Stamp, generatedAt: string, fault: Fault) returns (b: Option<Bundle>)
      requires Idle()
      modifies this
      ensures Idle() && (Committed(), b) == Export(env, old(Committed()), exporter, stamp, generatedAt, fault)
    {
      hide Bundled, RedactedKey, ManifestKey;
      if fault == DownloadFails { return None; }
      b := PrepareBundle(generatedAt);
      if b.None? || fault == UploadFails { return None; }
      objects := objects[ManifestKey(env) := ManifestBlob(b.value.manifest)];
      if status == JobStatus.Verified {
        LogJobEvent(AuditAction.Exported, JOB_LIFECYCLE_CATEGORY, exporter, stamp);
        var error := TransitionJobStatus(JobStatus.Exported);
        if error.Some? || fault == CommitFails { Rollback(); return None; }
        Commit();
      }
    }

    /** One request or delivery, whichever it is. */
    method Handle(a: Action)
      requires Idle()
      modifies this
      ensures Idle() && Committed() == Step(env, old(Committed()), a)
    {
      match a
      case DeliverIngest(staged, ok) => IngestJob(staged, ok);
      case DeliverDetect(found, newId, ok) => DetectJob(found, newId, ok);
      case SubmitDispositions(subs, reviewer) => var _ := CreateDispositions(subs, reviewer);
      case RequestApply => var _ := RequestApply();
      case DeliverApply(requester, started, concluded, fault) => ApplyJob(requester, started, concluded, fault);
      case FailLate => FailJobLate();
      case RequestExport(exporter, stamp, generatedAt, fault) =>
        var _ := ExportJob(exporter, stamp, generatedAt, fault);
    }
  }

  /** The service over a whole run: created, then handling one action after another. */
  method Serve(env: Env, original: Bytes, actions: seq<Action>) returns (backend: JobBackend)
    ensures fresh(backend) && backend.env == env && backend.Idle()
    ensures backend.Committed() == Run(env, original, actions)
  {
    backend := new JobBackend(env, original);
    assert actions[..|actions|] == actions;
    for n := 0 to |actions|
      invariant fresh(backend) && backend.env == env && backend.Idle()
      invariant backend.Committed() == Run(env, original, actions[..n])
    {
      assert actions[..n + 1][..n] == actions[..n];
      backend.Handle(actions[n]);
    }
  }

  lemma BatchStep(l: Ledger, s: Store, subs: seq<Submission>, reviewer: Uuid, n: nat, o: Outcome,
                  effect: Result<Effect, BatchError>)
    requires n < |subs| && ApplyBatch(l, s, subs[..n], reviewer) == Ok(o)
    requires effect == ApplyOne(l, o.store, subs[n], reviewer)
    ensures ApplyBatch(l, s, subs[..n + 1], reviewer)
         == if effect.Ok? then Ok(Tally(o, subs[n].item, effect.value)) else Err(effect.error)
  {
    assert subs[..n + 1][..n] == subs[..n];
  }

  lemma {:induction false} ErrorSticks(l: Ledger, s: Store, subs: seq<Submission>, reviewer: Uuid, n: nat)
    requires n <= |subs| && ApplyBatch(l, s, subs[..n], reviewer).Err?
    ensures ApplyBatch(l, s, subs, reviewer) == ApplyBatch(l, s, subs[..n], reviewer)
    decreases |subs|
  {
    if n == |subs| {
      assert subs[..n] == subs;
    } else {
      var init := subs[..|subs| - 1];
      assert init[..n] == subs[..n];
      ErrorSticks(l, s, init, reviewer, n);
    }
  }

  lemma PersistOneMore(start: map<Uuid, SpanRow>, newId: nat -> Uuid, before: seq<SpanRow>,
                       row: SpanRow)
    requires FreshIds(start, newId, |before|)
    ensures InsertRows(start, newId, before + [row]) == InsertRows(start, newId, before)[newId(|before|) := row]
    ensures FreshIds(start, newId, |before| + 1) <==> newId(|before|) !in InsertRows(start, newId, before)
  {
    assert (before + [row])[..|before|] == before;
    OneMoreFreshId(start, newId, before);
  }

  lemma RowsOneMore(pageNumber: int, candidates: seq<CandidateSpan>, before: seq<SpanRow>, k: nat)
    requires k < |candidates|
    ensures before + RowsOf(pageNumber, candidates[..k + 1])
         == before + RowsOf(pageNumber, candidates[..k]) + [RowOf(pageNumber, candidates[k])]
  {
  }

  lemma PageNumbersOfMore(before: seq<SpanRow>, number: int, candidates: seq<CandidateSpan>)
    ensures PageNumbers(before + RowsOf(number, candidates))
         == PageNumbers(before) + if candidates == [] then {} else {number}
  {
    var rows := RowsOf(number, candidates);
    var more := before + rows;
    forall p | p in PageNumbers(before) ensures p in PageNumbers(more) {
      var k :| 0 <= k < |before| && before[k].page == p;
      assert more[k].page == p;
    }
    if candidates != [] { assert more[|before|].page == number; }
  }

  lemma {:induction false} DetectedRowsGrow(found: seq<PageDetection>, k: nat)
    requires k <= |found|
    ensures |DetectedRows(found[..k])| <= |DetectedRows(found)|
    decreases |found|
  {
    if k == |found| {
      assert found[..k] == found;
    } else {
      assert found[..|found| - 1][..k] == found[..k];
      DetectedRowsGrow(found[..|found| - 1], k);
    }
  }
}
