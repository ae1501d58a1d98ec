/** What each request, delivery and failure step does in a reachable world, case by case. */
module StepTheorems {
  import opened Basics
  import opened AuditChain
  import opened BurnIn
  import opened VerifyGate
  import opened ReviewStore
  import opened Manifest
  import opened Pipeline
  import opened PipelineTheorems
  import opened RunTheorems
  import opened ProgressTheorems

  // ---------- status ----------

  /**
   * A job moves exactly one place forward, or to FAILED from anywhere but the two ends, and to
   * APPLYING only when every span has a disposition; nothing else of it changes.
   */
  lemma TransitionIff(t: Tables, to: JobStatus)
    ensures Transition(t, to).Ok?
            <==> && (if to == Failed then t.status != Failed && t.status != JobStatus.Exported
                     else Rank(to) == Rank(t.status) + 1)
                 && (to == Applying ==> AllDisposed(t.store))
    ensures Transition(t, to).Ok? ==> Transition(t, to).value == Tables(to, t.store, t.redactedKey)
    ensures Transition(t, to).Err? ==>
              Transition(t, to).error == if t.status == InReview && to == Applying then UndispositionedSpans
                                         else InvalidTransition
  {
  }

  /** A failure step that is pending fails the job unless it is over; it is then no longer pending. */
  lemma FailEffect(w: World)
    ensures var v := FailJob(w);
            && v.objects == w.objects && v.tables.store == w.tables.store
            && v.tables.redactedKey == w.tables.redactedKey
            && v.pendingFailures == (if w.pendingFailures > 0 then w.pendingFailures - 1 else 0)
            && v.tables.status == if w.pendingFailures > 0 && w.tables.status != JobStatus.Exported then Failed
                                  else w.tables.status
  {
  }

  // ---------- ingest, detection, review ----------

  /** The key of an artifact of one of the pages 1..n. */
  ghost predicate IsPageKey(env: Env, key: string, n: nat) {
    exists page: nat :: 1 <= page <= n && (key == RasterKey(env, page) || key == TextLayerKey(env, page))
  }

  lemma {:induction false} StagedExactly(env: Env, objects: map<string, Blob>, n: nat, key: string)
    ensures key in Staged(env, objects, n) <==> key in objects || IsPageKey(env, key, n)
    ensures IsPageKey(env, key, n) ==> Staged(env, objects, n)[key] == PageArtifact
    ensures key in objects && !IsPageKey(env, key, n) ==> Staged(env, objects, n)[key] == objects[key]
  {
    hide RasterKey, TextLayerKey;
    if n > 0 {
      StagedExactly(env, objects, n - 1, key);
      assert IsPageKey(env, key, n) <==>
          IsPageKey(env, key, n - 1) || key == RasterKey(env, n) || key == TextLayerKey(env, n) by {
        if IsPageKey(env, key, n - 1) {
          var page: nat :| 1 <= page <= n - 1 && (key == RasterKey(env, page) || key == TextLayerKey(env, page));
          assert 1 <= page <= n;
        }
      }
    }
  }

  /**
   * Ingest of an uploaded job stores the artifacts of its pages and nothing else, and moves the job
   * on if it went well; otherwise the rows stay and a failure step is pending.
   */
  lemma IngestEffect(env: Env, w: World, staged: nat, ok: bool, key: string)
    ensures var v := Ingest(env, w, staged, ok);
            && (w.tables.status != Uploaded ==> v == w)
            && (w.tables.status == Uploaded ==>
                  && v.tables == Tables(if ok then Ingested else Uploaded, w.tables.store, w.tables.redactedKey)
                  && v.pendingFailures == w.pendingFailures + (if ok then 0 else 1)
                  && (key in v.objects <==> key in w.objects || IsPageKey(env, key, staged))
                  && (IsPageKey(env, key, staged) ==> v.objects[key] == PageArtifact)
                  && (key in w.objects && !IsPageKey(env, key, staged) ==> v.objects[key] == w.objects[key]))
  {
    StagedExactly(env, w.objects, staged, key);
    hide IsPageKey, Staged;
  }

  /**
   * Detection of an ingested job writes exactly when it went well and the ids it is given differ;
   * otherwise the rows stay and a failure step is pending. The pages it creates are those of its spans.
   */
  lemma DetectEffect(env: Env, original: Bytes, actions: seq<Action>, found: seq<PageDetection>, newId: nat -> Uuid,
                     ok: bool)
    ensures var w := Run(env, original, actions);
            var v := Detect(env, w, found, newId, ok);
            var distinct := forall a, b :: 0 <= a < b < |DetectedRows(found)| ==> newId(a) != newId(b);
            && v.objects == w.objects
            && (w.tables.status != Ingested ==> v == w)
            && (w.tables.status == Ingested && !(ok && distinct) ==>
                  v.tables == w.tables && v.pendingFailures == w.pendingFailures + 1)
            && (w.tables.status == Ingested && ok && distinct ==>
                  && v.tables.status == InReview && v.pendingFailures == w.pendingFailures
                  && (forall p :: p in v.tables.store.pages <==>
                        exists id :: id in v.tables.store.spans && v.tables.store.spans[id].page == p))
  {
    EveryRunKeepsInv(env, original, actions);
    var w, rows := Run(env, original, actions), DetectedRows(found);
    assert w.tables.status == Ingested ==> w.tables.store == Store({}, map[], map[], []);
    hide Run, DetectedRows, Inv, InsertRows, PageNumbers, Detect;
    if w.tables.status == Ingested {
      DetectIs(env, w, found, newId, ok);
      if FreshIds(map[], newId, |rows|) { PagesOfRows(newId, rows); }
    } else {
      IdleDetect(env, w, found, newId, ok);
    }
  }

  lemma IdleDetect(env: Env, w: World, found: seq<PageDetection>, newId: nat -> Uuid, ok: bool)
    requires w.tables.status != Ingested
    ensures Detect(env, w, found, newId, ok) == w
  {
  }

  lemma DetectIs(env: Env, w: World, found: seq<PageDetection>, newId: nat -> Uuid, ok: bool)
    requires w.tables.status == Ingested && w.tables.store == Store({}, map[], map[], [])
    ensures var rows := DetectedRows(found);
            Detect(env, w, found, newId, ok)
            == if !ok || !FreshIds(map[], newId, |rows|) then w.(pendingFailures := w.pendingFailures + 1)
               else w.(tables := Tables(InReview, Store(PageNumbers(rows), InsertRows(map[], newId, rows), map[], []),
                                        w.tables.redactedKey))
  {
    hide DetectedRows, InsertRows, FreshIds, PageNumbers, HasUndispositioned;
    assert {} + PageNumbers(DetectedRows(found)) == PageNumbers(DetectedRows(found));
  }

  lemma PagesOfRows(newId: nat -> Uuid, rows: seq<SpanRow>)
    requires FreshIds(map[], newId, |rows|)
    ensures var spans := InsertRows(map[], newId, rows);
            forall p :: p in PageNumbers(rows) <==> exists id :: id in spans && spans[id].page == p
  {
    InsertedExactly(newId, rows);
    var spans := InsertRows(map[], newId, rows);
    hide InsertRows;
    forall p ensures p in PageNumbers(rows) <==> exists id :: id in spans && spans[id].page == p {
      if k :| 0 <= k < |rows| && rows[k].page == p { assert spans[newId(k)] == rows[k]; }
    }
  }

  /** A batch is accepted exactly in review, if it is not empty, names pages from 1 on, and no item is refused. */
  lemma DisposeEffect(env: Env, w: World, subs: seq<Submission>, reviewer: Uuid)
    ensures var v, s := Dispose(env, w, subs, reviewer), w.tables.store;
            var accepted := w.tables.status == InReview && subs != [] && !SomeRefused(s, subs)
                && forall sub :: sub in subs && sub.item.AddManualSpanItem? ==> sub.item.pageNumber >= 1;
            && (!accepted ==> v == w)
            && (accepted ==>
                  && ApplyBatch(LedgerOf(env), s, subs, reviewer).Ok?
                  && v == w.(tables := Tables(InReview, ApplyBatch(LedgerOf(env), s, subs, reviewer).value.store,
                                              w.tables.redactedKey)))
  {
    BatchFailsIffRefused(LedgerOf(env), w.tables.store, subs, reviewer);
    hide ApplyBatch, SomeRefused;
    assert forall k :: 0 <= k < |subs| ==> subs[k] in subs;
  }

  // ---------- apply ----------

  /** The log with APPLY_STARTED and then this verdict, which tells the outcome and the checks. */
  ghost predicate LogsVerdict(env: Env, s: Store, t: Store, r: VerifyResult, reviewer: Uuid, started: Stamp,
                              concluded: Stamp) {
    var l, n, verb := LedgerOf(env), |s.log|, if r.verdict == Pass then VerifyPassed else VerifyFailed;
    && t.pages == s.pages && t.spans == s.spans && t.dispositions == s.dispositions
    && |t.log| == n + 2 && t.log[..n] == s.log
    && RecordsEvent(l, Head(s.log), n, AuditEvent(ApplyStarted, "job_lifecycle", None, reviewer, None), started,
                    t.log[n])
    && var e := t.log[n + 1];
       && RecordsEvent(l, t.log[n].entryHash, n + 1, AuditEvent(verb, e.category, None, reviewer, None), concluded, e)
       && LoadJson(e.category).Some? && TellsVerdict(LoadJson(e.category).value, r.verdict, r.checks)
  }

  lemma JudgedLogsVerdict(env: Env, t: Tables, result: ApplyResult, reviewer: Uuid, started: Stamp, concluded: Stamp)
    requires GoodLog(LedgerOf(env), t.store.log)
    ensures LogsVerdict(env, t.store, Judged(env, t, result, reviewer, started, concluded).store, result.verify,
                        reviewer, started, concluded)
  {
    var l, log, n := LedgerOf(env), t.store.log, |t.store.log|;
    var begin := JobEvent(ApplyStarted, JOB_LIFECYCLE_CATEGORY, reviewer);
    var verb := if Passed(result) then VerifyPassed else VerifyFailed;
    var conclude := JobEvent(verb, VerdictCategory(result.verify), reviewer);
    var first := Appended(l, log, begin, started);
    var both := Appended(l, first, conclude, concluded);
    assert Judged(env, t, result, reviewer, started, concluded).store == t.store.(log := both);
    AppendedEntry(l, log, begin, started);
    AppendKeepsGoodLog(l, log, begin, started);
    AppendedEntry(l, first, conclude, concluded);
    VerdictCategoryTells(result.verify);
    hide Appended, GoodLog, LoadJson, VerdictCategory, TellsVerdict, Judged, LinksTo;
    assert both[..n] == first[..n] && both[n] == first[n];
  }

  /**
   * A delivery to an applying job. If the requester, the download, burn-in or the gate itself fails,
   * or the commit of a failing verdict or the upload of passing output does, the rows and objects
   * stay. A failing verdict is logged and fails the job. A passing one stores the output and, if
   * the commit holds, is logged and verifies the job. Whatever does not commit leaves a failure step.
   */
  lemma ApplyEffect(env: Env, original: Bytes, w: World, requester: Option<Uuid>, started: Stamp, concluded: Stamp,
                    fault: Fault)
    requires Inv(env, original, w) && w.tables.status == Applying
    ensures var v := RunApply(env, w, requester, started, concluded, fault);
            var result := Applied(env.renderer, GateOf(env), original, ApprovedSpans(w.tables.store));
            var raised := requester.None? || fault == DownloadFails || result.None?;
            var passed := !raised && result.value.verify.verdict == Pass;
            var failed := !raised && result.value.verify.verdict == Verdict.Fail;
            && (raised || (failed && fault == CommitFails) || (passed && fault == UploadFails) ==>
                  v == w.(pendingFailures := w.pendingFailures + 1))
            && (passed && fault != UploadFails ==>
                  v.objects == w.objects[RedactedKey(env) := PdfBlob(result.value.pdf)])
            && (passed && fault == CommitFails ==>
                  v.tables == w.tables && v.pendingFailures == w.pendingFailures + 1)
            && (passed && (fault == NoFault) ==>
                  && v.tables.status == JobStatus.Verified && v.tables.redactedKey == Some(RedactedKey(env))
                  && v.pendingFailures == w.pendingFailures
                  && LogsVerdict(env, w.tables.store, v.tables.store, result.value.verify, requester.value, started,
                                 concluded))
            && (failed && fault != CommitFails ==>
                  && v.tables.status == Failed && v.tables.redactedKey == w.tables.redactedKey
                  && v.objects == w.objects && v.pendingFailures == w.pendingFailures
                  && LogsVerdict(env, w.tables.store, v.tables.store, result.value.verify, requester.value, started,
                                 concluded))
  {
    var result := Applied(env.renderer, GateOf(env), original, ApprovedSpans(w.tables.store));
    assert OriginalPdf(env, w.objects) == Some(original);
    assert GoodLog(LedgerOf(env), w.tables.store.log);
    DeliveryIs(env, original, w, requester, started, concluded, fault);
    hide Inv, OriginalPdf, Applied, ApprovedSpans, GoodLog, LogsVerdict, ConcludeApply, RedactedKey, RunApply, Judged;
    if requester.Some? && fault != DownloadFails && result.Some? {
      ConcludeEffect(env, w, result.value, requester.value, started, concluded, fault);
      JudgedLogsVerdict(env, w.tables, result.value, requester.value, started, concluded);
    }
  }

  lemma DeliveryIs(env: Env, original: Bytes, w: World, requester: Option<Uuid>, started: Stamp, concluded: Stamp,
                   fault: Fault)
    requires OriginalPdf(env, w.objects) == Some(original) && w.tables.status == Applying
    ensures var result := Applied(env.renderer, GateOf(env), original, ApprovedSpans(w.tables.store));
            RunApply(env, w, requester, started, concluded, fault)
            == if requester.None? || fault == DownloadFails || result.None?
               then w.(pendingFailures := w.pendingFailures + 1)
               else ConcludeApply(env, w, result.value, requester.value, started, concluded, fault)
  {
    hide OriginalPdf, Applied, ApprovedSpans, ConcludeApply;
  }

  lemma ConcludeEffect(env: Env, w: World, result: ApplyResult, reviewer: Uuid, started: Stamp, concluded: Stamp,
                       fault: Fault)
    requires w.tables.status == Applying
    ensures var v := ConcludeApply(env, w, result, reviewer, started, concluded, fault);
            var u := Judged(env, w.tables, result, reviewer, started, concluded);
            var stored := w.(objects := w.objects[RedactedKey(env) := PdfBlob(result.pdf)]);
            v == if result.verify.verdict == Verdict.Fail then
                   if fault == CommitFails then w.(pendingFailures := w.pendingFailures + 1)
                   else w.(tables := Tables(Failed, u.store, u.redactedKey))
                 else if fault == UploadFails then w.(pendingFailures := w.pendingFailures + 1)
                 else if fault == CommitFails then stored.(pendingFailures := w.pendingFailures + 1)
                 else stored.(tables := Tables(JobStatus.Verified, u.store, Some(RedactedKey(env))))
    ensures Judged(env, w.tables, result, reviewer, started, concluded).redactedKey == w.tables.redactedKey
  {
    hide Appended, VerdictCategory, RedactedKey, HasUndispositioned;
  }

  // ---------- export ----------

  /** One more entry, EXPORTED by this user; nothing else differs. */
  ghost predicate LogsExport(env: Env, s: Store, t: Store, exporter: Uuid, stamp: Stamp) {
    var n := |s.log|;
    && t.pages == s.pages && t.spans == s.spans && t.dispositions == s.dispositions
    && |t.log| == n + 1 && t.log[..n] == s.log
    && RecordsEvent(LedgerOf(env), Head(s.log), n,
                    AuditEvent(AuditAction.Exported, "job_lifecycle", None, exporter, None), stamp, t.log[n])
  }

  /**
   * An export request. Before the gate, or if a download or an upload fails, nothing happens and
   * nothing is served. Otherwise the manifest is stored. An exported job is served and keeps its
   * rows; a verified one is served and moves on, logged once, if the commit holds, and neither if not.
   */
  lemma ExportEffect(env: Env, original: Bytes, actions: seq<Action>, exporter: Uuid, stamp: Stamp,
                     generatedAt: string, fault: Fault)
    ensures var w := Run(env, original, actions);
            var (v, served) := Export(env, w, exporter, stamp, generatedAt, fault);
            var b := Bundled(env, w, generatedAt);
            var prepared := PastGate(w.tables.status) && fault != DownloadFails && fault != UploadFails;
            && (!prepared ==> v == w && served == None)
            && (prepared ==>
                  && b.Some? && v.objects == w.objects[ManifestKey(env) := ManifestBlob(b.value.manifest)]
                  && v.pendingFailures == w.pendingFailures)
            && (prepared && w.tables.status == JobStatus.Exported ==> v.tables == w.tables && served == b)
            && (prepared && w.tables.status == JobStatus.Verified && fault == CommitFails ==>
                  v.tables == w.tables && served == None)
            && (prepared && w.tables.status == JobStatus.Verified && fault == NoFault ==>
                  && served == b && v.tables.status == JobStatus.Exported
                  && v.tables.redactedKey == w.tables.redactedKey
                  && LogsExport(env, w.tables.store, v.tables.store, exporter, stamp))
  {
    BundleIsFaithful(env, original, actions, generatedAt);
    LogTellsTheStore(env, original, actions);
    var w := Run(env, original, actions);
    hide Run, Bundled, IsRedactionOf, ManifestTells, GoodLog, LogRefinesStore;
    ShippedLogsExport(env, w.tables, exporter, stamp);
    ExportIs(env, w, exporter, stamp, generatedAt, fault);
    hide Export, Shipped, LogsExport;
  }

  lemma ShippedLogsExport(env: Env, t: Tables, exporter: Uuid, stamp: Stamp)
    requires GoodLog(LedgerOf(env), t.store.log)
    ensures var u := Shipped(env, t, exporter, stamp);
            && u.status == JobStatus.Exported && u.redactedKey == t.redactedKey
            && LogsExport(env, t.store, u.store, exporter, stamp)
  {
    AppendedEntry(LedgerOf(env), t.store.log, JobEvent(AuditAction.Exported, JOB_LIFECYCLE_CATEGORY, exporter), stamp);
    hide Appended, GoodLog, LinksTo;
  }

  lemma ExportIs(env: Env, w: World, exporter: Uuid, stamp: Stamp, generatedAt: string, fault: Fault)
    ensures var b := Bundled(env, w, generatedAt);
            var stored := w.(objects := if b.Some? then w.objects[ManifestKey(env) := ManifestBlob(b.value.manifest)]
                                        else w.objects);
            Export(env, w, exporter, stamp, generatedAt, fault)
            == if fault == DownloadFails || fault == UploadFails || b.None? then (w, None)
               else if w.tables.status != JobStatus.Verified then (stored, b)
               else if fault == CommitFails then (stored, None)
               else (stored.(tables := Shipped(env, w.tables, exporter, stamp)), b)
  {
    hide Bundled, ManifestKey, Appended, HasUndispositioned;
  }

  // ---------- verdicts in the log ----------

  /** A verify entry's category reads as the verdict that its action names. */
  ghost predicate TellsItsVerdict(e: AuditEntry) {
    ReadsAs(e.category, if e.action == VerifyPassed then Pass else Verdict.Fail)
  }

  ghost predicate ReadsAs(text: string, verdict: Verdict) {
    && LoadJson(text).Some?
    && var json := LoadJson(text).value; exists checks :: TellsVerdict(json, verdict, checks)
  }

  ghost predicate VerdictsAreTold(log: seq<AuditEntry>) {
    forall k :: 0 <= k < |log| && (log[k].action == VerifyPassed || log[k].action == VerifyFailed) ==>
        TellsItsVerdict(log[k])
  }

  lemma ReviewHasNoVerdicts(log: seq<AuditEntry>)
    requires AllReview(log)
    ensures VerdictsAreTold(log)
  {
  }

  lemma VerdictIsTold(env: Env, s: Store, t: Store, r: VerifyResult, reviewer: Uuid, started: Stamp, concluded: Stamp)
    requires VerdictsAreTold(s.log) && LogsVerdict(env, s, t, r, reviewer, started, concluded)
    ensures VerdictsAreTold(t.log)
  {
    var n := |s.log|;
    hide LoadJson, TellsVerdict, LinksTo;
    assert TellsItsVerdict(t.log[n + 1]);
    hide TellsItsVerdict, ReadsAs;
    forall k | 0 <= k < n ensures t.log[k] == s.log[k] { assert t.log[k] == t.log[..n][k]; }
  }

  lemma ExportTellsNoVerdict(env: Env, s: Store, t: Store, exporter: Uuid, stamp: Stamp)
    requires VerdictsAreTold(s.log) && LogsExport(env, s, t, exporter, stamp)
    ensures VerdictsAreTold(t.log)
  {
    var n := |s.log|;
    hide TellsItsVerdict, LinksTo;
    forall k | 0 <= k < n ensures t.log[k] == s.log[k] { assert t.log[k] == t.log[..n][k]; }
  }

  /** In every reachable log each VERIFY_PASSED entry reads "pass" and each VERIFY_FAILED entry "fail". */
  lemma {:induction false} VerdictsInLog(env: Env, original: Bytes, actions: seq<Action>)
    ensures VerdictsAreTold(Run(env, original, actions).tables.store.log)
  {
    EveryRunKeepsInv(env, original, actions);
    if actions != [] {
      var init, a := actions[..|actions| - 1], actions[|actions| - 1];
      VerdictsInLog(env, original, init);
      EveryRunKeepsInv(env, original, init);
      StepTellsVerdicts(env, original, init, a);
    }
  }

  lemma StepTellsVerdicts(env: Env, original: Bytes, actions: seq<Action>, a: Action)
    requires var w := Run(env, original, actions); Inv(env, original, w) && VerdictsAreTold(w.tables.store.log)
    ensures VerdictsAreTold(Step(env, Run(env, original, actions), a).tables.store.log)
  {
    hide VerdictsAreTold, Run, Inv, RunApply, Export, Dispose, Detect, Ingest, StartApply, FailJob;
    var w := Run(env, original, actions);
    match a
    case DeliverApply(requester, started, concluded, fault) =>
      ApplyTellsVerdicts(env, original, w, requester, started, concluded, fault);
    case RequestExport(exporter, stamp, generatedAt, fault) =>
      ExportTellsVerdicts(env, original, actions, exporter, stamp, generatedAt, fault);
    case SubmitDispositions(subs, reviewer) => ReviewTellsVerdicts(env, original, w, subs, reviewer);
    case DeliverDetect(found, newId, ok) => DetectOutcomes(env, w, found, newId, ok);
    case DeliverIngest(staged, ok) => IngestKeepsLog(env, w, staged, ok);
    case RequestApply => StartKeepsLog(env, w);
    case FailLate => FailEffect(w);
  }

  lemma ApplyTellsVerdicts(env: Env, original: Bytes, w: World, requester: Option<Uuid>, started: Stamp,
                           concluded: Stamp, fault: Fault)
    requires Inv(env, original, w) && VerdictsAreTold(w.tables.store.log)
    ensures VerdictsAreTold(RunApply(env, w, requester, started, concluded, fault).tables.store.log)
  {
    hide RunApply, Applied, ApprovedSpans, Inv, VerdictsAreTold, LogsVerdict, RedactedKey;
    var v := RunApply(env, w, requester, started, concluded, fault);
    if w.tables.status == Applying {
      ApplyEffect(env, original, w, requester, started, concluded, fault);
      var result := Applied(env.renderer, GateOf(env), original, ApprovedSpans(w.tables.store));
      if v.tables != w.tables {
        VerdictIsTold(env, w.tables.store, v.tables.store, result.value.verify, requester.value, started, concluded);
      }
    } else {
      IdleApply(env, w, requester, started, concluded, fault);
    }
  }

  lemma ExportTellsVerdicts(env: Env, original: Bytes, actions: seq<Action>, exporter: Uuid, stamp: Stamp,
                            generatedAt: string, fault: Fault)
    requires VerdictsAreTold(Run(env, original, actions).tables.store.log)
    ensures VerdictsAreTold(Export(env, Run(env, original, actions), exporter, stamp, generatedAt, fault)
                              .0.tables.store.log)
  {
    hide Run, Export, Bundled, VerdictsAreTold, LogsExport, ManifestKey;
    ExportEffect(env, original, actions, exporter, stamp, generatedAt, fault);
    var w := Run(env, original, actions);
    var v := Export(env, w, exporter, stamp, generatedAt, fault).0;
    if v.tables != w.tables { ExportTellsNoVerdict(env, w.tables.store, v.tables.store, exporter, stamp); }
  }

  lemma ReviewTellsVerdicts(env: Env, original: Bytes, w: World, subs: seq<Submission>, reviewer: Uuid)
    requires Inv(env, original, w) && VerdictsAreTold(w.tables.store.log)
    ensures VerdictsAreTold(Dispose(env, w, subs, reviewer).tables.store.log)
  {
    hide VerdictsAreTold, ApplyBatch, SomeRefused, GoodStore;
    DisposeEffect(env, w, subs, reviewer);
    if w.tables.status == InReview && ApplyBatch(LedgerOf(env), w.tables.store, subs, reviewer).Ok? {
      BatchLogsReview(LedgerOf(env), w.tables.store, subs, reviewer);
      ReviewHasNoVerdicts(ApplyBatch(LedgerOf(env), w.tables.store, subs, reviewer).value.store.log);
    }
  }

  lemma IngestKeepsLog(env: Env, w: World, staged: nat, ok: bool)
    ensures Ingest(env, w, staged, ok).tables.store == w.tables.store
  {
  }

  lemma StartKeepsLog(env: Env, w: World)
    ensures StartApply(env, w).tables.store == w.tables.store
  {
  }

  lemma IdleApply(env: Env, w: World, requester: Option<Uuid>, started: Stamp, concluded: Stamp, fault: Fault)
    requires w.tables.status != Applying
    ensures RunApply(env, w, requester, started, concluded, fault) == w
  {
  }
}
