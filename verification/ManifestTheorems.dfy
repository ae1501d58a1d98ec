/**
 * A manifest proves its job's audit trail by itself: the chain can be recomputed from it alone
 * (`manifest/models.py`).
 */
module ManifestTheorems {
  import opened Basics
  import opened Json
  import opened AuditChain
  import opened BurnIn
  import opened VerifyGate
  import opened ReviewStore
  import opened Manifest
  import opened Pipeline
  import opened PipelineTheorems
  import opened RunTheorems

  // ---------- recomputing the chain ----------

  function DispositionPayload(jobId: Uuid, d: ManifestDisposition): ChainPayload {
    ChainPayload(jobId, Some(d.spanId), d.action, d.category, d.reviewerId, d.disposedAt)
  }

  /** The category of a verify entry is the text of the verdict; every other job-level entry has a fixed one. */
  function LifecyclePayload(jobId: Uuid, summary: Json, e: ManifestLifecycleEvent): ChainPayload {
    var category := if IsVerifyAction(e.action) then Encode(summary) else JOB_LIFECYCLE_CATEGORY;
    ChainPayload(jobId, None, e.action, category, e.reviewerId, e.createdAt)
  }

  /** What was hashed, as far as a reader of the manifest can tell. */
  function RebuiltPayloads(m: ExportManifest): seq<ChainPayload> {
    seq(|m.dispositions|, k requires 0 <= k < |m.dispositions| => DispositionPayload(m.jobId, m.dispositions[k]))
    + seq(|m.lifecycleEvents|, k requires 0 <= k < |m.lifecycleEvents| =>
            LifecyclePayload(m.jobId, m.verifySummary, m.lifecycleEvents[k]))
  }

  /** The head of the chain with these payloads. */
  function HeadOf(hash: Hash, payloads: seq<ChainPayload>): string {
    if payloads == [] then GENESIS_PREV_HASH
    else ComputeEntryHash(hash, HeadOf(hash, payloads[..|payloads| - 1]), payloads[|payloads| - 1])
  }

  lemma {:induction false} HeadIsRecomputable(hash: Hash, entries: seq<AuditEntry>)
    requires ChainVerifies(hash, entries)
    ensures Head(entries) == HeadOf(hash, Payloads(entries))
  {
    if entries != [] {
      HeadIsRecomputable(hash, entries[..|entries| - 1]);
      PayloadsSplit(entries);
    }
  }

  // ---------- the entries of an exportable log ----------

  lemma PassedEntries(log: seq<AuditEntry>)
    requires EndsWith(log, PASSED_TAIL)
    ensures |log| >= 2 && AllReview(log[..|log| - 2])
    ensures IsJobEntry(log[|log| - 2], ApplyStarted) && IsJobEntry(log[|log| - 1], VerifyPassed)
  {
    var begun := log[..|log| - 1];
    assert PASSED_TAIL[..1] == [ApplyStarted] && [ApplyStarted][..0] == [];
    assert EndsWith(begun, [ApplyStarted]);
    assert EndsWith(begun[..|begun| - 1], []);
    assert begun[..|begun| - 1] == log[..|log| - 2];
  }

  lemma ExportedEntries(log: seq<AuditEntry>)
    requires EndsWith(log, EXPORTED_TAIL)
    ensures |log| >= 3 && AllReview(log[..|log| - 3])
    ensures IsJobEntry(log[|log| - 3], ApplyStarted) && IsJobEntry(log[|log| - 2], VerifyPassed)
    ensures IsJobEntry(log[|log| - 1], AuditAction.Exported)
  {
    var init := log[..|log| - 1];
    assert EXPORTED_TAIL[..2] == PASSED_TAIL;
    assert EndsWith(init, PASSED_TAIL);
    hide EndsWith;
    PassedEntries(init);
    assert init[..|init| - 2] == log[..|log| - 3];
  }

  /** Entry k, listed on its side of a manifest that splits the log at n, gives back its payload. */
  ghost predicate GivesBack(jobId: Uuid, summary: Json, log: seq<AuditEntry>, n: nat, k: nat)
    requires k < |log|
  {
    if k < n then log[k].spanId.Some? && DispositionPayload(jobId, ToDisposition(log[k])) == PayloadOf(log[k])
    else LifecyclePayload(jobId, summary, ToLifecycle(log[k])) == PayloadOf(log[k])
  }

  lemma JobEntryGivesBack(jobId: Uuid, summary: Json, log: seq<AuditEntry>, n: nat, k: nat, a: AuditAction)
    requires n <= k < |log| && log[k].jobId == jobId && IsJobEntry(log[k], a)
    requires IsVerifyAction(a) ==> log[k].category == Encode(summary)
    ensures GivesBack(jobId, summary, log, n, k)
  {
    hide Encode;
  }

  /** Review entries up to n, then the two or three job-level entries of a job that passed with this verdict. */
  ghost predicate PassedShape(jobId: Uuid, summary: Json, log: seq<AuditEntry>, n: nat) {
    && n + 2 <= |log| <= n + 3 && AllReview(log[..n])
    && (forall k :: 0 <= k < |log| ==> log[k].jobId == jobId)
    && IsJobEntry(log[n], ApplyStarted)
    && IsJobEntry(log[n + 1], VerifyPassed) && log[n + 1].category == Encode(summary)
    && (|log| == n + 3 ==> IsJobEntry(log[n + 2], AuditAction.Exported))
  }

  lemma LogHasPassedShape(env: Env, t: Tables, objects: map<string, Blob>, result: ApplyResult, n: nat)
    requires TablesInv(env, t) && PastGate(t.status) && ResultIsStored(env, t, objects, result)
    requires n == |t.store.log| - (if t.status == JobStatus.Exported then 3 else 2)
    ensures PassedShape(env.jobId, VerdictJson(result.verify), t.store.log, n)
  {
    hide VerdictJson, EndsWith, Encode, RedactedKey, ChainVerifies, AllReview;
    var log := t.store.log;
    assert forall k :: 0 <= k < |log| ==> log[k].jobId == env.jobId;
    hide GoodStore, GoodLog;
    if t.status == JobStatus.Exported { ExportedEntries(log); } else { PassedEntries(log); }
  }

  lemma EveryEntryGivesBack(jobId: Uuid, summary: Json, log: seq<AuditEntry>, n: nat, k: nat)
    requires PassedShape(jobId, summary, log, n) && k < |log|
    ensures GivesBack(jobId, summary, log, n, k)
  {
    hide GivesBack, Encode, AllReview;
    if k < n {
      ReviewEntryGivesBack(jobId, summary, log, n, k);
    } else {
      JobEntryGivesBack(jobId, summary, log, n, k,
                        if k == n then ApplyStarted else if k == n + 1 then VerifyPassed else AuditAction.Exported);
    }
  }

  lemma ReviewEntryGivesBack(jobId: Uuid, summary: Json, log: seq<AuditEntry>, n: nat, k: nat)
    requires k < n <= |log| && AllReview(log[..n]) && log[k].jobId == jobId
    ensures GivesBack(jobId, summary, log, n, k)
  {
    assert log[k] == log[..n][k];
  }

  // ---------- the theorem ----------

  lemma ListsGiveBack(m: ExportManifest, log: seq<AuditEntry>)
    requires |m.dispositions| + |m.lifecycleEvents| == |log| && AllReview(log[..|m.dispositions|])
    requires m.dispositions == DispositionList(log[..|m.dispositions|])
    requires m.lifecycleEvents == LifecycleList(log[|m.dispositions|..])
    requires forall k: nat :: k < |log| ==> GivesBack(m.jobId, m.verifySummary, log, |m.dispositions|, k)
    ensures RebuiltPayloads(m) == Payloads(log)
    ensures forall d :: d in m.dispositions ==> d.textDigest.Some?
  {
    hide Encode;
    var n := |m.dispositions|;
    forall k: nat | k < |log| ensures RebuiltPayloads(m)[k] == PayloadOf(log[k]) {
      assert GivesBack(m.jobId, m.verifySummary, log, n, k);
      if k < n {
        assert m.dispositions[k] == ToDisposition(log[..n][k]);
      } else {
        assert m.lifecycleEvents[k - n] == ToLifecycle(log[n..][k - n]);
      }
    }
    forall k | 0 <= k < n
      ensures m.dispositions[k].textDigest.Some?
    {
      assert m.dispositions[k] == ToDisposition(log[..n][k]);
    }
  }

  lemma AssembledSplits(env: Env, original: Bytes, w: World, redacted: Bytes, generatedAt: string, n: nat,
                        summary: Json)
    requires OriginalPdf(env, w.objects) == Some(original) && SplitsAt(w.tables.store.log, n, summary)
    ensures var m := Assembled(env, w, redacted, generatedAt);
            m.Some? && m.value.verifySummary == summary && |m.value.dispositions| == n
  {
    hide OriginalPdf, SplitOf;
  }

  lemma ManifestSplitsLog(env: Env, original: Bytes, w: World, generatedAt: string, result: ApplyResult)
    requires Inv(env, original, w) && PastGate(w.tables.status)
    requires ApplyGave(env, original, w.tables.store, result) && ResultIsStored(env, w.tables, w.objects, result)
    requires Passed(result)
    ensures var b := Bundled(env, w, generatedAt);
            && b.Some? && b.value.manifest.verifySummary == VerdictJson(result.verify)
            && |b.value.manifest.dispositions|
                == |w.tables.store.log| - (if w.tables.status == JobStatus.Exported then 3 else 2)
  {
    assert ChainVerifies(env.hash, w.tables.store.log) && OriginalPdf(env, w.objects) == Some(original);
    hide TablesInv, ObjectsInv, ApplyGave, VerdictJson, ChainVerifies, OriginalPdf, IsRedactionOf, RedactedKey,
        SplitsAt, Bundled, Assembled;
    StoredIsRedaction(env, original, w.tables, w.objects);
    var n := SplitPastGate(env, w.tables, w.objects, result);
    AssembledSplits(env, original, w, w.objects[RedactedKey(env)].pdf, generatedAt, n, VerdictJson(result.verify));
    BundleIsAssembled(env, w, generatedAt);
  }

  lemma PassedListsVerdict(m: ExportManifest, log: seq<AuditEntry>)
    requires PassedShape(m.jobId, m.verifySummary, log, |m.dispositions|)
    requires m.lifecycleEvents == LifecycleList(log[|m.dispositions|..])
    ensures ListsVerdict(m)
  {
    hide Encode, AllReview;
    var passed := log[|m.dispositions|..][1];
    assert m.lifecycleEvents[1] == ToLifecycle(passed) && passed.action == VerifyPassed;
  }

  lemma ManifestOfGoodWorld(env: Env, original: Bytes, w: World, generatedAt: string)
    requires Inv(env, original, w) && PastGate(w.tables.status)
    ensures var b := Bundled(env, w, generatedAt);
            && b.Some?
            && RebuiltPayloads(b.value.manifest) == Payloads(w.tables.store.log)
            && (forall d :: d in b.value.manifest.dispositions ==> d.textDigest.Some?)
            && ListsVerdict(b.value.manifest)
  {
    BundleOfGoodWorld(env, original, w, generatedAt);
    var m, log := Bundled(env, w, generatedAt).value.manifest, w.tables.store.log;
    var result :| ApplyGave(env, original, w.tables.store, result) && Passed(result)
        && ResultIsStored(env, w.tables, w.objects, result);
    hide Bundled, ObjectsInv, TablesInv, ApplyGave, IsRedactionOf, GivesBack, RebuiltPayloads, VerdictJson,
        ChainVerifies;
    ManifestSplitsLog(env, original, w, generatedAt, result);
    LogHasPassedShape(env, w.tables, w.objects, result, |m.dispositions|);
    PassedListsVerdict(m, log);
    hide PassedShape;
    forall k: nat | k < |log| ensures GivesBack(m.jobId, m.verifySummary, log, |m.dispositions|, k) {
      EveryEntryGivesBack(m.jobId, m.verifySummary, log, |m.dispositions|, k);
    }
    ListsGiveBack(m, log);
  }

  /**
   * Whoever holds only the manifest of a reachable job can rebuild every payload that was hashed,
   * in order, and recompute the head of the chain; every disposition in it carries a digest, and a
   * verdict is among its events.
   */
  lemma ManifestIsSelfContained(env: Env, original: Bytes, actions: seq<Action>, generatedAt: string)
    requires Bundled(env, Run(env, original, actions), generatedAt).Some?
    ensures var m := Bundled(env, Run(env, original, actions), generatedAt).value.manifest;
            && RebuiltPayloads(m) == Payloads(Run(env, original, actions).tables.store.log)
            && HeadOf(env.hash, RebuiltPayloads(m)) == m.auditChainHead
            && (forall d :: d in m.dispositions ==> d.textDigest.Some?)
            && ListsVerdict(m)
  {
    var w := Run(env, original, actions);
    EveryRunKeepsInv(env, original, actions);
    BundleIsFaithful(env, original, actions, generatedAt);
    hide Run, Bundled, Inv, IsRedactionOf, RebuiltPayloads, HeadOf;
    ManifestOfGoodWorld(env, original, w, generatedAt);
    HeadIsRecomputable(env.hash, w.tables.store.log);
  }

  // ---------- forged manifests ----------

  /** A chain with these payloads. */
  function ChainOf(hash: Hash, payloads: seq<ChainPayload>): seq<AuditEntry> {
    if payloads == [] then [] else
    var init := ChainOf(hash, payloads[..|payloads| - 1]);
    init + [EntryWith(hash, Head(init), payloads[|payloads| - 1])]
  }

  function EntryWith(hash: Hash, prev: string, p: ChainPayload): AuditEntry {
    AuditEntry(0, p.jobId, p.spanId, p.reviewerId, 0, p.action, p.category, None,
               ComputeEntryHash(hash, prev, p), prev, 0, p.createdAt)
  }

  lemma OneMoreEntry(hash: Hash, init: seq<AuditEntry>, p: ChainPayload)
    requires ChainVerifies(hash, init)
    ensures var more := init + [EntryWith(hash, Head(init), p)];
            && ChainVerifies(hash, more)
            && Payloads(more) == Payloads(init) + [p]
            && Head(more) == ComputeEntryHash(hash, Head(init), p)
  {
    hide ComputeEntryHash;
    var more := init + [EntryWith(hash, Head(init), p)];
    assert more[..|more| - 1] == init;
  }

  lemma ChainOfExtends(hash: Hash, payloads: seq<ChainPayload>)
    requires payloads != []
    ensures var init, last, c := payloads[..|payloads| - 1], payloads[|payloads| - 1],
        ChainOf(hash, payloads[..|payloads| - 1]);
            && ChainOf(hash, payloads) == c + [EntryWith(hash, Head(c), last)]
            && HeadOf(hash, payloads) == ComputeEntryHash(hash, HeadOf(hash, init), last)
  {
    hide EntryWith, ComputeEntryHash;
  }

  lemma {:induction false} ChainOfVerifies(hash: Hash, payloads: seq<ChainPayload>)
    ensures ChainVerifies(hash, ChainOf(hash, payloads))
    ensures Payloads(ChainOf(hash, payloads)) == payloads
    ensures Head(ChainOf(hash, payloads)) == HeadOf(hash, payloads)
  {
    if payloads != [] {
      var init, last := payloads[..|payloads| - 1], payloads[|payloads| - 1];
      assert payloads == init + [last];
      hide *;
      ChainOfVerifies(hash, init);
      ChainOfExtends(hash, payloads);
      OneMoreEntry(hash, ChainOf(hash, init), last);
    }
  }

  function Undigested(d: ManifestDisposition): ManifestDisposition { d.(textDigest := None) }

  function AllUndigested(ds: seq<ManifestDisposition>): seq<ManifestDisposition> {
    seq(|ds|, k requires 0 <= k < |ds| => Undigested(ds[k]))
  }

  ghost predicate ListsVerdict(m: ExportManifest) {
    exists e :: e in m.lifecycleEvents && IsVerifyAction(e.action)
  }

  /**
   * The two manifests tell one audit trail: the same decisions, reviewers and times in one order,
   * the same job-level events, and the same verdict if one is listed. Text digests, file digests,
   * the document and the time of generation may differ.
   */
  ghost predicate SameTrail(a: ExportManifest, b: ExportManifest) {
    && AllUndigested(a.dispositions) == AllUndigested(b.dispositions)
    && a.lifecycleEvents == b.lifecycleEvents
    && (ListsVerdict(a) ==> a.verifySummary == b.verifySummary)
    && (a.dispositions != [] || a.lifecycleEvents != [] ==> a.jobId == b.jobId)
  }

  lemma RebuiltAt(m: ExportManifest, k: nat)
    requires k < |m.dispositions| + |m.lifecycleEvents|
    ensures |RebuiltPayloads(m)| == |m.dispositions| + |m.lifecycleEvents|
    ensures RebuiltPayloads(m)[k] ==
            if k < |m.dispositions| then DispositionPayload(m.jobId, m.dispositions[k])
            else LifecyclePayload(m.jobId, m.verifySummary, m.lifecycleEvents[k - |m.dispositions|])
  {
    hide LifecyclePayload;
  }

  /** A list that is longer on the one side has a disposition where the other has an event. */
  lemma SameSplit(a: ExportManifest, b: ExportManifest)
    requires RebuiltPayloads(a) == RebuiltPayloads(b)
    ensures |a.dispositions| >= |b.dispositions|
  {
    var n := |a.dispositions|;
    if n < |b.dispositions| {
      RebuiltAt(b, n);
      RebuiltAt(a, n);
      hide RebuiltPayloads, Encode;
    }
  }

  lemma SameEvent(a: ExportManifest, b: ExportManifest, k: nat)
    requires RebuiltPayloads(a) == RebuiltPayloads(b)
    requires |a.dispositions| == |b.dispositions| && |a.lifecycleEvents| == |b.lifecycleEvents|
    requires k < |a.lifecycleEvents|
    ensures a.lifecycleEvents[k] == b.lifecycleEvents[k] && a.jobId == b.jobId
    ensures IsVerifyAction(a.lifecycleEvents[k].action) ==> a.verifySummary == b.verifySummary
  {
    RebuiltAt(a, |a.dispositions| + k);
    RebuiltAt(b, |a.dispositions| + k);
    EncodeIsInjective(a.verifySummary, b.verifySummary);
    hide RebuiltPayloads, Encode;
  }

  lemma SameDecision(a: ExportManifest, b: ExportManifest, k: nat)
    requires RebuiltPayloads(a) == RebuiltPayloads(b) && |a.dispositions| == |b.dispositions| && k < |a.dispositions|
    ensures Undigested(a.dispositions[k]) == Undigested(b.dispositions[k]) && a.jobId == b.jobId
  {
    RebuiltAt(a, k);
    RebuiltAt(b, k);
    hide RebuiltPayloads;
  }

  /** What is hashed tells exactly the trail. */
  lemma SamePayloadsIffSameTrail(a: ExportManifest, b: ExportManifest)
    ensures RebuiltPayloads(a) == RebuiltPayloads(b) <==> SameTrail(a, b)
  {
    hide Encode;
    if RebuiltPayloads(a) == RebuiltPayloads(b) { SamePayloadsSameTrail(a, b); }
    if SameTrail(a, b) { SameTrailSamePayloads(a, b); }
  }

  lemma SamePayloadsSameTrail(a: ExportManifest, b: ExportManifest)
    requires RebuiltPayloads(a) == RebuiltPayloads(b)
    ensures SameTrail(a, b)
  {
    SameSplit(a, b);
    SameSplit(b, a);
    assert |a.lifecycleEvents| == |b.lifecycleEvents|;
    hide RebuiltPayloads, Undigested;
    forall k: nat | k < |a.lifecycleEvents|
      ensures a.lifecycleEvents[k] == b.lifecycleEvents[k] && a.jobId == b.jobId
      ensures IsVerifyAction(a.lifecycleEvents[k].action) ==> a.verifySummary == b.verifySummary
    {
      SameEvent(a, b, k);
    }
    forall k: nat | k < |a.dispositions|
      ensures Undigested(a.dispositions[k]) == Undigested(b.dispositions[k]) && a.jobId == b.jobId
    {
      SameDecision(a, b, k);
    }
    assert AllUndigested(a.dispositions) == AllUndigested(b.dispositions);
    assert a.lifecycleEvents == b.lifecycleEvents;
    assert a.dispositions != [] ==> Undigested(a.dispositions[0]) == Undigested(b.dispositions[0]);
    assert a.lifecycleEvents != [] ==> a.lifecycleEvents[0] == b.lifecycleEvents[0];
  }

  lemma SameTrailSamePayloads(a: ExportManifest, b: ExportManifest)
    requires SameTrail(a, b)
    ensures RebuiltPayloads(a) == RebuiltPayloads(b)
  {
    assert |a.dispositions| == |AllUndigested(a.dispositions)| == |b.dispositions|;
    var n := |a.dispositions|;
    forall k: nat | k < n + |a.lifecycleEvents| ensures RebuiltPayloads(a)[k] == RebuiltPayloads(b)[k] {
      RebuiltAt(a, k);
      RebuiltAt(b, k);
      hide RebuiltPayloads, Encode;
      if k < n {
        assert AllUndigested(a.dispositions)[k] == Undigested(b.dispositions[k]);
      } else {
        assert a.lifecycleEvents[k - n] in a.lifecycleEvents;
      }
    }
  }

  /**
   * Any manifest at all that tells a genuine one's audit trail leads to its head; and any that leads
   * to its head tells its trail and verdict, or comparing the two yields two texts with one digest
   * or a text hashing to the genesis value.
   */
  lemma ForgedManifestIsExposed(env: Env, original: Bytes, actions: seq<Action>, generatedAt: string,
                                forged: ExportManifest)
    requires Bundled(env, Run(env, original, actions), generatedAt).Some?
    ensures var genuine := Bundled(env, Run(env, original, actions), generatedAt).value.manifest;
            && (SameTrail(genuine, forged) ==> HeadOf(env.hash, RebuiltPayloads(forged)) == genuine.auditChainHead)
            && (HeadOf(env.hash, RebuiltPayloads(forged)) == genuine.auditChainHead ==>
                  || (SameTrail(genuine, forged) && forged.verifySummary == genuine.verifySummary)
                  || BreaksHash(env.hash, Compare(ChainOf(env.hash, RebuiltPayloads(forged)),
                                                  Run(env, original, actions).tables.store.log)))
  {
    var log := Run(env, original, actions).tables.store.log;
    var genuine := Bundled(env, Run(env, original, actions), generatedAt).value.manifest;
    ManifestIsSelfContained(env, original, actions, generatedAt);
    LogTellsTheStore(env, original, actions);
    assert ChainVerifies(env.hash, log);
    hide Run, Bundled, RebuiltPayloads, HeadOf, ChainOf, ChainVerifies, Compare, LogRefinesStore, SameTrail,
        ListsVerdict;
    SamePayloadsIffSameTrail(genuine, forged);
    if HeadOf(env.hash, RebuiltPayloads(forged)) == genuine.auditChainHead {
      ChainOfVerifies(env.hash, RebuiltPayloads(forged));
      HeadIsRecomputable(env.hash, log);
      HeadBindsPayloads(env.hash, ChainOf(env.hash, RebuiltPayloads(forged)), log);
      TrailTellsVerdict(genuine, forged);
    }
  }

  lemma TrailTellsVerdict(a: ExportManifest, b: ExportManifest)
    requires ListsVerdict(a)
    ensures SameTrail(a, b) ==> a.verifySummary == b.verifySummary
  {
    hide AllUndigested;
  }
}
