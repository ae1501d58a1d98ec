/** What the object store can ever hold of a job's output, and how it answers to the audit log. */
module StorageTheorems {
  import opened Basics
  import opened Json
  import opened AuditChain
  import opened BurnIn
  import opened VerifyGate
  import opened ReviewStore
  import opened Pipeline
  import opened PipelineTheorems
  import opened RunTheorems

  // ---------- keys ----------

  lemma UuidTextLength(u: Uuid)
    ensures |UuidText(u)| == 36
  {
  }

  lemma DecimalIsInjective(m: nat, n: nat)
    ensures Decimal(m) == Decimal(n) <==> m == n
  {
    ReadDecimalSkips(m, "");
    ReadDecimalSkips(n, "");
    assert Decimal(m) + "" == Decimal(m) && Decimal(n) + "" == Decimal(n);
  }

  /** Text between a common front and a common back determines the whole and is determined by it. */
  lemma SameMiddle(front: string, a: string, b: string, back: string)
    ensures front + a + back == front + b + back <==> a == b
  {
    var x, y := front + a + back, front + b + back;
    if x == y {
      assert |a| == |b|;
      assert a == x[|front|..|front| + |a|] && b == y[|front|..|front| + |b|];
    }
  }

  /** Of one length, two first parts and what follows them are determined by the text they make up. */
  lemma SameParts(front: string, a: string, b: string, x: string, y: string)
    requires |a| == |b|
    ensures front + a + x == front + b + y <==> a == b && x == y
  {
    var s, t := front + a + x, front + b + y;
    if s == t {
      assert a == s[|front|..|front| + |a|] && b == t[|front|..|front| + |b|];
      assert x == s[|front| + |a|..] && y == t[|front| + |b|..];
    }
  }

  /** Output and manifest keys belong to one job each, and originals and page artifacts to one document and page. */
  lemma KeysIsolate(e: Env, f: Env, page: nat, other: nat)
    ensures RedactedKey(e) == RedactedKey(f) <==> e.jobId == f.jobId
    ensures ManifestKey(e) == ManifestKey(f) <==> e.jobId == f.jobId
    ensures OriginalKey(e) == OriginalKey(f) <==> e.documentId == f.documentId
    ensures RasterKey(e, page) == RasterKey(f, other) <==> e.documentId == f.documentId && page == other
    ensures TextLayerKey(e, page) == TextLayerKey(f, other) <==> e.documentId == f.documentId && page == other
    ensures RasterKey(e, page) != TextLayerKey(f, other)
  {
    UuidTextIsInjective(e.jobId, f.jobId);
    UuidTextIsInjective(e.documentId, f.documentId);
    var i, j, d, c := UuidText(e.jobId), UuidText(f.jobId), UuidText(e.documentId), UuidText(f.documentId);
    SameMiddle("jobs/", i, j, "/redacted.pdf");
    SameMiddle("jobs/", i, j, "/manifest.json");
    SameMiddle("documents/", d, c, "/original.pdf");
    PageKeyIsolates(e, f, page, other);
    SameFront(PageKey(e, page), PageKey(f, other), "/raster.png");
    SameFront(PageKey(e, page), PageKey(f, other), "/text_layer.json");
    ArtifactsDiffer(PageKey(e, page), PageKey(f, other));
    hide UuidText, PageKey;
  }

  lemma PageKeyIsolates(e: Env, f: Env, page: nat, other: nat)
    ensures PageKey(e, page) == PageKey(f, other) <==> e.documentId == f.documentId && page == other
  {
    UuidTextIsInjective(e.documentId, f.documentId);
    UuidTextLength(e.documentId);
    UuidTextLength(f.documentId);
    DecimalIsInjective(page, other);
    hide UuidText, Decimal;
    var d, c, m, n := UuidText(e.documentId), UuidText(f.documentId), Decimal(page), Decimal(other);
    SameParts("documents/", d, c, "/pages/" + m, "/pages/" + n);
    SameEnding("/pages/", m, n);
    assert PageKey(e, page) == "documents/" + d + ("/pages/" + m);
    assert PageKey(f, other) == "documents/" + c + ("/pages/" + n);
  }

  lemma SameEnding(front: string, a: string, b: string)
    ensures front + a == front + b <==> a == b
  {
    assert (front + a)[|front|..] == a && (front + b)[|front|..] == b;
  }

  lemma SameFront(a: string, b: string, back: string)
    ensures a + back == b + back <==> a == b
  {
    if a + back == b + back {
      assert |a| == |b|;
      assert a == (a + back)[..|a|] && b == (b + back)[..|b|];
    }
  }

  lemma ArtifactsDiffer(a: string, b: string)
    ensures a + "/raster.png" != b + "/text_layer.json"
  {
    var x, y := a + "/raster.png", b + "/text_layer.json";
    assert x[|x| - 1] == 'g' && y[|y| - 1] == 'n';
  }

  // ---------- output ----------

  /** Whatever is under the job's redacted key came out of apply with the spans approved now, and passed the gate. */
  ghost predicate OnlyPassedIsStored(env: Env, original: Bytes, w: World) {
    RedactedKey(env) in w.objects ==>
      Frozen(w.tables.status) && IsPassedOutput(env, original, w.tables.store, w.objects[RedactedKey(env)])
  }

  ghost predicate IsPassedOutput(env: Env, original: Bytes, s: Store, blob: Blob) {
    exists result :: ApplyGave(env, original, s, result) && Passed(result) && blob == PdfBlob(result.pdf)
  }

  /** The step left the redacted object as it was. */
  ghost predicate SameOutput(env: Env, v: World, w: World) {
    && (RedactedKey(env) in v.objects <==> RedactedKey(env) in w.objects)
    && (RedactedKey(env) in w.objects ==> v.objects[RedactedKey(env)] == w.objects[RedactedKey(env)])
  }

  lemma {:induction false} StagingKeepsOutput(env: Env, objects: map<string, Blob>, n: nat)
    ensures RedactedKey(env) in Staged(env, objects, n) <==> RedactedKey(env) in objects
    ensures RedactedKey(env) in objects ==> Staged(env, objects, n)[RedactedKey(env)] == objects[RedactedKey(env)]
  {
    if n > 0 {
      StagingKeepsOutput(env, objects, n - 1);
      assert RasterKey(env, n)[0] == 'd' && TextLayerKey(env, n)[0] == 'd' && RedactedKey(env)[0] == 'j';
    }
  }

  lemma SameReviewSameOutput(env: Env, original: Bytes, s: Store, t: Store, blob: Blob)
    requires SameReview(s, t) && IsPassedOutput(env, original, s, blob)
    ensures IsPassedOutput(env, original, t, blob)
  {
    var result :| ApplyGave(env, original, s, result) && Passed(result) && blob == PdfBlob(result.pdf);
    assert ApprovedIds(t) == ApprovedIds(s);
    assert ApplyGave(env, original, t, result);
  }

  lemma UntouchedOutputStays(env: Env, original: Bytes, w: World, v: World)
    requires OnlyPassedIsStored(env, original, w) && SameOutput(env, v, w) && Forward(w.tables, v.tables)
    ensures OnlyPassedIsStored(env, original, v)
  {
    if RedactedKey(env) in w.objects {
      hide IsPassedOutput, RedactedKey;
      SameReviewSameOutput(env, original, w.tables.store, v.tables.store, w.objects[RedactedKey(env)]);
    }
  }

  lemma ConcludeStoresOnlyPassed(env: Env, original: Bytes, w: World, result: ApplyResult, reviewer: Uuid,
                                 started: Stamp, concluded: Stamp, fault: Fault)
    requires w.tables.status == Applying && OnlyPassedIsStored(env, original, w)
    requires ApplyGave(env, original, w.tables.store, result)
    ensures OnlyPassedIsStored(env, original, ConcludeApply(env, w, result, reviewer, started, concluded, fault))
  {
    var v := ConcludeApply(env, w, result, reviewer, started, concluded, fault);
    ConcludeIsForward(env, w, result, reviewer, started, concluded, fault);
    UploadNeedsPass(env, w, result, reviewer, started, concluded, fault);
    hide ConcludeApply, RedactedKey, ApplyGave;
    if v.objects == w.objects {
      UntouchedOutputStays(env, original, w, v);
    } else {
      assert IsPassedOutput(env, original, w.tables.store, PdfBlob(result.pdf));
      SameReviewSameOutput(env, original, w.tables.store, v.tables.store, PdfBlob(result.pdf));
    }
  }

  lemma UploadNeedsPass(env: Env, w: World, result: ApplyResult, reviewer: Uuid, started: Stamp, concluded: Stamp,
                        fault: Fault)
    requires w.tables.status == Applying
    ensures var v := ConcludeApply(env, w, result, reviewer, started, concluded, fault);
            v.objects == w.objects || (Passed(result)
                && v.objects == w.objects[RedactedKey(env) := PdfBlob(result.pdf)])
  {
  }

  lemma RunApplyStoresOnlyPassed(env: Env, original: Bytes, w: World, requester: Option<Uuid>, started: Stamp,
                                 concluded: Stamp, fault: Fault)
    requires OnlyPassedIsStored(env, original, w) && OriginalPdf(env, w.objects) == Some(original)
    ensures OnlyPassedIsStored(env, original, RunApply(env, w, requester, started, concluded, fault))
  {
    hide OnlyPassedIsStored, OriginalPdf;
    var v := RunApply(env, w, requester, started, concluded, fault);
    var result := Applied(env.renderer, GateOf(env), original, ApprovedSpans(w.tables.store));
    if w.tables.status == Applying && requester.Some? && fault != DownloadFails && result.Some? {
      assert ApplyGave(env, original, w.tables.store, result.value);
      ConcludeStoresOnlyPassed(env, original, w, result.value, requester.value, started, concluded, fault);
    } else {
      assert v.tables == w.tables && v.objects == w.objects;
      SameWorldStores(env, original, w, v);
    }
  }

  lemma SameWorldStores(env: Env, original: Bytes, w: World, v: World)
    requires OnlyPassedIsStored(env, original, w) && v.tables == w.tables && v.objects == w.objects
    ensures OnlyPassedIsStored(env, original, v)
  {
  }

  lemma OtherStepsKeepOutput(env: Env, w: World, a: Action)
    requires !a.DeliverApply?
    ensures SameOutput(env, Step(env, w, a), w)
  {
    hide RedactedKey, Staged, Detect, Dispose, Export;
    match a
    case DeliverIngest(staged, ok) => StagingKeepsOutput(env, w.objects, staged);
    case DeliverDetect(found, newId, ok) => DetectOutcomes(env, w, found, newId, ok);
    case SubmitDispositions(subs, reviewer) => ReviewKeepsObjects(env, w, subs, reviewer);
    case RequestApply =>
    case FailLate =>
    case RequestExport(exporter, stamp, generatedAt, fault) =>
      ExportOutcomes(env, w, exporter, stamp, generatedAt, fault);
      KeysAreDistinct(env, 0);
  }

  lemma ReviewKeepsObjects(env: Env, w: World, subs: seq<Submission>, reviewer: Uuid)
    ensures Dispose(env, w, subs, reviewer).objects == w.objects
  {
    hide ApplyBatch;
  }

  /** Nothing that failed the gate is ever stored as a job's output, whatever happens to the job before or after. */
  lemma {:induction false} NoUngatedOutput(env: Env, original: Bytes, actions: seq<Action>)
    ensures OnlyPassedIsStored(env, original, Run(env, original, actions))
  {
    KeysAreDistinct(env, 0);
    if actions != [] {
      var init, a := actions[..|actions| - 1], actions[|actions| - 1];
      NoUngatedOutput(env, original, init);
      EveryRunKeepsInv(env, original, init);
      var w := Run(env, original, init);
      hide OnlyPassedIsStored, TablesInv, StoredIsApproved, Forward, SameOutput, OriginalPdf;
      if a.DeliverApply? {
        RunApplyStoresOnlyPassed(env, original, w, a.requester, a.started, a.concluded, a.fault);
      } else {
        OtherStepsKeepOutput(env, w, a);
        StepIsForward(env, w, a);
        UntouchedOutputStays(env, original, w, Step(env, w, a));
      }
    }
  }

  /**
   * Once the job is past the gate nothing writes under its redacted key any more, not even if it
   * fails later: whatever follows, the object stays there with the same bytes.
   */
  lemma ExportedBytesAreStable(env: Env, original: Bytes, actions: seq<Action>, more: seq<Action>)
    requires PastGate(Run(env, original, actions).tables.status)
    ensures RedactedKey(env) in Run(env, original, actions).objects
    ensures SameOutput(env, Run(env, original, actions + more), Run(env, original, actions))
  {
    ExportSafety(env, original, actions);
    OutputStays(env, original, actions, more);
  }

  lemma {:induction false} OutputStays(env: Env, original: Bytes, actions: seq<Action>, more: seq<Action>)
    requires PastGate(Run(env, original, actions).tables.status)
    ensures SameOutput(env, Run(env, original, actions + more), Run(env, original, actions))
  {
    hide Step, SameOutput, Forward;
    var all := actions + more;
    if more == [] {
      assert all == actions;
      OutputStaysTwice(env, Run(env, original, all), Run(env, original, all), Run(env, original, all));
    } else {
      var init, a := more[..|more| - 1], all[|all| - 1];
      assert all[..|all| - 1] == actions + init;
      OutputStays(env, original, actions, init);
      RunsGoForward(env, original, actions, init);
      ForwardPastGate(Run(env, original, actions).tables, Run(env, original, actions + init).tables);
      StepKeepsOutput(env, Run(env, original, actions + init), a);
      OutputStaysTwice(env, Run(env, original, all), Run(env, original, actions + init), Run(env, original, actions));
    }
  }

  lemma OutputStaysTwice(env: Env, v: World, w: World, x: World)
    ensures SameOutput(env, v, v)
    ensures SameOutput(env, v, w) && SameOutput(env, w, x) ==> SameOutput(env, v, x)
  {
  }

  lemma ForwardPastGate(t: Tables, u: Tables)
    requires PastGate(t.status) && Forward(t, u)
    ensures u.status != Applying
  {
  }

  /** Only the delivery of an apply task to an applying job writes under the redacted key. */
  lemma StepKeepsOutput(env: Env, w: World, a: Action)
    requires w.tables.status != Applying
    ensures SameOutput(env, Step(env, w, a), w)
  {
    if !a.DeliverApply? { OtherStepsKeepOutput(env, w, a); }
  }

  /** The spans that are burned in are those whose latest entry in the audit log is not a rejection. */
  lemma ApprovedIsWhatTheLogSays(env: Env, original: Bytes, actions: seq<Action>, id: Uuid)
    ensures var s := Run(env, original, actions).tables.store;
            id in ApprovedIds(s) <==> id in Replay(s.log) && Replay(s.log)[id].action != Rejected
  {
    LogTellsTheStore(env, original, actions);
    var s := Run(env, original, actions).tables.store;
    hide Run, GoodLog, Replay;
    if id in s.dispositions { assert Records(LedgerOf(env), Replay(s.log)[id], s.spans[id], s.dispositions[id]); }
  }
}
