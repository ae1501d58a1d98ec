/**
 * The export manifest: splitting the audit log and decoding the gate's verdict
 * (`services/export_manifest_service.py`).
 */
module Manifest {
  import opened Basics
  import opened Json
  import opened AuditChain
  import opened VerifyGate
  import opened ReviewStore

  datatype ManifestDisposition = ManifestDisposition(
    spanId: Uuid, action: AuditAction, category: string, textDigest: Option<string>, reviewerId: Uuid,
    disposedAt: string)

  datatype ManifestLifecycleEvent = ManifestLifecycleEvent(action: AuditAction, reviewerId: Uuid, createdAt: string)

  datatype ExportManifest = ExportManifest(
    jobId: Uuid, documentId: Uuid, originalSha256: string, redactedSha256: string,
    dispositions: seq<ManifestDisposition>, lifecycleEvents: seq<ManifestLifecycleEvent>,
    verifySummary: Json, entryCount: nat, auditChainHead: string, auditChainVerified: bool, generatedAt: string)

  // ---------- the verdict, as text in the audit row and back ----------

  function CheckName(c: CheckType): string {
    match c
    case TextLayerCheck => "text_layer"
    case OcrCheck => "ocr"
    case MetadataCheck => "metadata"
  }

  function CheckJson(c: CheckSummary): Json {
    JObj([Member("check_type", JStr(CheckName(c.check))), Member("pages_checked", JNum(c.pagesChecked)),
          Member("passed", JBool(c.passed))])
  }

  function ChecksJson(checks: seq<CheckSummary>): seq<Json> {
    seq(|checks|, k requires 0 <= k < |checks| => CheckJson(checks[k]))
  }

  /** The verdict and the per-check summaries, never the redacted strings. */
  function VerdictJson(r: VerifyResult): Json {
    JObj([Member("checks", JArr(ChecksJson(r.checks))),
          Member("verdict", JStr(if r.verdict == Pass then "pass" else "fail"))])
  }

  function VerdictCategory(r: VerifyResult): string {
    Encode(VerdictJson(r))
  }

  /** Parses a whole text, or None when it is not one JSON value. */
  function LoadJson(text: string): Option<Json> {
    match Decode(text)
    case Fail => None
    case Got(v, rest) => if rest == "" then Some(v) else None
  }

  lemma LoadUndoesEncode(v: Json)
    ensures LoadJson(Encode(v)) == Some(v)
  {
    DecodeRoundTrip(v, "");
    assert Encode(v) + "" == Encode(v);
  }

  /** A check as the audit row writes it. */
  ghost predicate TellsCheck(j: Json, c: CheckSummary) {
    j == JObj([
      Member("check_type",
             JStr(match c.check
                  case TextLayerCheck => "text_layer"
                  case OcrCheck => "ocr"
                  case MetadataCheck => "metadata")),
      Member("pages_checked", JNum(c.pagesChecked)),
      Member("passed", JBool(c.passed))])
  }

  /** An object of a list of these checks and a verdict, "pass" or "fail". */
  ghost predicate TellsVerdict(j: Json, verdict: Verdict, checks: seq<CheckSummary>) {
    && j.JObj? && |j.members| == 2
    && j.members[0].key == "checks" && j.members[0].value.JArr?
    && |j.members[0].value.items| == |checks|
    && (forall k :: 0 <= k < |checks| ==> TellsCheck(j.members[0].value.items[k], checks[k]))
    && j.members[1] == Member("verdict", match verdict case Pass => JStr("pass") case Fail => JStr("fail"))
  }

  /** The text in the audit row reads as the gate's verdict and its checks, in order. */
  lemma VerdictCategoryTells(r: VerifyResult)
    ensures LoadJson(VerdictCategory(r)).Some?
    ensures TellsVerdict(LoadJson(VerdictCategory(r)).value, r.verdict, r.checks)
  {
    LoadUndoesEncode(VerdictJson(r));
    VerdictJsonTells(r);
    hide VerdictJson, TellsVerdict, LoadJson, Encode;
  }

  lemma VerdictJsonTells(r: VerifyResult)
    ensures TellsVerdict(VerdictJson(r), r.verdict, r.checks)
  {
    forall k | 0 <= k < |r.checks| ensures TellsCheck(ChecksJson(r.checks)[k], r.checks[k]) {}
    hide TellsCheck;
  }

  /**
   * The decoded summary says exactly what the gate said: same verdict, same checks, same outcomes,
   * same page counts.
   */
  lemma VerdictCategoryIsFaithful(r: VerifyResult, q: VerifyResult)
    ensures LoadJson(VerdictCategory(r)) == Some(VerdictJson(r))
    ensures VerdictCategory(r) == VerdictCategory(q) <==> r.verdict == q.verdict && r.checks == q.checks
  {
    LoadUndoesEncode(VerdictJson(r));
    EncodeIsInjective(VerdictJson(r), VerdictJson(q));
    if VerdictJson(r) == VerdictJson(q) {
      var a, b := VerdictJson(r).members, VerdictJson(q).members;
      assert a[0] == b[0] && a[1] == b[1];
      var x, y := ChecksJson(r.checks), ChecksJson(q.checks);
      assert x == y && |r.checks| == |x| == |y| == |q.checks|;
      forall k | 0 <= k < |x| ensures r.checks[k] == q.checks[k] {
        assert x[k] == y[k];
        var m, n := CheckJson(r.checks[k]).members, CheckJson(q.checks[k]).members;
        assert m[0] == n[0] && m[1] == n[1] && m[2] == n[2];
        assert |CheckName(r.checks[k].check)| == |CheckName(q.checks[k].check)|;
      }
    }
  }

  // ---------- splitting the log ----------

  predicate IsVerifyAction(a: AuditAction) {
    a == VerifyPassed || a == VerifyFailed
  }

  function ToDisposition(e: AuditEntry): ManifestDisposition
    requires e.spanId.Some?
  {
    ManifestDisposition(e.spanId.value, e.action, e.category, e.textHash, e.reviewerId, e.createdAt)
  }

  function ToLifecycle(e: AuditEntry): ManifestLifecycleEvent {
    ManifestLifecycleEvent(e.action, e.reviewerId, e.createdAt)
  }

  /** The listed disposition says what the entry recorded, the digest of the span's text included. */
  ghost predicate TellsDecision(d: ManifestDisposition, e: AuditEntry) {
    && e.spanId == Some(d.spanId) && d.textDigest == e.textHash
    && d.action == e.action && d.category == e.category
    && d.reviewerId == e.reviewerId && d.disposedAt == e.createdAt
  }

  /** The listed event says what the job-level entry recorded. */
  ghost predicate TellsEvent(d: ManifestLifecycleEvent, e: AuditEntry) {
    d.action == e.action && d.reviewerId == e.reviewerId && d.createdAt == e.createdAt
  }

  datatype Split = Split(dispositions: seq<ManifestDisposition>, lifecycle: seq<ManifestLifecycleEvent>, summary: Json)

  /** None when a verify entry's category is not JSON, which raises. */
  function SplitOf(entries: seq<AuditEntry>): Option<Split> {
    if entries == [] then Some(Split([], [], JObj([]))) else
    var e := entries[|entries| - 1];
    match SplitOf(entries[..|entries| - 1])
    case None => None
    case Some(s) =>
      var listed := if e.spanId.Some? then s.(dispositions := s.dispositions + [ToDisposition(e)])
                    else s.(lifecycle := s.lifecycle + [ToLifecycle(e)]);
      if !IsVerifyAction(e.action) then Some(listed)
      else match LoadJson(e.category)
           case None => None
           case Some(v) => Some(listed.(summary := v))
  }

  method SplitEntries(entries: seq<AuditEntry>) returns (r: Option<Split>)
    ensures r == SplitOf(entries)
  {
    var dispositions: seq<ManifestDisposition> := [];
    var lifecycle: seq<ManifestLifecycleEvent> := [];
    var summary := JObj([]);
    assert entries[..|entries|] == entries;
    for k := 0 to |entries|
      invariant SplitOf(entries[..k]) == Some(Split(dispositions, lifecycle, summary))
    {
      var e := entries[k];
      assert entries[..k + 1][..k] == entries[..k];
      if e.spanId.Some? { dispositions := dispositions + [ToDisposition(e)]; }
      else { lifecycle := lifecycle + [ToLifecycle(e)]; }
      if IsVerifyAction(e.action) {
        var parsed := LoadJson(e.category);
        if parsed.None? {
          SplitFails(entries, k);
          return None;
        }
        summary := parsed.value;
      }
    }
    r := Some(Split(dispositions, lifecycle, summary));
  }

  lemma {:induction false} SplitFails(entries: seq<AuditEntry>, k: nat)
    requires k < |entries| && IsVerifyAction(entries[k].action) && LoadJson(entries[k].category).None?
    ensures SplitOf(entries).None?
    decreases |entries|
  {
    if k < |entries| - 1 { SplitFails(entries[..|entries| - 1], k); }
  }

  /** The positions of the span-level entries, and of the others, in order. */
  ghost function SpanEntries(entries: seq<AuditEntry>): (r: seq<nat>)
    ensures Ascending(r) && forall x: nat :: x in r <==> x < |entries| && entries[x].spanId.Some?
  {
    Select((k: nat) => k < |entries| && entries[k].spanId.Some?, |entries|)
  }

  ghost function JobEntries(entries: seq<AuditEntry>): (r: seq<nat>)
    ensures Ascending(r) && forall x: nat :: x in r <==> x < |entries| && entries[x].spanId.None?
  {
    Select((k: nat) => k < |entries| && entries[k].spanId.None?, |entries|)
  }

  /** s lists exactly the entries at these positions, in this order. */
  ghost predicate ListsDispositions(s: seq<ManifestDisposition>, entries: seq<AuditEntry>, at: seq<nat>) {
    |s| == |at| && forall k :: 0 <= k < |at| ==>
      at[k] < |entries| && TellsDecision(s[k], entries[at[k]])
  }

  ghost predicate ListsLifecycle(s: seq<ManifestLifecycleEvent>, entries: seq<AuditEntry>, at: seq<nat>) {
    |s| == |at| && forall k :: 0 <= k < |at| ==> at[k] < |entries| && TellsEvent(s[k], entries[at[k]])
  }

  lemma PositionsOneMore(entries: seq<AuditEntry>)
    requires entries != []
    ensures var init, n := entries[..|entries| - 1], |entries| - 1;
            && SpanEntries(entries) == SpanEntries(init) + (if entries[n].spanId.Some? then [n] else [])
            && JobEntries(entries) == JobEntries(init) + (if entries[n].spanId.None? then [n] else [])
  {
    var init, n := entries[..|entries| - 1], |entries| - 1;
    SelectCongruent((k: nat) => k < |entries| && entries[k].spanId.Some?,
                    (k: nat) => k < |init| && init[k].spanId.Some?, n);
    SelectCongruent((k: nat) => k < |entries| && entries[k].spanId.None?,
                    (k: nat) => k < |init| && init[k].spanId.None?, n);
  }

  lemma ListOneMore(entries: seq<AuditEntry>, ds: seq<ManifestDisposition>, atD: seq<nat>,
                    ls: seq<ManifestLifecycleEvent>, atL: seq<nat>)
    requires entries != [] && ListsDispositions(ds, entries[..|entries| - 1], atD)
    requires ListsLifecycle(ls, entries[..|entries| - 1], atL)
    ensures ListsDispositions(ds, entries, atD) && ListsLifecycle(ls, entries, atL)
    ensures var e := entries[|entries| - 1];
            && (e.spanId.Some? ==> ListsDispositions(ds + [ToDisposition(e)], entries, atD + [|entries| - 1]))
            && ListsLifecycle(ls + [ToLifecycle(e)], entries, atL + [|entries| - 1])
  {
  }

  lemma {:induction false} SplitStep(entries: seq<AuditEntry>)
    requires entries != [] && SplitOf(entries).Some?
    ensures var e, init := entries[|entries| - 1], SplitOf(entries[..|entries| - 1]);
            && init.Some?
            && SplitOf(entries).value.dispositions
                == init.value.dispositions + (if e.spanId.Some? then [ToDisposition(e)] else [])
            && SplitOf(entries).value.lifecycle
                == init.value.lifecycle + (if e.spanId.None? then [ToLifecycle(e)] else [])
  {
  }

  /**
   * The split is a stable partition: the span-level entries go, in order, to the dispositions, all
   * others, in order, to the lifecycle events, and together they count every entry once.
   */
  lemma {:induction false} SplitIsAStablePartition(entries: seq<AuditEntry>)
    requires SplitOf(entries).Some?
    ensures ListsDispositions(SplitOf(entries).value.dispositions, entries, SpanEntries(entries))
    ensures ListsLifecycle(SplitOf(entries).value.lifecycle, entries, JobEntries(entries))
    ensures |SpanEntries(entries)| + |JobEntries(entries)| == |entries|
  {
    if entries != [] {
      var init, last := entries[..|entries| - 1], entries[|entries| - 1];
      SplitIsAStablePartition(init);
      PositionsOneMore(entries);
      ListOneMore(entries, SplitOf(init).value.dispositions, SpanEntries(init), SplitOf(init).value.lifecycle,
                  JobEntries(init));
      SplitStep(entries);
    }
  }

  /** Splitting raises exactly when some verify entry carries text that is not JSON. */
  lemma {:induction false} SplitRaisesIff(entries: seq<AuditEntry>)
    ensures SplitOf(entries).None?
            <==> exists e :: e in entries && IsVerifyAction(e.action) && LoadJson(e.category).None?
  {
    if entries != [] {
      SplitRaisesIff(entries[..|entries| - 1]);
      assert entries == entries[..|entries| - 1] + [entries[|entries| - 1]];
    }
  }

  /** The summary is the decoded text of the last verify entry. */
  lemma {:induction false} SummaryIsLastVerdict(entries: seq<AuditEntry>, k: nat)
    requires SplitOf(entries).Some? && k < |entries| && IsVerifyAction(entries[k].action)
    requires forall j :: k < j < |entries| ==> !IsVerifyAction(entries[j].action)
    ensures LoadJson(entries[k].category) == Some(SplitOf(entries).value.summary)
    decreases |entries|
  {
    if k < |entries| - 1 { SummaryIsLastVerdict(entries[..|entries| - 1], k); }
  }

  function DispositionList(entries: seq<AuditEntry>): (r: seq<ManifestDisposition>)
    requires forall k :: 0 <= k < |entries| ==> entries[k].spanId.Some?
    ensures |r| == |entries| && forall k :: 0 <= k < |r| ==> r[k] == ToDisposition(entries[k])
  {
    seq(|entries|, k requires 0 <= k < |entries| => ToDisposition(entries[k]))
  }

  function LifecycleList(entries: seq<AuditEntry>): (r: seq<ManifestLifecycleEvent>)
    ensures |r| == |entries| && forall k :: 0 <= k < |r| ==> r[k] == ToLifecycle(entries[k])
  {
    seq(|entries|, k requires 0 <= k < |entries| => ToLifecycle(entries[k]))
  }

  ghost predicate AllReview(entries: seq<AuditEntry>) {
    forall k :: 0 <= k < |entries| ==>
        entries[k].spanId.Some? && IsReviewVerb(entries[k].action) && entries[k].textHash.Some?
  }

  /** A log of review entries is listed entry for entry, in order. */
  lemma {:induction false} SplitOfReview(entries: seq<AuditEntry>)
    requires AllReview(entries)
    ensures SplitOf(entries) == Some(Split(DispositionList(entries), [], JObj([])))
  {
    if entries != [] {
      var init := entries[..|entries| - 1];
      SplitOfReview(init);
      assert DispositionList(entries) == DispositionList(init) + [ToDisposition(entries[|entries| - 1])];
    }
  }

  lemma SplitOneMore(entries: seq<AuditEntry>, e: AuditEntry, s: Split)
    requires SplitOf(entries) == Some(s) && e.spanId.None?
    ensures !IsVerifyAction(e.action) ==>
              SplitOf(entries + [e]) == Some(s.(lifecycle := s.lifecycle + [ToLifecycle(e)]))
    ensures IsVerifyAction(e.action) && LoadJson(e.category).Some? ==>
              SplitOf(entries + [e]) == Some(s.(lifecycle := s.lifecycle + [ToLifecycle(e)],
                                                summary := LoadJson(e.category).value))
  {
    assert (entries + [e])[..|entries|] == entries;
  }
}
