/**
 * One job's life as a transition system: each action is one HTTP request, one task delivery or
 * one late failure, and each database transaction is atomic (`tasks/`, `api/jobs.py`,
 * `services/redaction_job_service.py`).
 */
module Pipeline {
  import opened Basics
  import opened Json
  import opened TextLayer
  import opened Dedupe
  import opened AuditChain
  import opened BurnIn
  import opened VerifyGate
  import opened ReviewStore
  import opened Manifest

  datatype JobStatus = Uploaded | Ingested | Detected | InReview | Applying | Verified | Exported | Failed

  function ValidTransitions(s: JobStatus): set<JobStatus> {
    match s
    case Uploaded => {Ingested, Failed}
    case Ingested => {Detected, Failed}
    case Detected => {InReview, Failed}
    case InReview => {Applying, Failed}
    case Applying => {JobStatus.Verified, Failed}
    case Verified => {JobStatus.Exported, Failed}
    case Exported => {}
    case Failed => {}
  }

  /** The outside world: identities, and the functions of libraries the service calls. */
  datatype Env = Env(
    jobId: Uuid, documentId: Uuid, organizationId: Uuid,
    hash: Hash, normalize: string -> string, sha256: Bytes -> string,
    renderer: Renderer, read: Bytes -> Option<Reading>, score: (string, string) -> real)

  function LedgerOf(env: Env): Ledger { Ledger(env.hash, env.normalize, env.jobId, env.organizationId) }

  function GateOf(env: Env): Gate { Gate(env.read, env.normalize, (s: string) => env.hash(s), env.score) }

  // ---------- object keys ----------

  function OriginalKey(env: Env): string { "documents/" + UuidText(env.documentId) + "/original.pdf" }
  function RedactedKey(env: Env): string { "jobs/" + UuidText(env.jobId) + "/redacted.pdf" }
  function ManifestKey(env: Env): string { "jobs/" + UuidText(env.jobId) + "/manifest.json" }
  function PageKey(env: Env, page: nat): string {
    "documents/" + UuidText(env.documentId) + "/pages/" + Decimal(page)
  }

  function RasterKey(env: Env, page: nat): string { PageKey(env, page) + "/raster.png" }
  function TextLayerKey(env: Env, page: nat): string { PageKey(env, page) + "/text_layer.json" }

  // ---------- state ----------

  datatype Tables = Tables(status: JobStatus, store: Store, redactedKey: Option<string>)

  datatype Blob = PdfBlob(pdf: Bytes) | ManifestBlob(manifest: ExportManifest) | PageArtifact

  /**
   * Committed tables, the object store (which no rollback undoes), and task failures whose fail
   * step has yet to run.
   */
  datatype World = World(tables: Tables, objects: map<string, Blob>, pendingFailures: nat)

  function Created(env: Env, original: Bytes): World {
    World(Tables(Uploaded, Store({}, map[], map[], []), None), map[OriginalKey(env) := PdfBlob(original)], 0)
  }

  // ---------- transitions ----------

  datatype TransitionError = InvalidTransition | UndispositionedSpans

  predicate HasUndispositioned(s: Store) {
    exists id :: id in s.spans && id !in s.dispositions
  }

  function Transition(t: Tables, to: JobStatus): Result<Tables, TransitionError> {
    if to !in ValidTransitions(t.status) then Err(InvalidTransition)
    else if to == Applying && HasUndispositioned(t.store) then Err(UndispositionedSpans)
    else Ok(t.(status := to))
  }

  // ---------- detection ----------

  /** One page's model with the candidates each tier found on it. */
  datatype PageDetection = PageDetection(page: PageModel, tier1: seq<CandidateSpan>, tier2: seq<CandidateSpan>)

  function RowOf(pageNumber: int, c: CandidateSpan): SpanRow {
    SpanRow(pageNumber, c.bboxes, c.text, c.category, c.sourceTier, Some(c.confidence))
  }

  function RowsOf(pageNumber: int, cs: seq<CandidateSpan>): (r: seq<SpanRow>)
    ensures |r| == |cs| && forall k :: 0 <= k < |r| ==> r[k] == RowOf(pageNumber, cs[k])
  {
    seq(|cs|, k requires 0 <= k < |cs| => RowOf(pageNumber, cs[k]))
  }

  /** The surviving candidates of all pages, in order. */
  ghost function DetectedRows(pages: seq<PageDetection>): seq<SpanRow> {
    if pages == [] then [] else
    var p := pages[|pages| - 1];
    DetectedRows(pages[..|pages| - 1]) + RowsOf(p.page.pageNumber, Deduped(p.page, p.tier1, p.tier2))
  }

  function PageNumbers(rows: seq<SpanRow>): set<int> {
    set k | 0 <= k < |rows| :: rows[k].page
  }

  /** The database's id generator; the primary key rejects a repeated id. */
  predicate FreshIds(spans: map<Uuid, SpanRow>, newId: nat -> Uuid, n: nat) {
    && (forall k :: 0 <= k < n ==> newId(k) !in spans)
    && (forall a, b :: 0 <= a < b < n ==> newId(a) != newId(b))
  }

  function InsertRows(spans: map<Uuid, SpanRow>, newId: nat -> Uuid, rows: seq<SpanRow>): map<Uuid, SpanRow> {
    if rows == [] then spans
    else InsertRows(spans, newId, rows[..|rows| - 1])[newId(|rows| - 1) := rows[|rows| - 1]]
  }

  // ---------- projection ----------

  /** Page number first, then span id. */
  predicate Before(spans: map<Uuid, SpanRow>, a: Uuid, b: Uuid)
    requires a in spans && b in spans
  {
    spans[a].page < spans[b].page || (spans[a].page == spans[b].page && a < b)
  }

  predicate IsFirst(spans: map<Uuid, SpanRow>, ids: set<Uuid>, first: Uuid)
    requires ids <= spans.Keys
  {
    first in ids && forall o :: o in ids ==> o == first || Before(spans, first, o)
  }

  lemma {:induction false} FirstExists(spans: map<Uuid, SpanRow>, ids: set<Uuid>)
    requires ids != {} && ids <= spans.Keys
    ensures exists first :: IsFirst(spans, ids, first)
    decreases |ids|
  {
    var x :| x in ids;
    var rest := ids - {x};
    assert ids == rest + {x};
    if rest == {} {
      assert IsFirst(spans, ids, x);
    } else {
      FirstExists(spans, rest);
      var r :| IsFirst(spans, rest, r);
      assert IsFirst(spans, ids, if Before(spans, r, x) then r else x);
    }
  }

  /** The ids in query order. */
  function Ordered(spans: map<Uuid, SpanRow>, ids: set<Uuid>): (r: seq<Uuid>)
    requires ids <= spans.Keys
    ensures forall id :: id in r <==> id in ids
    decreases |ids|
  {
    if ids == {} then [] else
    FirstExists(spans, ids);
    var first: Uuid :| first in ids && IsFirst(spans, ids, first);
    [first] + Ordered(spans, ids - {first})
  }

  function ApprovedIds(s: Store): set<Uuid> {
    set id | id in s.dispositions && id in s.spans && s.dispositions[id].action == Redact
  }

  function Project(spans: map<Uuid, SpanRow>, ids: seq<Uuid>): (r: seq<ApprovedSpan>)
    requires forall id :: id in ids ==> id in spans
    ensures |r| == |ids| && forall k :: 0 <= k < |r| ==>
              r[k] == ApprovedSpan(spans[ids[k]].page, spans[ids[k]].bboxes, spans[ids[k]].text)
  {
    if ids == [] then [] else
    assert ids[0] in ids;
    assert forall id :: id in ids[1..] ==> id in ids;
    [ApprovedSpan(spans[ids[0]].page, spans[ids[0]].bboxes, spans[ids[0]].text)] + Project(spans, ids[1..])
  }

  /** The approved spans of the document, ordered by page and id. */
  function ApprovedSpans(s: Store): seq<ApprovedSpan> {
    Project(s.spans, Ordered(s.spans, ApprovedIds(s)))
  }

  // ---------- actions ----------

  /** Where a task or request is cut short by a failure of something it calls. */
  datatype Fault = NoFault | DownloadFails | UploadFails | CommitFails

  datatype Action =
    | DeliverIngest(staged: nat, ok: bool)
    | DeliverDetect(pages: seq<PageDetection>, newId: nat -> Uuid, ok: bool)
    | SubmitDispositions(subs: seq<Submission>, reviewer: Uuid)
    | RequestApply
    | DeliverApply(requester: Option<Uuid>, started: Stamp, concluded: Stamp, fault: Fault)
    | FailLate
    | RequestExport(exporter: Uuid, stamp: Stamp, generatedAt: string, fault: Fault)

  function Raised(w: World): World {
    w.(pendingFailures := w.pendingFailures + 1)
  }

  /** The objects after staging the artifacts of pages 1..n. */
  function Staged(env: Env, objects: map<string, Blob>, n: nat): map<string, Blob> {
    if n == 0 then objects
    else Staged(env, objects, n - 1)[RasterKey(env, n) := PageArtifact][TextLayerKey(env, n) := PageArtifact]
  }

  function Ingest(env: Env, w: World, staged: nat, ok: bool): World {
    if w.tables.status != Uploaded then w
    else
      var uploaded := w.(objects := Staged(env, w.objects, staged));
      if !ok then Raised(uploaded) else
      match Transition(w.tables, Ingested)
      case Err(_) => Raised(uploaded)
      case Ok(t) => uploaded.(tables := t)
  }

  ghost function Detect(env: Env, w: World, pages: seq<PageDetection>, newId: nat -> Uuid, ok: bool): World {
    if w.tables.status != Ingested then w
    else
      var s, rows := w.tables.store, DetectedRows(pages);
      if !ok || !FreshIds(s.spans, newId, |rows|) then Raised(w)
      else
        var found := s.(pages := s.pages + PageNumbers(rows), spans := InsertRows(s.spans, newId, rows));
        match Transition(w.tables.(store := found), Detected)
        case Err(_) => Raised(w)
        case Ok(t) =>
          match Transition(t, InReview)
          case Err(_) => Raised(w)
          case Ok(u) => w.(tables := u)
  }

  predicate ValidRequest(subs: seq<Submission>) {
    subs != [] && forall k :: 0 <= k < |subs| ==> subs[k].item.AddManualSpanItem? ==> subs[k].item.pageNumber >= 1
  }

  function Dispose(env: Env, w: World, subs: seq<Submission>, reviewer: Uuid): World {
    if !ValidRequest(subs) || w.tables.status != InReview then w
    else match ApplyBatch(LedgerOf(env), w.tables.store, subs, reviewer)
         case Err(_) => w
         case Ok(o) => w.(tables := w.tables.(store := o.store))
  }

  function StartApply(env: Env, w: World): World {
    match Transition(w.tables, Applying)
    case Err(_) => w
    case Ok(t) => w.(tables := t)
  }

  const JOB_LIFECYCLE_CATEGORY := "job_lifecycle"

  function JobEvent(a: AuditAction, category: string, reviewer: Uuid): AuditEvent {
    AuditEvent(a, category, None, reviewer, None)
  }

  function Log(env: Env, t: Tables, event: AuditEvent, stamp: Stamp): Tables {
    t.(store := t.store.(log := Appended(LedgerOf(env), t.store.log, event, stamp)))
  }

  function OriginalPdf(env: Env, objects: map<string, Blob>): Option<Bytes> {
    if OriginalKey(env) in objects && objects[OriginalKey(env)].PdfBlob? then Some(objects[OriginalKey(env)].pdf)
        else None
  }

  function ConcludeApply(env: Env, w: World, result: ApplyResult, reviewer: Uuid, started: Stamp, concluded: Stamp,
                         fault: Fault): World {
    var t := Log(env, w.tables, JobEvent(ApplyStarted, JOB_LIFECYCLE_CATEGORY, reviewer), started);
    if !Passed(result) then
      var u := Log(env, t, JobEvent(VerifyFailed, VerdictCategory(result.verify), reviewer), concluded);
      match Transition(u, Failed)
      case Err(_) => Raised(w)
      case Ok(v) => if fault == CommitFails then Raised(w) else w.(tables := v)
    else if fault == UploadFails then Raised(w)
    else
      var u := Log(env, t, JobEvent(VerifyPassed, VerdictCategory(result.verify), reviewer), concluded);
      var stored := w.(objects := w.objects[RedactedKey(env) := PdfBlob(result.pdf)]);
      match Transition(u.(redactedKey := Some(RedactedKey(env))), JobStatus.Verified)
      case Err(_) => Raised(stored)
      case Ok(v) => if fault == CommitFails then Raised(stored) else stored.(tables := v)
  }

  function RunApply(env: Env, w: World, requester: Option<Uuid>, started: Stamp, concluded: Stamp,
                    fault: Fault): World {
    if w.tables.status != Applying then w
    else if requester.None? || fault == DownloadFails then Raised(w)
    else match OriginalPdf(env, w.objects)
         case None => Raised(w)
         case Some(original) =>
           match Applied(env.renderer, GateOf(env), original, ApprovedSpans(w.tables.store))
           case None => Raised(w)
           case Some(result) => ConcludeApply(env, w, result, requester.value, started, concluded, fault)
  }

  /** The failure step of a task runs in a session of its own, at any later time. */
  function FailJob(w: World): World {
    if w.pendingFailures == 0 then w
    else
      var seen := w.(pendingFailures := w.pendingFailures - 1);
      if Failed !in ValidTransitions(w.tables.status) then seen
      else match Transition(w.tables, Failed)
           case Err(_) => seen
           case Ok(t) => seen.(tables := t)
  }

  datatype Bundle = Bundle(redacted: Bytes, manifest: ExportManifest)

  /** The manifest of a job, or None when assembling it raises. */
  function Assembled(env: Env, w: World, redacted: Bytes, generatedAt: string): Option<ExportManifest> {
    match (OriginalPdf(env, w.objects), SplitOf(w.tables.store.log))
    case (Some(original), Some(s)) =>
      Some(ExportManifest(env.jobId, env.documentId, env.sha256(original), env.sha256(redacted),
                          s.dispositions, s.lifecycle, s.summary,
                          |w.tables.store.log|, Head(w.tables.store.log), true, generatedAt))
    case _ => None
  }

  /** What an export request would bundle: guards, the chain gate, the stored bytes, the manifest. */
  function Bundled(env: Env, w: World, generatedAt: string): Option<Bundle> {
    if w.tables.status != JobStatus.Verified && w.tables.status != JobStatus.Exported then None
    else if w.tables.redactedKey.None? then None
    else if !ChainVerifies(env.hash, w.tables.store.log) then None
    else
      var key := w.tables.redactedKey.value;
      if key !in w.objects || !w.objects[key].PdfBlob? then None
      else match Assembled(env, w, w.objects[key].pdf, generatedAt)
           case None => None
           case Some(m) => Some(Bundle(w.objects[key].pdf, m))
  }

  function Export(env: Env, w: World, exporter: Uuid, stamp: Stamp, generatedAt: string, fault: Fault)
    : (World, Option<Bundle>)
  {
    if fault == DownloadFails then (w, None) else
    match Bundled(env, w, generatedAt)
    case None => (w, None)
    case Some(b) =>
      if fault == UploadFails then (w, None)
      else
        var stored := w.(objects := w.objects[ManifestKey(env) := ManifestBlob(b.manifest)]);
        if w.tables.status != JobStatus.Verified then (stored, Some(b))
        else
          match Transition(Log(env, w.tables, JobEvent(AuditAction.Exported, JOB_LIFECYCLE_CATEGORY, exporter), stamp),
                           JobStatus.Exported)
          case Err(_) => (stored, None)
          case Ok(t) => if fault == CommitFails then (stored, None) else (stored.(tables := t), Some(b))
  }

  ghost function Step(env: Env, w: World, a: Action): World {
    match a
    case DeliverIngest(staged, ok) => Ingest(env, w, staged, ok)
    case DeliverDetect(pages, newId, ok) => Detect(env, w, pages, newId, ok)
    case SubmitDispositions(subs, reviewer) => Dispose(env, w, subs, reviewer)
    case RequestApply => StartApply(env, w)
    case DeliverApply(requester, started, concluded, fault) => RunApply(env, w, requester, started, concluded, fault)
    case FailLate => FailJob(w)
    case RequestExport(exporter, stamp, generatedAt, fault) => Export(env, w, exporter, stamp, generatedAt, fault).0
  }

  /** The world after a job is created for a document and then a sequence of actions happens, in that serial order. */
  ghost function Run(env: Env, original: Bytes, actions: seq<Action>): World {
    if actions == [] then Created(env, original)
    else Step(env, Run(env, original, actions[..|actions| - 1]), actions[|actions| - 1])
  }
}
