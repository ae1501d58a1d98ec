/** Spans, dispositions and the batch of reviewer verbs (`services/jobs_service.py`). */
module ReviewStore {
  import opened Basics
  import opened TextLayer
  import opened Dedupe
  import opened AuditChain

  datatype DispositionAction = Redact | Keep

  datatype SpanRow = SpanRow(page: int, bboxes: seq<BBox>, text: string, category: string, sourceTier: SourceTier,
                             confidence: Option<real>)

  datatype DispositionRow = DispositionRow(action: DispositionAction, reviewerId: Uuid, reason: Option<string>)

  /** The rows of one job's document: page numbers, spans by id, at most one disposition per span, and the audit log. */
  datatype Store = Store(pages: set<int>, spans: map<Uuid, SpanRow>, dispositions: map<Uuid, DispositionRow>,
                         log: seq<AuditEntry>)

  datatype Item =
    | ApproveItem(spanId: Uuid, reason: Option<string>)
    | RejectItem(spanId: Uuid, reason: Option<string>)
    | EditItem(spanId: Uuid, text: string, newBBoxes: Option<seq<BBox>>, reason: Option<string>)
    | AddManualSpanItem(pageNumber: int, bboxes: seq<BBox>, text: string, category: string, reason: Option<string>)

  /** An item with what the database and clock will supply while it is processed. */
  datatype Submission = Submission(item: Item, newSpanId: Uuid, stamp: Stamp)

  datatype BatchError = SpanNotFound | DuplicateKey

  datatype Effect = Effect(store: Store, changed: bool)

  datatype Outcome = Outcome(store: Store, applied: nat, skipped: nat, spansCreated: nat)

  function DesiredAction(item: Item): DispositionAction {
    if item.RejectItem? then Keep else Redact
  }

  function AuditVerb(item: Item): AuditAction {
    match item
    case ApproveItem(_, _) => Approved
    case RejectItem(_, _) => Rejected
    case EditItem(_, _, _, _) => Edited
    case AddManualSpanItem(_, _, _, _, _) => ManualSpanAdded
  }

  predicate DispositionNeedsChange(existing: Option<DispositionAction>, desired: DispositionAction, isEdit: bool,
                                   currentText: string, newText: Option<string>) {
    existing != Some(desired) || (isEdit && Some(currentText) != newText)
  }

  predicate BBoxesDiffer(current: seq<BBox>, new_: seq<BBox>) {
    current != new_
  }

  function ExistingAction(s: Store, id: Uuid): Option<DispositionAction> {
    if id in s.dispositions then Some(s.dispositions[id].action) else None
  }

  /** Whether an approve, reject or edit item would write anything. */
  predicate NeedsChange(s: Store, item: Item)
    requires !item.AddManualSpanItem? && item.spanId in s.spans
  {
    var span := s.spans[item.spanId];
    || DispositionNeedsChange(ExistingAction(s, item.spanId), DesiredAction(item), item.EditItem?, span.text,
                              if item.EditItem? then Some(item.text) else None)
    || (item.EditItem? && item.newBBoxes.Some? && BBoxesDiffer(span.bboxes, item.newBBoxes.value))
  }

  function EditedSpan(span: SpanRow, item: Item): SpanRow {
    if item.EditItem? then
      span.(text := item.text, bboxes := if item.newBBoxes.Some? then item.newBBoxes.value else span.bboxes)
    else span
  }

  function SpanEvent(action: AuditAction, id: Uuid, span: SpanRow, reviewer: Uuid): AuditEvent {
    AuditEvent(action, span.category, Some(span.text), reviewer, Some(id))
  }

  function ApplyExisting(l: Ledger, s: Store, item: Item, reviewer: Uuid, stamp: Stamp): Result<Effect, BatchError>
    requires !item.AddManualSpanItem?
  {
    var id := item.spanId;
    if id !in s.spans then Err(SpanNotFound)
    else if !NeedsChange(s, item) then Ok(Effect(s, false))
    else
      var span := EditedSpan(s.spans[id], item);
      Ok(Effect(Store(s.pages, s.spans[id := span],
                      s.dispositions[id := DispositionRow(DesiredAction(item), reviewer, item.reason)],
                      Appended(l, s.log, SpanEvent(AuditVerb(item), id, span, reviewer), stamp)), true))
  }

  function AddManual(l: Ledger, s: Store, item: Item, reviewer: Uuid, newSpanId: Uuid,
                     stamp: Stamp): Result<Store, BatchError>
    requires item.AddManualSpanItem?
  {
    if newSpanId in s.spans then Err(DuplicateKey)
    else
      var span := SpanRow(item.pageNumber, item.bboxes, item.text, item.category, Manual, None);
      Ok(Store(s.pages + {item.pageNumber}, s.spans[newSpanId := span],
               s.dispositions[newSpanId := DispositionRow(Redact, reviewer, item.reason)],
               Appended(l, s.log, SpanEvent(ManualSpanAdded, newSpanId, span, reviewer), stamp)))
  }

  function ApplyOne(l: Ledger, s: Store, sub: Submission, reviewer: Uuid): Result<Effect, BatchError> {
    if sub.item.AddManualSpanItem? then
      match AddManual(l, s, sub.item, reviewer, sub.newSpanId, sub.stamp)
      case Err(e) => Err(e)
      case Ok(t) => Ok(Effect(t, true))
    else ApplyExisting(l, s, sub.item, reviewer, sub.stamp)
  }

  /** The counts once one more item has had its effect. */
  function Tally(o: Outcome, item: Item, effect: Effect): Outcome {
    Outcome(effect.store,
            o.applied + (if effect.changed then 1 else 0),
            o.skipped + (if effect.changed then 0 else 1),
            o.spansCreated + (if item.AddManualSpanItem? then 1 else 0))
  }

  /** The whole batch in order, stopping at the first error. */
  function ApplyBatch(l: Ledger, s: Store, subs: seq<Submission>, reviewer: Uuid): Result<Outcome, BatchError> {
    if subs == [] then Ok(Outcome(s, 0, 0, 0)) else
    var last := subs[|subs| - 1];
    match ApplyBatch(l, s, subs[..|subs| - 1], reviewer)
    case Err(e) => Err(e)
    case Ok(o) =>
      match ApplyOne(l, o.store, last, reviewer)
      case Err(e) => Err(e)
      case Ok(effect) => Ok(Tally(o, last.item, effect))
  }

  // ---------- the log refines the table ----------

  predicate IsReviewVerb(a: AuditAction) {
    a in {Approved, Rejected, Edited, ManualSpanAdded}
  }

  /** The decision an audited verb records. */
  function Decision(a: AuditAction): DispositionAction {
    if a == Rejected then Keep else Redact
  }

  /** The last span-level entry for each span. */
  ghost function Replay(log: seq<AuditEntry>): map<Uuid, AuditEntry> {
    if log == [] then map[] else
    var before, e := Replay(log[..|log| - 1]), log[|log| - 1];
    if e.spanId.Some? then before[e.spanId.value := e] else before
  }

  /** The entry records the decision, its reviewer, and the digest of the span's present text. */
  ghost predicate Records(l: Ledger, e: AuditEntry, span: SpanRow, d: DispositionRow) {
    && IsReviewVerb(e.action)
    && Decision(e.action) == d.action
    && e.reviewerId == d.reviewerId
    && e.category == span.category
    && e.textHash == Some(l.hash(l.normalize(span.text)))
  }

  /** Replaying the log gives back the disposition table: the same spans, decisions and reviewers. */
  ghost predicate LogRefinesStore(l: Ledger, s: Store) {
    && Replay(s.log).Keys == s.dispositions.Keys
    && s.dispositions.Keys <= s.spans.Keys
    && forall id :: id in s.dispositions ==> Records(l, Replay(s.log)[id], s.spans[id], s.dispositions[id])
  }

  /** Spans lie on known pages. */
  ghost predicate OnPages(s: Store) {
    forall id :: id in s.spans ==> s.spans[id].page in s.pages
  }

  ghost predicate GoodStore(l: Ledger, s: Store) {
    GoodLog(l, s.log) && LogRefinesStore(l, s) && OnPages(s)
  }

  lemma ReplayAppended(l: Ledger, log: seq<AuditEntry>, event: AuditEvent, stamp: Stamp)
    ensures Replay(Appended(l, log, event, stamp))
         == if event.spanId.Some? then Replay(log)[event.spanId.value := NewEntry(l, NextChainLink(log), event, stamp)]
             else Replay(log)
  {
    var more := Appended(l, log, event, stamp);
    assert more[..|more| - 1] == log;
  }

  /** Writing a span, its disposition and the entry that records them, all at once. */
  ghost function Written(l: Ledger, s: Store, verb: AuditAction, id: Uuid, span: SpanRow, d: DispositionRow,
                         stamp: Stamp): Store {
    Store(s.pages + {span.page}, s.spans[id := span], s.dispositions[id := d],
          Appended(l, s.log, SpanEvent(verb, id, span, d.reviewerId), stamp))
  }

  lemma WritingKeepsGoodStore(l: Ledger, s: Store, verb: AuditAction, id: Uuid, span: SpanRow, d: DispositionRow,
                              stamp: Stamp)
    requires GoodStore(l, s) && IsReviewVerb(verb) && Decision(verb) == d.action
    ensures GoodStore(l, Written(l, s, verb, id, span, d, stamp))
  {
    var event := SpanEvent(verb, id, span, d.reviewerId);
    ReplayAppended(l, s.log, event, stamp);
    AppendKeepsGoodLog(l, s.log, event, stamp);
    assert Records(l, NewEntry(l, NextChainLink(s.log), event, stamp), span, d);
  }

  lemma ApplyOneKeepsGoodStore(l: Ledger, s: Store, sub: Submission, reviewer: Uuid)
    requires GoodStore(l, s) && ApplyOne(l, s, sub, reviewer).Ok?
    ensures GoodStore(l, ApplyOne(l, s, sub, reviewer).value.store)
  {
    var effect, item := ApplyOne(l, s, sub, reviewer).value, sub.item;
    if effect.changed {
      var id := if item.AddManualSpanItem? then sub.newSpanId else item.spanId;
      var span, d := effect.store.spans[id], effect.store.dispositions[id];
      assert item.AddManualSpanItem? || s.pages + {span.page} == s.pages;
      assert effect.store == Written(l, s, AuditVerb(item), id, span, d, sub.stamp);
      WritingKeepsGoodStore(l, s, AuditVerb(item), id, span, d, sub.stamp);
    }
  }

  lemma {:induction false} BatchKeepsGoodStore(l: Ledger, s: Store, subs: seq<Submission>, reviewer: Uuid)
    requires GoodStore(l, s) && ApplyBatch(l, s, subs, reviewer).Ok?
    ensures GoodStore(l, ApplyBatch(l, s, subs, reviewer).value.store)
  {
    if subs != [] {
      BatchKeepsGoodStore(l, s, subs[..|subs| - 1], reviewer);
      ApplyOneKeepsGoodStore(l, ApplyBatch(l, s, subs[..|subs| - 1], reviewer).value.store, subs[|subs| - 1], reviewer);
    }
  }

  // ---------- what an edit leaves of the text it overwrites ----------

  /** Some entry for the span carries the digest of this text. */
  ghost predicate DigestLogged(l: Ledger, log: seq<AuditEntry>, id: Uuid, text: string) {
    exists k :: 0 <= k < |log| && log[k].spanId == Some(id) && log[k].textHash == Some(l.hash(l.normalize(text)))
  }

  lemma {:induction false} ReplayIsLogged(log: seq<AuditEntry>, id: Uuid)
    ensures id in Replay(log) <==> exists k :: 0 <= k < |log| && log[k].spanId == Some(id)
    ensures id in Replay(log) ==> Replay(log)[id] in log && Replay(log)[id].spanId == Some(id)
  {
    if log != [] {
      var init := log[..|log| - 1];
      ReplayIsLogged(init, id);
      assert forall k :: 0 <= k < |init| ==> init[k] == log[k];
    }
  }

  /**
   * An edit overwrites the span's text. The digest of what was there is in the log exactly when
   * the span had been disposed of before, or the new text has the same digest.
   */
  lemma EditKeepsOldDigestIff(l: Ledger, s: Store, item: Item, reviewer: Uuid, stamp: Stamp)
    requires GoodStore(l, s) && item.EditItem? && item.spanId in s.spans && NeedsChange(s, item)
    ensures var was, after := s.spans[item.spanId].text, ApplyExisting(l, s, item, reviewer, stamp).value.store;
            DigestLogged(l, after.log, item.spanId, was)
            <==> item.spanId in s.dispositions || l.hash(l.normalize(item.text)) == l.hash(l.normalize(was))
  {
    var id, after := item.spanId, ApplyExisting(l, s, item, reviewer, stamp).value.store;
    var last := after.log[|s.log|];
    assert last.spanId == Some(id) && last.textHash == Some(l.hash(l.normalize(item.text)));
    assert forall k :: 0 <= k < |s.log| ==> after.log[k] == s.log[k];
    ReplayIsLogged(s.log, id);
    if id in s.dispositions {
      assert Records(l, Replay(s.log)[id], s.spans[id], s.dispositions[id]);
      var k :| 0 <= k < |s.log| && s.log[k] == Replay(s.log)[id];
      assert after.log[k].spanId == Some(id);
    }
  }

  // ---------- batch laws ----------

  function ManualItems(subs: seq<Submission>): nat {
    if subs == [] then 0 else ManualItems(subs[..|subs| - 1]) + if subs[|subs| - 1].item.AddManualSpanItem? then 1
        else 0
  }

  /**
   * Every item is either applied or skipped; the log grows at its end by one entry per applied
   * item, the spans by one per manual item.
   */
  lemma {:induction false} BatchCounts(l: Ledger, s: Store, subs: seq<Submission>, reviewer: Uuid)
    requires ApplyBatch(l, s, subs, reviewer).Ok?
    ensures var o := ApplyBatch(l, s, subs, reviewer).value;
            && o.applied + o.skipped == |subs|
            && s.log <= o.store.log && |o.store.log| == |s.log| + o.applied
            && o.spansCreated == ManualItems(subs) <= o.applied
            && |o.store.spans| == |s.spans| + o.spansCreated
            && s.spans.Keys <= o.store.spans.Keys
            && (o.applied == 0 ==> o.store == s)
  {
    if subs != [] { BatchCounts(l, s, subs[..|subs| - 1], reviewer); }
  }

  /** The span is on the document, or an earlier item of the batch adds it. */
  ghost predicate KnownBefore(s: Store, subs: seq<Submission>, n: nat, id: Uuid)
    requires n <= |subs|
  {
    id in s.spans || exists k :: 0 <= k < n && subs[k].item.AddManualSpanItem? && subs[k].newSpanId == id
  }

  /** Item n names a span that is not there, or adds one under an id that is. */
  ghost predicate Refused(s: Store, subs: seq<Submission>, n: nat)
    requires n < |subs|
  {
    if subs[n].item.AddManualSpanItem? then KnownBefore(s, subs, n, subs[n].newSpanId)
        else !KnownBefore(s, subs, n, subs[n].item.spanId)
  }

  lemma ApplyOneFailsIff(l: Ledger, s: Store, sub: Submission, reviewer: Uuid)
    ensures ApplyOne(l, s, sub, reviewer).Err?
            <==> if sub.item.AddManualSpanItem? then sub.newSpanId in s.spans else sub.item.spanId !in s.spans
    ensures ApplyOne(l, s, sub, reviewer).Err? ==>
              ApplyOne(l, s, sub, reviewer).error == if sub.item.AddManualSpanItem? then DuplicateKey else SpanNotFound
    ensures ApplyOne(l, s, sub, reviewer).Ok? ==>
              ApplyOne(l, s, sub, reviewer).value.store.spans.Keys
                  == s.spans.Keys + if sub.item.AddManualSpanItem? then {sub.newSpanId} else {}
  {
  }

  lemma KnownOneMore(s: Store, subs: seq<Submission>, id: Uuid)
    requires subs != []
    ensures var init, last := subs[..|subs| - 1], subs[|subs| - 1];
            && (forall n: nat :: n <= |init| ==> KnownBefore(s, subs, n, id) == KnownBefore(s, init, n, id))
            && (KnownBefore(s, subs, |subs|, id)
                <==> KnownBefore(s, init, |init|, id) || (last.item.AddManualSpanItem? && last.newSpanId == id))
  {
    var init := subs[..|subs| - 1];
    assert forall k :: 0 <= k < |init| ==> subs[k] == init[k];
  }

  lemma RefusedOneMore(s: Store, subs: seq<Submission>, n: nat)
    requires n < |subs| - 1
    ensures Refused(s, subs, n) == Refused(s, subs[..|subs| - 1], n)
  {
    KnownOneMore(s, subs, subs[n].newSpanId);
    if !subs[n].item.AddManualSpanItem? { KnownOneMore(s, subs, subs[n].item.spanId); }
  }

  ghost predicate SomeRefused(s: Store, subs: seq<Submission>) {
    exists n: nat :: n < |subs| && Refused(s, subs, n)
  }

  lemma SomeRefusedOneMore(s: Store, subs: seq<Submission>)
    requires subs != []
    ensures SomeRefused(s, subs) <==> SomeRefused(s, subs[..|subs| - 1]) || Refused(s, subs, |subs| - 1)
  {
    var init := subs[..|subs| - 1];
    forall n: nat | n < |init| ensures Refused(s, subs, n) == Refused(s, init, n) { RefusedOneMore(s, subs, n); }
    if SomeRefused(s, subs) {
      var n: nat :| n < |subs| && Refused(s, subs, n);
      assert n < |init| ==> Refused(s, init, n);
    }
    if SomeRefused(s, init) {
      var n: nat :| n < |init| && Refused(s, init, n);
      assert Refused(s, subs, n);
    }
  }

  /**
   * A batch fails exactly when one of its items is refused; otherwise the spans are those there
   * before and those it adds.
   */
  lemma {:induction false} BatchFailsIffRefused(l: Ledger, s: Store, subs: seq<Submission>, reviewer: Uuid)
    ensures ApplyBatch(l, s, subs, reviewer).Err? <==> SomeRefused(s, subs)
    ensures ApplyBatch(l, s, subs, reviewer).Ok? ==>
              forall id :: id in ApplyBatch(l, s, subs, reviewer).value.store.spans
                  <==> KnownBefore(s, subs, |subs|, id)
  {
    if subs != [] {
      var init, last := subs[..|subs| - 1], subs[|subs| - 1];
      BatchFailsIffRefused(l, s, init, reviewer);
      SomeRefusedOneMore(s, subs);
      forall id: Uuid
        ensures KnownBefore(s, subs, |init|, id) == KnownBefore(s, init, |init|, id)
        ensures KnownBefore(s, subs, |subs|, id)
                <==> KnownBefore(s, init, |init|, id) || (last.item.AddManualSpanItem? && last.newSpanId == id)
      {
        KnownOneMore(s, subs, id);
      }
      if ApplyBatch(l, s, init, reviewer).Ok? {
        ApplyOneFailsIff(l, ApplyBatch(l, s, init, reviewer).value.store, last, reviewer);
      }
    }
  }

  // ---------- what one item does ----------

  /** The span already has the decision the item asks for and, for an edit, its text and any boxes it gives. */
  ghost predicate AlreadySo(s: Store, item: Item)
    requires !item.AddManualSpanItem? && item.spanId in s.spans
  {
    && item.spanId in s.dispositions
    && match item
       case ApproveItem(id, _) => s.dispositions[id].action == Redact
       case RejectItem(id, _) => s.dispositions[id].action == Keep
       case EditItem(id, text, boxes, _) =>
         && s.dispositions[id].action == Redact && s.spans[id].text == text
         && (boxes == None || boxes == Some(s.spans[id].bboxes))
       case _ => true
  }

  /** The span is what the item makes of it: an edit sets its text, and its boxes only if it gives any. */
  ghost predicate SpanFollows(was: SpanRow, item: Item, span: SpanRow) {
    && span.page == was.page && span.category == was.category
    && span.sourceTier == was.sourceTier && span.confidence == was.confidence
    && match item
       case EditItem(_, text, Some(boxes), _) => span.text == text && span.bboxes == boxes
       case EditItem(_, text, None, _) => span.text == text && span.bboxes == was.bboxes
       case _ => span.text == was.text && span.bboxes == was.bboxes
  }

  /** The decision and the audited verb are those of the item. */
  ghost predicate DecisionFollows(item: Item, reviewer: Uuid, d: DispositionRow, verb: AuditAction) {
    d.reviewerId == reviewer && d.reason == item.reason
    && match item
       case ApproveItem(_, _) => d.action == Redact && verb == Approved
       case RejectItem(_, _) => d.action == Keep && verb == Rejected
       case EditItem(_, _, _, _) => d.action == Redact && verb == Edited
       case AddManualSpanItem(_, _, _, _, _) => d.action == Redact && verb == ManualSpanAdded
  }

  /** Besides span id, its disposition and one more entry that records them, t is s. */
  ghost predicate OnlyChanged(l: Ledger, s: Store, t: Store, id: Uuid, reviewer: Uuid, stamp: Stamp) {
    && t.spans.Keys == s.spans.Keys + {id} && t.dispositions.Keys == s.dispositions.Keys + {id}
    && (forall o :: o in s.spans && o != id ==> t.spans[o] == s.spans[o])
    && (forall o :: o in s.dispositions && o != id ==> t.dispositions[o] == s.dispositions[o])
    && |t.log| == |s.log| + 1 && t.log[..|s.log|] == s.log
    && var e, span := t.log[|s.log|], t.spans[id];
       RecordsEvent(l, Head(s.log), |s.log|, AuditEvent(e.action, span.category, Some(span.text), reviewer, Some(id)),
                    stamp, e)
  }

  /**
   * An approve, reject or edit item of a known span writes nothing exactly when things already are
   * as it asks. Otherwise the span, its disposition and one new entry follow the item, and every
   * other row is as it was.
   */
  lemma ItemEffect(l: Ledger, s: Store, item: Item, reviewer: Uuid, stamp: Stamp)
    requires GoodLog(l, s.log) && !item.AddManualSpanItem? && item.spanId in s.spans
    ensures ApplyExisting(l, s, item, reviewer, stamp).Ok?
    ensures var effect := ApplyExisting(l, s, item, reviewer, stamp).value;
            var t, id := effect.store, item.spanId;
            && (effect.changed <==> !AlreadySo(s, item))
            && (!effect.changed ==> t == s)
            && (effect.changed ==>
                  && t.pages == s.pages && OnlyChanged(l, s, t, id, reviewer, stamp)
                  && SpanFollows(s.spans[id], item, t.spans[id])
                  && DecisionFollows(item, reviewer, t.dispositions[id], t.log[|s.log|].action))
  {
    hide OnlyChanged, SpanFollows, EditedSpan, NeedsChange, AlreadySo, Appended, GoodLog;
    ChangesUnlessAlreadySo(s, item);
    var id := item.spanId;
    var span, d := EditedSpan(s.spans[id], item), DispositionRow(DesiredAction(item), reviewer, item.reason);
    EditFollows(s.spans[id], item);
    WritesOnly(l, s, s.pages, AuditVerb(item), id, span, d, stamp);
  }

  lemma ChangesUnlessAlreadySo(s: Store, item: Item)
    requires !item.AddManualSpanItem? && item.spanId in s.spans
    ensures NeedsChange(s, item) <==> !AlreadySo(s, item)
  {
  }

  lemma EditFollows(was: SpanRow, item: Item)
    requires !item.AddManualSpanItem?
    ensures SpanFollows(was, item, EditedSpan(was, item))
  {
  }

  /** Writing one span, its disposition and an entry changes nothing else. */
  lemma WritesOnly(l: Ledger, s: Store, pages: set<int>, verb: AuditAction, id: Uuid, span: SpanRow,
                   d: DispositionRow, stamp: Stamp)
    requires GoodLog(l, s.log)
    ensures var log := Appended(l, s.log, SpanEvent(verb, id, span, d.reviewerId), stamp);
            && |log| == |s.log| + 1 && log[|s.log|].action == verb
            && OnlyChanged(l, s, Store(pages, s.spans[id := span], s.dispositions[id := d], log), id, d.reviewerId,
                           stamp)
  {
    AppendedEntry(l, s.log, SpanEvent(verb, id, span, d.reviewerId), stamp);
    hide Appended, LinksTo, GoodLog;
  }

  /** A manual item under a new id adds exactly the span it describes, approved by the reviewer. */
  lemma ManualEffect(l: Ledger, s: Store, item: Item, reviewer: Uuid, id: Uuid, stamp: Stamp)
    requires GoodLog(l, s.log) && item.AddManualSpanItem? && id !in s.spans
    ensures AddManual(l, s, item, reviewer, id, stamp).Ok?
    ensures var t := AddManual(l, s, item, reviewer, id, stamp).value;
            && t.pages == s.pages + {item.pageNumber} && OnlyChanged(l, s, t, id, reviewer, stamp)
            && t.spans[id] == SpanRow(item.pageNumber, item.bboxes, item.text, item.category, Manual, None)
            && DecisionFollows(item, reviewer, t.dispositions[id], t.log[|s.log|].action)
  {
    var span := SpanRow(item.pageNumber, item.bboxes, item.text, item.category, Manual, None);
    var d := DispositionRow(Redact, reviewer, item.reason);
    WritesOnly(l, s, s.pages + {item.pageNumber}, ManualSpanAdded, id, span, d, stamp);
    hide OnlyChanged, Appended;
  }

  /** A batch is its parts one after the other: where the first fails it fails, and counts add up. */
  lemma {:induction false} BatchInParts(l: Ledger, s: Store, a: seq<Submission>, b: seq<Submission>, reviewer: Uuid)
    ensures match ApplyBatch(l, s, a, reviewer)
            case Err(e) => ApplyBatch(l, s, a + b, reviewer) == Err(e)
            case Ok(o) =>
              match ApplyBatch(l, o.store, b, reviewer)
              case Err(e) => ApplyBatch(l, s, a + b, reviewer) == Err(e)
              case Ok(p) =>
                ApplyBatch(l, s, a + b, reviewer)
                == Ok(Outcome(p.store, o.applied + p.applied, o.skipped + p.skipped, o.spansCreated + p.spansCreated))
  {
    hide ApplyOne;
    if b == [] {
      assert a + b == a;
      hide ApplyBatch;
      EmptyBatch(l, s, a, reviewer);
    } else {
      var init, last := b[..|b| - 1], b[|b| - 1];
      assert a + b == a + init + [last] && b == init + [last];
      hide ApplyBatch;
      BatchInParts(l, s, a, init, reviewer);
      BatchThenOne(l, s, a + init, last, reviewer);
      match ApplyBatch(l, s, a, reviewer)
      case Err(_) =>
      case Ok(o) => BatchThenOne(l, o.store, init, last, reviewer);
    }
  }

  lemma EmptyBatch(l: Ledger, s: Store, a: seq<Submission>, reviewer: Uuid)
    ensures ApplyBatch(l, s, a, reviewer).Ok? ==>
              var o := ApplyBatch(l, s, a, reviewer).value;
              ApplyBatch(l, o.store, [], reviewer) == Ok(Outcome(o.store, 0, 0, 0))
  {
  }

  lemma BatchThenOne(l: Ledger, s: Store, a: seq<Submission>, last: Submission, reviewer: Uuid)
    ensures ApplyBatch(l, s, a + [last], reviewer)
         == match ApplyBatch(l, s, a, reviewer)
            case Err(e) => Err(e)
            case Ok(o) =>
              match ApplyOne(l, o.store, last, reviewer)
              case Err(e) => Err(e)
              case Ok(effect) => Ok(Tally(o, last.item, effect))
  {
    assert (a + [last])[..|a|] == a;
  }

  /** A batch of one existing span's item has that item's effect. */
  lemma BatchOfOne(l: Ledger, s: Store, sub: Submission, reviewer: Uuid)
    ensures !sub.item.AddManualSpanItem? ==>
              match ApplyExisting(l, s, sub.item, reviewer, sub.stamp)
              case Err(e) => ApplyBatch(l, s, [sub], reviewer) == Err(e)
              case Ok(effect) =>
                ApplyBatch(l, s, [sub], reviewer)
                == Ok(if effect.changed then Outcome(effect.store, 1, 0, 0) else Outcome(effect.store, 0, 1, 0))
    ensures sub.item.AddManualSpanItem? ==>
              match AddManual(l, s, sub.item, reviewer, sub.newSpanId, sub.stamp)
              case Err(e) => ApplyBatch(l, s, [sub], reviewer) == Err(e)
              case Ok(t) => ApplyBatch(l, s, [sub], reviewer) == Ok(Outcome(t, 1, 0, 1))
  {
    assert [sub][..0] == [];
    assert ApplyBatch(l, s, [], reviewer) == Ok(Outcome(s, 0, 0, 0));
    hide ApplyExisting, AddManual;
  }

  /** Applying the item again would write nothing. */
  ghost predicate Settled(s: Store, item: Item) {
    !item.AddManualSpanItem? && item.spanId in s.spans && !NeedsChange(s, item)
  }

  ghost predicate SameItems(subs: seq<Submission>, again: seq<Submission>) {
    |subs| == |again| && forall k :: 0 <= k < |subs| ==> subs[k].item == again[k].item
  }

  /** Two items of one span that ask for the same outcome. */
  ghost predicate Agree(x: Item, y: Item) {
    && !x.AddManualSpanItem? && !y.AddManualSpanItem?
    && DesiredAction(x) == DesiredAction(y)
    && (x.EditItem? && y.EditItem? ==> x.text == y.text)
    && (x.EditItem? && y.EditItem? && x.newBBoxes.Some? && y.newBBoxes.Some? ==> x.newBBoxes == y.newBBoxes)
  }

  /** No manual items, and any two items of one span agree. */
  ghost predicate Harmonious(subs: seq<Submission>) {
    && (forall k :: 0 <= k < |subs| ==> !subs[k].item.AddManualSpanItem?)
    && (forall a, b :: 0 <= a < b < |subs| && subs[a].item.spanId == subs[b].item.spanId ==>
        Agree(subs[a].item, subs[b].item))
  }

  /** An item that is settled stays so when one that agrees with it, or is about another span, is applied. */
  lemma StaysSettled(l: Ledger, s: Store, item: Item, sub: Submission, reviewer: Uuid)
    requires Settled(s, item) && !sub.item.AddManualSpanItem? && ApplyOne(l, s, sub, reviewer).Ok?
    requires item.spanId == sub.item.spanId ==> Agree(item, sub.item)
    ensures Settled(ApplyOne(l, s, sub, reviewer).value.store, item)
  {
  }

  lemma IsSettledOnceApplied(l: Ledger, s: Store, sub: Submission, reviewer: Uuid)
    requires !sub.item.AddManualSpanItem? && ApplyOne(l, s, sub, reviewer).Ok?
    ensures Settled(ApplyOne(l, s, sub, reviewer).value.store, sub.item)
  {
  }

  /** A harmonious batch is a harmonious batch and one item that agrees with those of its span. */
  lemma HarmoniousOneMore(subs: seq<Submission>, k: nat)
    requires Harmonious(subs) && subs != [] && k < |subs| - 1
    ensures Harmonious(subs[..|subs| - 1]) && !subs[|subs| - 1].item.AddManualSpanItem?
    ensures subs[k].item.spanId == subs[|subs| - 1].item.spanId ==> Agree(subs[k].item, subs[|subs| - 1].item)
  {
    hide Agree;
  }

  lemma BatchOneMore(l: Ledger, s: Store, subs: seq<Submission>, reviewer: Uuid)
    requires subs != [] && ApplyBatch(l, s, subs, reviewer).Ok?
    ensures var before := ApplyBatch(l, s, subs[..|subs| - 1], reviewer);
            && before.Ok? && ApplyOne(l, before.value.store, subs[|subs| - 1], reviewer).Ok?
            && ApplyBatch(l, s, subs, reviewer).value.store
                == ApplyOne(l, before.value.store, subs[|subs| - 1], reviewer).value.store
  {
    hide ApplyOne;
  }

  lemma {:induction false} BatchSettles(l: Ledger, s: Store, subs: seq<Submission>, reviewer: Uuid, k: nat)
    requires Harmonious(subs) && ApplyBatch(l, s, subs, reviewer).Ok? && k < |subs|
    ensures Settled(ApplyBatch(l, s, subs, reviewer).value.store, subs[k].item)
    decreases |subs|
  {
    var init, last := subs[..|subs| - 1], subs[|subs| - 1];
    var notManual := !last.item.AddManualSpanItem?;
    assert notManual;
    hide *;
    BatchOneMore(l, s, subs, reviewer);
    var mid := ApplyBatch(l, s, init, reviewer).value.store;
    if k < |init| {
      HarmoniousOneMore(subs, k);
      BatchSettles(l, s, init, reviewer, k);
      StaysSettled(l, mid, subs[k].item, last, reviewer);
    } else {
      IsSettledOnceApplied(l, mid, last, reviewer);
    }
  }

  lemma SettledAgree(s: Store, x: Item, y: Item)
    requires Settled(s, x) && Settled(s, y) && x.spanId == y.spanId
    ensures Agree(x, y)
  {
  }

  /** A batch changes nothing exactly when each of its items is settled. */
  lemma {:induction false} NoOpIffSettled(l: Ledger, s: Store, subs: seq<Submission>, reviewer: Uuid)
    ensures ApplyBatch(l, s, subs, reviewer) == Ok(Outcome(s, 0, |subs|, 0))
            <==> forall k :: 0 <= k < |subs| ==> Settled(s, subs[k].item)
  {
    if subs != [] {
      var init, last := subs[..|subs| - 1], subs[|subs| - 1];
      NoOpIffSettled(l, s, init, reviewer);
      assert forall k :: 0 <= k < |init| ==> subs[k] == init[k];
      if ApplyBatch(l, s, subs, reviewer) == Ok(Outcome(s, 0, |subs|, 0)) {
        BatchCounts(l, s, init, reviewer);
        assert ApplyBatch(l, s, init, reviewer).value == Outcome(s, 0, |init|, 0);
        assert Settled(s, last.item);
      }
    }
  }

  /**
   * Resubmitting the items of a batch, by whatever reviewer, skips every one of them and changes
   * nothing exactly when the batch is harmonious.
   */
  lemma ResubmissionIsNoOpIffHarmonious(l: Ledger, s: Store, subs: seq<Submission>, reviewer: Uuid,
                                        again: seq<Submission>, other: Uuid)
    requires SameItems(subs, again) && ApplyBatch(l, s, subs, reviewer).Ok?
    ensures var after := ApplyBatch(l, s, subs, reviewer).value.store;
            ApplyBatch(l, after, again, other) == Ok(Outcome(after, 0, |subs|, 0)) <==> Harmonious(subs)
  {
    var after := ApplyBatch(l, s, subs, reviewer).value.store;
    NoOpIffSettled(l, after, again, other);
    if Harmonious(subs) {
      forall k | 0 <= k < |subs| ensures Settled(after, again[k].item) { BatchSettles(l, s, subs, reviewer, k); }
    }
    if forall k :: 0 <= k < |subs| ==> Settled(after, again[k].item) {
      forall a, b | 0 <= a < b < |subs| && subs[a].item.spanId == subs[b].item.spanId
        ensures Agree(subs[a].item, subs[b].item)
      {
        assert Settled(after, again[a].item) && Settled(after, again[b].item);
        SettledAgree(after, subs[a].item, subs[b].item);
      }
    }
  }
}
