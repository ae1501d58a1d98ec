/** From what a detector found to what is black in the exported file, over a run. */
module CoverageTheorems {
  import opened Basics
  import opened TextLayer
  import opened Dedupe
  import opened DedupeTheorems
  import opened AuditChain
  import opened BurnIn
  import opened ReviewStore
  import opened Pipeline
  import opened PipelineTheorems
  import opened RunTheorems
  import opened ProgressTheorems

  // ---------- spans change only by logged edits ----------

  ghost predicate EditLogged(log: seq<AuditEntry>, id: Uuid) {
    exists k :: 0 <= k < |log| && log[k].spanId == Some(id) && log[k].action == Edited
  }

  ghost function ItemsOf(subs: seq<Submission>): iset<Item> {
    iset k | 0 <= k < |subs| :: subs[k].item
  }

  /** The items that reviewers submit in these actions, accepted or not. */
  ghost function Submitted(actions: seq<Action>): iset<Item> {
    if actions == [] then iset{} else
    var last := actions[|actions| - 1];
    Submitted(actions[..|actions| - 1]) + if last.SubmitDispositions? then ItemsOf(last.subs) else iset{}
  }

  ghost predicate GaveText(asked: iset<Item>, id: Uuid, text: string) {
    exists item :: item in asked && item.EditItem? && item.spanId == id && item.text == text
  }

  ghost predicate GaveBoxes(asked: iset<Item>, id: Uuid, boxes: seq<BBox>) {
    exists item :: item in asked && item.EditItem? && item.spanId == id && item.newBBoxes == Some(boxes)
  }

  /** A span later on: nothing but text and boxes ever differ, each only as some edit asked for gave it. */
  ghost predicate SpanAccounted(asked: iset<Item>, id: Uuid, was: SpanRow, now: SpanRow) {
    && now == was.(text := now.text, bboxes := now.bboxes)
    && (now.text == was.text || GaveText(asked, id, now.text))
    && (now.bboxes == was.bboxes || GaveBoxes(asked, id, now.bboxes))
  }

  /** Every span is still there and accounted for, and if it differs at all an edit of it is logged. */
  ghost predicate Accounted(asked: iset<Item>, s: Store, t: Store) {
    && s.log <= t.log
    && forall id :: id in s.spans ==>
         && id in t.spans && SpanAccounted(asked, id, s.spans[id], t.spans[id])
         && (t.spans[id] == s.spans[id] || EditLogged(t.log, id))
  }

  lemma EditStaysLogged(log: seq<AuditEntry>, more: seq<AuditEntry>, id: Uuid)
    requires log <= more && EditLogged(log, id)
    ensures EditLogged(more, id)
  {
    var k :| 0 <= k < |log| && log[k].spanId == Some(id) && log[k].action == Edited;
    assert more[k] == log[k];
  }

  lemma AccountedSpanTwice(a: iset<Item>, b: iset<Item>, id: Uuid, s: SpanRow, t: SpanRow, u: SpanRow)
    requires SpanAccounted(a, id, s, t) && SpanAccounted(b, id, t, u)
    ensures SpanAccounted(a + b, id, s, u)
  {
  }

  lemma AccountedTwice(a: iset<Item>, b: iset<Item>, s: Store, t: Store, u: Store)
    requires Accounted(a, s, t) && Accounted(b, t, u)
    ensures Accounted(a + b, s, u)
  {
    hide EditLogged, SpanAccounted;
    forall id | id in s.spans
      ensures SpanAccounted(a + b, id, s.spans[id], u.spans[id])
      ensures u.spans[id] == s.spans[id] || EditLogged(u.log, id)
    {
      AccountedSpanTwice(a, b, id, s.spans[id], t.spans[id], u.spans[id]);
      if EditLogged(t.log, id) { EditStaysLogged(t.log, u.log, id); }
    }
  }

  lemma SameSpansAreAccounted(asked: iset<Item>, s: Store, t: Store)
    requires s.log <= t.log && t.spans == s.spans
    ensures Accounted(asked, s, t)
  {
  }

  lemma ItemIsAccounted(l: Ledger, s: Store, sub: Submission, reviewer: Uuid)
    requires GoodLog(l, s.log) && ApplyOne(l, s, sub, reviewer).Ok?
    ensures Accounted(iset{sub.item}, s, ApplyOne(l, s, sub, reviewer).value.store)
  {
    var t, item := ApplyOne(l, s, sub, reviewer).value.store, sub.item;
    hide GoodLog, Appended, RecordsEvent, EditedSpan, NeedsChange;
    if item.AddManualSpanItem? {
      ManualEffect(l, s, item, reviewer, sub.newSpanId, sub.stamp);
    } else {
      ItemEffect(l, s, item, reviewer, sub.stamp);
      if t == s {
        SameSpansAreAccounted(iset{item}, s, t);
      } else {
        EffectIsAccounted(l, s, t, item, reviewer, sub.stamp);
      }
    }
  }

  lemma EffectIsAccounted(l: Ledger, s: Store, t: Store, item: Item, reviewer: Uuid, stamp: Stamp)
    requires !item.AddManualSpanItem? && item.spanId in s.spans && OnlyChanged(l, s, t, item.spanId, reviewer, stamp)
    requires SpanFollows(s.spans[item.spanId], item, t.spans[item.spanId])
    requires DecisionFollows(item, reviewer, t.dispositions[item.spanId], t.log[|s.log|].action)
    ensures Accounted(iset{item}, s, t)
  {
    var asked := iset{item};
    assert item in asked;
    if item.EditItem? { assert EditLogged(t.log, item.spanId); }
    hide EditLogged, RecordsEvent;
    assert SpanAccounted(asked, item.spanId, s.spans[item.spanId], t.spans[item.spanId]);
  }

  lemma {:induction false} BatchIsAccounted(l: Ledger, s: Store, subs: seq<Submission>, reviewer: Uuid)
    requires GoodStore(l, s) && ApplyBatch(l, s, subs, reviewer).Ok?
    ensures Accounted(ItemsOf(subs), s, ApplyBatch(l, s, subs, reviewer).value.store)
  {
    hide Accounted, ApplyOne;
    if subs == [] {
      SameSpansAreAccounted(ItemsOf(subs), s, s);
    } else {
      var init, last := subs[..|subs| - 1], subs[|subs| - 1];
      BatchIsAccounted(l, s, init, reviewer);
      BatchKeepsGoodStore(l, s, init, reviewer);
      var mid := ApplyBatch(l, s, init, reviewer).value.store;
      ItemIsAccounted(l, mid, last, reviewer);
      AccountedTwice(ItemsOf(init), iset{last.item}, s, mid, ApplyOne(l, mid, last, reviewer).value.store);
      ItemsOneMore(subs);
    }
  }

  lemma ItemsOneMore(subs: seq<Submission>)
    requires subs != []
    ensures ItemsOf(subs) == ItemsOf(subs[..|subs| - 1]) + iset{subs[|subs| - 1].item}
  {
    var init, n := subs[..|subs| - 1], |subs| - 1;
    forall item ensures item in ItemsOf(subs) <==> item in ItemsOf(init) || item == subs[n].item {
      if item in ItemsOf(subs) {
        var k :| 0 <= k < |subs| && subs[k].item == item;
        assert k < n ==> init[k].item == item;
      }
      if item in ItemsOf(init) {
        var k :| 0 <= k < |init| && init[k].item == item;
        assert subs[k].item == item;
      }
    }
  }

  /** Outside review and detection no step touches a span. */
  lemma OtherStepsKeepSpans(env: Env, w: World, a: Action)
    requires !a.SubmitDispositions? && !a.DeliverDetect?
    ensures Step(env, w, a).tables.store.spans == w.tables.store.spans
  {
    match a
    case DeliverIngest(staged, ok) =>
    case RequestApply =>
    case DeliverApply(requester, started, concluded, fault) =>
      StepIsForward(env, w, a);
      assert w.tables.status != Applying ==> Step(env, w, a) == w;
    case FailLate =>
    case RequestExport(exporter, stamp, generatedAt, fault) =>
      ExportOutcomes(env, w, exporter, stamp, generatedAt, fault);
  }

  ghost function Asked(a: Action): iset<Item> {
    if a.SubmitDispositions? then ItemsOf(a.subs) else iset{}
  }

  lemma StepIsAccounted(env: Env, original: Bytes, w: World, a: Action)
    requires Inv(env, original, w)
    ensures Accounted(Asked(a), w.tables.store, Step(env, w, a).tables.store)
  {
    var s, v := w.tables.store, Step(env, w, a);
    StepIsForward(env, w, a);
    hide Accounted;
    if a.SubmitDispositions? {
      SameSpansAreAccounted(Asked(a), s, s);
      if ApplyBatch(LedgerOf(env), s, a.subs, a.reviewer).Ok? {
        BatchIsAccounted(LedgerOf(env), s, a.subs, a.reviewer);
      }
    } else if a.DeliverDetect? {
      DetectOutcomes(env, w, a.pages, a.newId, a.ok);
      if v.tables == w.tables {
        SameSpansAreAccounted(Asked(a), s, s);
      } else {
        NoSpansYet(Asked(a), s, v.tables.store);
      }
    } else {
      OtherStepsKeepSpans(env, w, a);
      SameSpansAreAccounted(Asked(a), s, v.tables.store);
    }
  }

  lemma NoSpansYet(asked: iset<Item>, s: Store, t: Store)
    requires s.spans == map[] && s.log <= t.log
    ensures Accounted(asked, s, t)
  {
  }

  /**
   * However a run goes on, a span keeps its page, category, tier and confidence; its text and its
   * boxes differ only if an edit submitted since gave exactly those, and then an edit is logged.
   */
  lemma {:induction false} SpansAreAccounted(env: Env, original: Bytes, actions: seq<Action>, more: seq<Action>)
    ensures Accounted(Submitted(more), Run(env, original, actions).tables.store,
                      Run(env, original, actions + more).tables.store)
  {
    hide Accounted, Step, Inv, ItemsOf;
    var all := actions + more;
    var s := Run(env, original, actions).tables.store;
    if more == [] {
      assert all == actions;
      SameSpansAreAccounted(Submitted(more), s, s);
    } else {
      var init, a := more[..|more| - 1], all[|all| - 1];
      assert all[..|all| - 1] == actions + init;
      var w := Run(env, original, actions + init);
      SpansAreAccounted(env, original, actions, init);
      EveryRunKeepsInv(env, original, actions + init);
      StepIsAccounted(env, original, w, a);
      AccountedTwice(Submitted(init), Asked(a), s, w.tables.store, Step(env, w, a).tables.store);
      assert Submitted(more) == Submitted(init) + Asked(a);
    }
  }

  // ---------- from detection to ink ----------

  /** A detection on which this candidate, with this box, was reported for this page by either tier. */
  ghost predicate Reported(found: seq<PageDetection>, d: PageDetection, m: CandidateSpan, b: BBox) {
    && d in found && m in d.tier1 + d.tier2 && b in m.bboxes
    && AllResolved(d.page, d.tier1) && AllResolved(d.page, d.tier2)
    && forall w :: w in d.page.words ==> w.start <= w.end
  }

  /** Every reported box is a box of some row that detection stored, on that page and with that category. */
  lemma ReportedBoxIsStored(env: Env, original: Bytes, actions: seq<Action>, found: seq<PageDetection>,
                            newId: nat -> Uuid, d: PageDetection, m: CandidateSpan, b: BBox) returns (id: Uuid)
    requires var w := Run(env, original, actions); Detect(env, w, found, newId, true).tables != w.tables
    requires Reported(found, d, m, b)
    ensures var spans := Detect(env, Run(env, original, actions), found, newId, true).tables.store.spans;
            && id in spans && spans[id].page == d.page.pageNumber && spans[id].category == m.category
            && b in spans[id].bboxes
  {
    hide Run, Detect, Deduped, AllResolved;
    BoxesConserved(d.page, d.tier1, d.tier2, m.pageNumber, m.category, b);
    assert Boxed(d.tier1 + d.tier2, m.pageNumber, m.category, b);
    var kept :| kept in Deduped(d.page, d.tier1, d.tier2) && kept.category == m.category && b in kept.bboxes;
    var row := RowOf(d.page.pageNumber, kept);
    assert IsSurvivorRow(found, row);
    DetectionStoresSurvivors(env, original, actions, found, newId);
    var spans := Detect(env, Run(env, original, actions), found, newId, true).tables.store.spans;
    id :| id in spans && spans[id] == row;
  }

  /**
   * The latest entry for the span rejects it, or an edit is logged and one that was asked for gave
   * the span its present boxes, which leave this one out.
   */
  ghost predicate ReviewerSpared(asked: iset<Item>, s: Store, id: Uuid, b: BBox) {
    || (id in Replay(s.log) && Replay(s.log)[id].action == Rejected)
    || (id in s.spans && b !in s.spans[id].bboxes && EditLogged(s.log, id) && GaveBoxes(asked, id, s.spans[id].bboxes))
  }

  lemma AccountedIsSpared(asked: iset<Item>, s: Store, t: Store, id: Uuid, b: BBox)
    requires Accounted(asked, s, t) && id in s.spans && b in s.spans[id].bboxes && b !in t.spans[id].bboxes
    ensures ReviewerSpared(asked, t, id, b)
  {
  }

  /** Past the gate a box is black, or the log names the rejection or the edit that spared it. */
  lemma BurnedOrSpared(env: Env, original: Bytes, actions: seq<Action>, asked: iset<Item>, id: Uuid, b: BBox, x: nat,
                       y: nat)
    requires var w := Run(env, original, actions);
             && PastGate(w.tables.status) && id in w.tables.store.spans
             && (b in w.tables.store.spans[id].bboxes || ReviewerSpared(asked, w.tables.store, id, b))
    requires MeetsRange(b.x0, b.x1, x) && MeetsRange(b.y0, b.y1, y)
    ensures var w := Run(env, original, actions);
            && env.renderer.rasterize(original).Some?
            && var pages := BurnedPages(env.renderer.rasterize(original).value, ApprovedSpans(w.tables.store));
               && RedactedKey(env) in w.objects && w.objects[RedactedKey(env)] == PdfBlob(env.renderer.rebuild(pages))
               && (BlackOn(pages, w.tables.store.spans[id].page, x, y) || ReviewerSpared(asked, w.tables.store, id, b))
  {
    ExportSafety(env, original, actions);
    ReviewGate(env, original, actions);
    LogTellsTheStore(env, original, actions);
    var s := Run(env, original, actions).tables.store;
    if id in ApprovedIds(s) && b in s.spans[id].bboxes {
      ApprovedInkIsGone(env, original, actions, id, b, x, y);
    } else if b in s.spans[id].bboxes {
      hide Run, BurnedPages, GoodLog, Replay;
      assert Records(LedgerOf(env), Replay(s.log)[id], s.spans[id], s.dispositions[id]);
    }
  }

  /**
   * From end to end: take any box of any candidate that either tier reported, in a detection that
   * wrote. Whatever happens afterwards, once the job is past the gate every pixel that meets the
   * box is black in the pages the stored file is rebuilt from, unless the log shows that a reviewer
   * rejected the span it went into, or took the box away by an edit that gave other boxes.
   */
  lemma DetectedInkIsGone(env: Env, original: Bytes, actions: seq<Action>, found: seq<PageDetection>,
                          newId: nat -> Uuid, more: seq<Action>, d: PageDetection, m: CandidateSpan, b: BBox,
                          x: nat, y: nat) returns (id: Uuid)
    requires var w := Run(env, original, actions); Detect(env, w, found, newId, true).tables != w.tables
    requires Reported(found, d, m, b)
    requires PastGate(Run(env, original, actions + [DeliverDetect(found, newId, true)] + more).tables.status)
    requires MeetsRange(b.x0, b.x1, x) && MeetsRange(b.y0, b.y1, y)
    ensures var w := Run(env, original, actions + [DeliverDetect(found, newId, true)] + more);
            && env.renderer.rasterize(original).Some?
            && var pages := BurnedPages(env.renderer.rasterize(original).value, ApprovedSpans(w.tables.store));
               && RedactedKey(env) in w.objects && w.objects[RedactedKey(env)] == PdfBlob(env.renderer.rebuild(pages))
               && id in w.tables.store.spans && w.tables.store.spans[id].category == m.category
               && (BlackOn(pages, d.page.pageNumber, x, y) || ReviewerSpared(Submitted(more), w.tables.store, id, b))
  {
    var detect := DeliverDetect(found, newId, true);
    RunOneMore(env, original, actions, detect);
    var w := Run(env, original, actions);
    assert Step(env, w, detect) == Detect(env, w, found, newId, true);
    hide Run, Step, Detect, Reported, BurnedPages, EditLogged, ReviewerSpared;
    id := ReportedBoxIsStored(env, original, actions, found, newId, d, m, b);
    SpansAreAccounted(env, original, actions + [detect], more);
    var s, t := Run(env, original, actions + [detect]).tables.store,
        Run(env, original, actions + [detect] + more).tables.store;
    hide Submitted;
    if b !in t.spans[id].bboxes { AccountedIsSpared(Submitted(more), s, t, id, b); }
    BurnedOrSpared(env, original, actions + [detect] + more, Submitted(more), id, b, x, y);
  }
}
