/**
 * The recoverability gate on redacted output, and apply, which passes through it
 * (`redaction/verify_gate.py`, `redaction/apply.py`).
 */
module VerifyGate {
  import opened Basics
  import opened BurnIn
  import opened TextLayer
  import opened Whitespace
  import opened Normalization

  const OCR_MATCH_THRESHOLD := 85.0
  const DOCUMENT_LEVEL_PAGE := 0

  datatype CheckType = TextLayerCheck | OcrCheck | MetadataCheck

  datatype Verdict = Pass | Fail

  /** The text layer check adds where the raw string was found, the OCR check how well the target matched. */
  datatype Finding = Finding(digest: string, check: CheckType, pageNumber: int, bbox: Option<BBox>, score: Option<real>)

  datatype CheckSummary = CheckSummary(check: CheckType, passed: bool, pagesChecked: nat)

  datatype VerifyResult = VerifyResult(verdict: Verdict, checks: seq<CheckSummary>, findings: seq<Finding>)

  /** What the PDF library and the OCR engine read off a page, and the library's search; OCR may fail, which raises. */
  datatype PageReading = PageReading(textLayer: string, ocr: Option<string>, search: string -> Option<BBox>)

  datatype Reading = Reading(pages: seq<PageReading>, metadata: string)

  /** The gate's instruments: reading a document, normalizing and digesting text, and fuzzy scoring. */
  datatype Gate = Gate(
    read: Bytes -> Option<Reading>, normalize: string -> string, digest: string -> string,
    score: (string, string) -> real)

  /** A normal form to look for, and the string it came from. */
  datatype Target = Target(normalized: string, raw: string)

  predicate Hit(g: Gate, check: CheckType, target: string, hay: string) {
    if check == OcrCheck then g.score(target, hay) >= OCR_MATCH_THRESHOLD else Contains(hay, target)
  }

  /** The strings with their normal forms, in order, without those whose normal form is empty. */
  function Targets(g: Gate, strings: seq<string>): seq<Target> {
    if strings == [] then [] else
    var raw := strings[|strings| - 1];
    var n := g.normalize(raw);
    Targets(g, strings[..|strings| - 1]) + if n != "" then [Target(n, raw)] else []
  }

  /** What is reported for a hit; page is the page searched for the raw string, if any. */
  function FindingFor(g: Gate, check: CheckType, pageNumber: int, t: Target, hay: string,
                      page: Option<PageReading>): Finding {
    Finding(g.digest(t.normalized), check, pageNumber,
            match page case None => None case Some(p) => p.search(t.raw),
            if check == OcrCheck then Some(g.score(t.normalized, hay)) else None)
  }

  /** One finding per target that hits this text, in order. */
  function FindingsAt(g: Gate, check: CheckType, pageNumber: int, targets: seq<Target>, hay: string,
                      page: Option<PageReading>): seq<Finding> {
    if targets == [] then [] else
    var t := targets[|targets| - 1];
    FindingsAt(g, check, pageNumber, targets[..|targets| - 1], hay, page)
    + if Hit(g, check, t.normalized, hay) then [FindingFor(g, check, pageNumber, t, hay, page)] else []
  }

  function TextFindings(g: Gate, pages: seq<PageReading>, targets: seq<Target>): seq<Finding> {
    if pages == [] then [] else
    var n := |pages|;
    var page := pages[n - 1];
    TextFindings(g, pages[..n - 1], targets)
        + FindingsAt(g, TextLayerCheck, n, targets, g.normalize(page.textLayer), Some(page))
  }

  /** None when OCR fails on a page, which is only read when there is something to look for. */
  function OcrFindings(g: Gate, pages: seq<PageReading>, targets: seq<Target>): Option<seq<Finding>> {
    if |pages| == 0 || |targets| == 0 then Some([]) else
    var n := |pages|;
    match (OcrFindings(g, pages[..n - 1], targets), pages[n - 1].ocr)
    case (Some(before), Some(text)) => Some(before + FindingsAt(g, OcrCheck, n, targets, g.normalize(text), None))
    case _ => None
  }

  function MetadataFindings(g: Gate, metadata: string, targets: seq<Target>): seq<Finding> {
    FindingsAt(g, MetadataCheck, DOCUMENT_LEVEL_PAGE, targets, g.normalize(metadata), None)
  }

  /** The gate's result on a document, or None when reading it raises. */
  function Verified(g: Gate, pdf: Bytes, strings: seq<string>): Option<VerifyResult> {
    match g.read(pdf)
    case None => None
    case Some(doc) =>
      var targets, n := Targets(g, strings), |doc.pages|;
      match OcrFindings(g, doc.pages, targets)
      case None => None
      case Some(ocr) =>
        var text, meta := TextFindings(g, doc.pages, targets), MetadataFindings(g, doc.metadata, targets);
        var findings := text + ocr + meta;
        Some(VerifyResult(
          if findings != [] then Fail else Pass,
          [CheckSummary(TextLayerCheck, text == [], n), CheckSummary(OcrCheck, ocr == [], n),
           CheckSummary(MetadataCheck, meta == [], n)],
          findings))
  }

  // ---------- the loops ----------

  method NormalizedTargets(g: Gate, strings: seq<string>) returns (targets: seq<Target>)
    ensures targets == Targets(g, strings)
  {
    targets := [];
    for k := 0 to |strings|
      invariant targets == Targets(g, strings[..k])
    {
      assert strings[..k + 1][..k] == strings[..k];
      var normalized := g.normalize(strings[k]);
      if normalized != "" { targets := targets + [Target(normalized, strings[k])]; }
    }
    assert strings[..|strings|] == strings;
  }

  method HitsOnText(g: Gate, check: CheckType, pageNumber: int, targets: seq<Target>, hay: string,
                    page: Option<PageReading>)
    returns (findings: seq<Finding>)
    ensures findings == FindingsAt(g, check, pageNumber, targets, hay, page)
  {
    findings := [];
    for k := 0 to |targets|
      invariant findings == FindingsAt(g, check, pageNumber, targets[..k], hay, page)
    {
      assert targets[..k + 1][..k] == targets[..k];
      if Hit(g, check, targets[k].normalized, hay) {
        findings := findings + [FindingFor(g, check, pageNumber, targets[k], hay, page)];
      }
    }
    assert targets[..|targets|] == targets;
  }

  method CheckTextLayer(g: Gate, pages: seq<PageReading>, targets: seq<Target>)
    returns (summary: CheckSummary, findings: seq<Finding>)
    ensures findings == TextFindings(g, pages, targets)
    ensures summary == CheckSummary(TextLayerCheck, findings == [], |pages|)
  {
    findings := [];
    var pagesChecked := 0;
    for k := 0 to |pages|
      invariant pagesChecked == k && findings == TextFindings(g, pages[..k], targets)
    {
      assert pages[..k + 1][..k] == pages[..k];
      pagesChecked := pagesChecked + 1;
      var hits := HitsOnText(g, TextLayerCheck, k + 1, targets, g.normalize(pages[k].textLayer), Some(pages[k]));
      findings := findings + hits;
    }
    assert pages[..|pages|] == pages;
    summary := CheckSummary(TextLayerCheck, findings == [], pagesChecked);
  }

  method CheckOcr(g: Gate, pages: seq<PageReading>, targets: seq<Target>)
    returns (summary: CheckSummary, findings: Option<seq<Finding>>)
    ensures findings == OcrFindings(g, pages, targets)
    ensures findings.Some? ==> summary == CheckSummary(OcrCheck, findings.value == [], |pages|)
  {
    var found: seq<Finding> := [];
    var pagesChecked := 0;
    summary := CheckSummary(OcrCheck, false, 0);
    assert pages[..|pages|] == pages;
    for k := 0 to |pages|
      invariant pagesChecked == k && OcrFindings(g, pages[..k], targets) == Some(found)
    {
      assert pages[..k + 1][..k] == pages[..k];
      pagesChecked := pagesChecked + 1;
      if |targets| > 0 {
        if pages[k].ocr.None? {
          OcrFailureSticks(g, pages, targets, k);
          return summary, None;
        }
        var hits := HitsOnText(g, OcrCheck, k + 1, targets, g.normalize(pages[k].ocr.value), None);
        found := found + hits;
      }
    }
    summary := CheckSummary(OcrCheck, found == [], pagesChecked);
    findings := Some(found);
  }

  lemma {:induction false} OcrFailureSticks(g: Gate, pages: seq<PageReading>, targets: seq<Target>, k: nat)
    requires k < |pages| && pages[k].ocr.None? && targets != []
    ensures OcrFindings(g, pages, targets).None?
    decreases |pages|
  {
    if k < |pages| - 1 { OcrFailureSticks(g, pages[..|pages| - 1], targets, k); }
  }

  method Verify(g: Gate, pdf: Bytes, strings: seq<string>) returns (result: Option<VerifyResult>)
    ensures result == Verified(g, pdf, strings)
  {
    var doc := g.read(pdf);
    if doc.None? { return None; }
    var targets := NormalizedTargets(g, strings);
    var textSummary, textFindings := CheckTextLayer(g, doc.value.pages, targets);
    var ocrSummary, ocrFindings := CheckOcr(g, doc.value.pages, targets);
    if ocrFindings.None? { return None; }
    var metadataFindings := HitsOnText(g, MetadataCheck, DOCUMENT_LEVEL_PAGE, targets, g.normalize(doc.value.metadata),
                                       None);
    var metadataSummary := CheckSummary(MetadataCheck, metadataFindings == [], |doc.value.pages|);
    var findings := textFindings + ocrFindings.value + metadataFindings;
    var verdict := if findings != [] then Fail else Pass;
    result := Some(VerifyResult(verdict, [textSummary, ocrSummary, metadataSummary], findings));
  }

  // ---------- what a verdict means ----------

  lemma {:induction false} TargetsAre(g: Gate, strings: seq<string>)
    ensures forall t :: t in Targets(g, strings) <==>
              t.raw in strings && t.normalized == g.normalize(t.raw) && t.normalized != ""
  {
    if strings != [] {
      var init, last := strings[..|strings| - 1], strings[|strings| - 1];
      TargetsAre(g, init);
      assert strings == init + [last];
    }
  }

  lemma {:induction false} NothingAt(g: Gate, check: CheckType, pageNumber: int, targets: seq<Target>, hay: string,
                                     page: Option<PageReading>)
    ensures FindingsAt(g, check, pageNumber, targets, hay, page) == []
            <==> forall t :: t in targets ==> !Hit(g, check, t.normalized, hay)
  {
    if targets != [] {
      NothingAt(g, check, pageNumber, targets[..|targets| - 1], hay, page);
      assert targets == targets[..|targets| - 1] + [targets[|targets| - 1]];
    }
  }

  ghost predicate TextClean(g: Gate, pages: seq<PageReading>, targets: seq<Target>) {
    forall page, t :: page in pages && t in targets ==>
        !Hit(g, TextLayerCheck, t.normalized, g.normalize(page.textLayer))
  }

  ghost predicate OcrClean(g: Gate, pages: seq<PageReading>, targets: seq<Target>) {
    forall page, t :: page in pages && t in targets ==>
        page.ocr.Some? && !Hit(g, OcrCheck, t.normalized, g.normalize(page.ocr.value))
  }

  ghost predicate MetadataClean(g: Gate, metadata: string, targets: seq<Target>) {
    forall t :: t in targets ==> !Hit(g, MetadataCheck, t.normalized, g.normalize(metadata))
  }

  lemma {:induction false} NothingInText(g: Gate, pages: seq<PageReading>, targets: seq<Target>)
    ensures TextFindings(g, pages, targets) == [] <==> TextClean(g, pages, targets)
  {
    if pages != [] {
      var init, last := pages[..|pages| - 1], pages[|pages| - 1];
      NothingInText(g, init, targets);
      NothingAt(g, TextLayerCheck, |pages|, targets, g.normalize(last.textLayer), Some(last));
      assert pages == init + [last];
    }
  }

  lemma {:induction false} NothingInOcr(g: Gate, pages: seq<PageReading>, targets: seq<Target>)
    ensures OcrFindings(g, pages, targets) == Some([]) <==> OcrClean(g, pages, targets)
    ensures OcrFindings(g, pages, targets).Some? <==> targets == [] || forall page :: page in pages ==> page.ocr.Some?
  {
    if targets == [] {
    } else if pages != [] {
      var init, last := pages[..|pages| - 1], pages[|pages| - 1];
      NothingInOcr(g, init, targets);
      OcrCleanOneMore(g, init, last, targets);
      assert pages == init + [last];
      hide OcrClean, FindingsAt;
    }
  }

  lemma OcrCleanOneMore(g: Gate, init: seq<PageReading>, last: PageReading, targets: seq<Target>)
    requires targets != []
    ensures OcrClean(g, init + [last], targets) <==>
              && OcrClean(g, init, targets) && last.ocr.Some?
              && FindingsAt(g, OcrCheck, |init| + 1, targets, g.normalize(last.ocr.value), None) == []
    ensures (forall page :: page in init + [last] ==> page.ocr.Some?)
            <==> last.ocr.Some? && forall page :: page in init ==> page.ocr.Some?
  {
    assert last in init + [last] && targets[0] in targets;
    if last.ocr.Some? { NothingAt(g, OcrCheck, |init| + 1, targets, g.normalize(last.ocr.value), None); }
    hide Hit, FindingsAt;
  }

  lemma NothingInMetadata(g: Gate, metadata: string, targets: seq<Target>)
    ensures MetadataFindings(g, metadata, targets) == [] <==> MetadataClean(g, metadata, targets)
  {
    NothingAt(g, MetadataCheck, DOCUMENT_LEVEL_PAGE, targets, g.normalize(metadata), None);
  }

  // ---------- what is reported ----------

  lemma {:induction false} FoundAt(g: Gate, check: CheckType, pageNumber: int, targets: seq<Target>, hay: string,
                                   page: Option<PageReading>, f: Finding)
    ensures f in FindingsAt(g, check, pageNumber, targets, hay, page)
            <==> exists t :: t in targets && Hit(g, check, t.normalized, hay)
                   && f == FindingFor(g, check, pageNumber, t, hay, page)
  {
    if targets != [] {
      FoundAt(g, check, pageNumber, targets[..|targets| - 1], hay, page, f);
      assert targets == targets[..|targets| - 1] + [targets[|targets| - 1]];
    }
  }

  /** A target found in the text layer of page k, under its digest and where a search finds the string itself. */
  ghost predicate IsTextFinding(g: Gate, pages: seq<PageReading>, f: Finding, k: nat, t: Target)
    requires k < |pages|
  {
    && Contains(g.normalize(pages[k].textLayer), t.normalized)
    && f == Finding(g.digest(t.normalized), TextLayerCheck, k + 1, pages[k].search(t.raw), None)
  }

  /** A target that scores at least 85 against what OCR reads on page k, under its digest and with its score. */
  ghost predicate IsOcrFinding(g: Gate, pages: seq<PageReading>, f: Finding, k: nat, t: Target)
    requires k < |pages|
  {
    && pages[k].ocr.Some? && g.score(t.normalized, g.normalize(pages[k].ocr.value)) >= 85.0
    && f == Finding(g.digest(t.normalized), OcrCheck, k + 1, None,
                    Some(g.score(t.normalized, g.normalize(pages[k].ocr.value))))
  }

  /** Targets come in the order of the strings, as often as these. */
  lemma {:induction false} TargetsInOrder(g: Gate, a: seq<string>, b: seq<string>)
    ensures Targets(g, a + b) == Targets(g, a) + Targets(g, b)
  {
    if b == [] {
      assert a + b == a;
    } else {
      TargetsInOrder(g, a, b[..|b| - 1]);
      assert (a + b)[..|a + b| - 1] == a + b[..|b| - 1];
    }
  }

  /** Findings in one text come in the order of the targets, as often as these. */
  lemma {:induction false} FindingsInOrder(g: Gate, check: CheckType, pageNumber: int, a: seq<Target>, b: seq<Target>,
                                           hay: string, page: Option<PageReading>)
    ensures FindingsAt(g, check, pageNumber, a + b, hay, page)
         == FindingsAt(g, check, pageNumber, a, hay, page) + FindingsAt(g, check, pageNumber, b, hay, page)
  {
    if b == [] {
      assert a + b == a;
    } else {
      FindingsInOrder(g, check, pageNumber, a, b[..|b| - 1], hay, page);
      assert (a + b)[..|a + b| - 1] == a + b[..|b| - 1];
    }
  }

  /** Text layer findings come page by page. */
  lemma {:induction false} FindingsByPage(g: Gate, pages: seq<PageReading>, targets: seq<Target>, a: nat, b: nat)
    requires a < b < |TextFindings(g, pages, targets)|
    ensures TextFindings(g, pages, targets)[a].pageNumber <= TextFindings(g, pages, targets)[b].pageNumber
  {
    var n := |pages|;
    var before := TextFindings(g, pages[..n - 1], targets);
    var last := FindingsAt(g, TextLayerCheck, n, targets, g.normalize(pages[n - 1].textLayer), Some(pages[n - 1]));
    if b < |before| {
      FindingsByPage(g, pages[..n - 1], targets, a, b);
    } else {
      var f, e := TextFindings(g, pages, targets)[a], last[b - |before|];
      assert f in TextFindings(g, pages, targets) && e in last;
      TextFindingsAre(g, pages, targets, f);
      FoundAt(g, TextLayerCheck, n, targets, g.normalize(pages[n - 1].textLayer), Some(pages[n - 1]), e);
    }
  }

  /** The text layer check reports exactly the targets found, page by page. */
  lemma {:induction false} TextFindingsAre(g: Gate, pages: seq<PageReading>, targets: seq<Target>, f: Finding)
    ensures f in TextFindings(g, pages, targets)
            <==> exists k: nat, t :: k < |pages| && t in targets && IsTextFinding(g, pages, f, k, t)
  {
    hide FindingsAt;
    if pages != [] {
      var n := |pages| - 1;
      var init, last := pages[..n], pages[n];
      TextFindingsAre(g, init, targets, f);
      TextFoundOneMore(g, init, last, targets, f);
      assert init + [last] == pages;
      hide IsTextFinding;
    }
  }

  lemma TextFoundOneMore(g: Gate, init: seq<PageReading>, last: PageReading, targets: seq<Target>, f: Finding)
    ensures (exists k: nat, t :: k < |init| + 1 && t in targets && IsTextFinding(g, init + [last], f, k, t))
            <==> || f in FindingsAt(g, TextLayerCheck, |init| + 1, targets, g.normalize(last.textLayer), Some(last))
                 || exists k: nat, t :: k < |init| && t in targets && IsTextFinding(g, init, f, k, t)
  {
    var n, pages := |init|, init + [last];
    FoundAt(g, TextLayerCheck, n + 1, targets, g.normalize(last.textLayer), Some(last), f);
    forall k: nat, t | k < n ensures IsTextFinding(g, pages, f, k, t) == IsTextFinding(g, init, f, k, t) {}
    forall t: Target ensures IsTextFinding(g, pages, f, n, t)
        <==> Hit(g, TextLayerCheck, t.normalized, g.normalize(last.textLayer))
             && f == FindingFor(g, TextLayerCheck, n + 1, t, g.normalize(last.textLayer), Some(last)) {}
    hide IsTextFinding, FindingsAt, FindingFor, Hit;
  }

  /** The OCR check, where no page fails, reports exactly the targets that score, page by page. */
  lemma {:induction false} OcrFindingsAre(g: Gate, pages: seq<PageReading>, targets: seq<Target>, f: Finding)
    requires OcrFindings(g, pages, targets).Some?
    ensures f in OcrFindings(g, pages, targets).value
            <==> exists k: nat, t :: k < |pages| && t in targets && IsOcrFinding(g, pages, f, k, t)
  {
    hide FindingsAt;
    if pages != [] && targets != [] {
      var n := |pages| - 1;
      var init, last := pages[..n], pages[n];
      OcrFindingsAre(g, init, targets, f);
      OcrFoundOneMore(g, init, last, targets, f);
      assert init + [last] == pages;
      hide IsOcrFinding;
    }
  }

  lemma OcrFoundOneMore(g: Gate, init: seq<PageReading>, last: PageReading, targets: seq<Target>, f: Finding)
    requires last.ocr.Some?
    ensures (exists k: nat, t :: k < |init| + 1 && t in targets && IsOcrFinding(g, init + [last], f, k, t))
            <==> || f in FindingsAt(g, OcrCheck, |init| + 1, targets, g.normalize(last.ocr.value), None)
                 || exists k: nat, t :: k < |init| && t in targets && IsOcrFinding(g, init, f, k, t)
  {
    var n, pages := |init|, init + [last];
    FoundAt(g, OcrCheck, n + 1, targets, g.normalize(last.ocr.value), None, f);
    forall k: nat, t | k < n ensures IsOcrFinding(g, pages, f, k, t) == IsOcrFinding(g, init, f, k, t) {}
    forall t: Target ensures IsOcrFinding(g, pages, f, n, t)
        <==> Hit(g, OcrCheck, t.normalized, g.normalize(last.ocr.value))
             && f == FindingFor(g, OcrCheck, n + 1, t, g.normalize(last.ocr.value), None) {}
    hide IsOcrFinding, FindingsAt, FindingFor, Hit;
  }

  /** The metadata check reports exactly the targets found in the metadata, under page 0. */
  lemma MetadataFindingsAre(g: Gate, metadata: string, targets: seq<Target>, f: Finding)
    ensures f in MetadataFindings(g, metadata, targets)
            <==> exists t :: t in targets && Contains(g.normalize(metadata), t.normalized)
                   && f == Finding(g.digest(t.normalized), MetadataCheck, 0, None, None)
  {
    FoundAt(g, MetadataCheck, DOCUMENT_LEVEL_PAGE, targets, g.normalize(metadata), None, f);
    forall t: Target ensures Hit(g, MetadataCheck, t.normalized, g.normalize(metadata))
        <==> Contains(g.normalize(metadata), t.normalized) {}
    hide FindingsAt, Hit, Contains;
  }

  /** No normal form of a redacted string is found by any of the three checks. */
  ghost predicate Unrecoverable(g: Gate, doc: Reading, texts: iset<string>) {
    forall raw :: raw in texts && g.normalize(raw) != "" ==>
      && (forall page :: page in doc.pages ==> !Contains(g.normalize(page.textLayer), g.normalize(raw)))
      && (forall page :: page in doc.pages ==>
          page.ocr.Some? && g.score(g.normalize(raw), g.normalize(page.ocr.value)) < 85.0)
      && !Contains(g.normalize(doc.metadata), g.normalize(raw))
  }

  ghost function TextSet(strings: seq<string>): iset<string> {
    iset s | s in strings
  }

  lemma VerdictMeaning(g: Gate, pdf: Bytes, strings: seq<string>)
    ensures (Verified(g, pdf, strings).Some? && Verified(g, pdf, strings).value.verdict == Pass)
            <==> g.read(pdf).Some? && Unrecoverable(g, g.read(pdf).value, TextSet(strings))
  {
    if g.read(pdf).Some? {
      var doc, targets := g.read(pdf).value, Targets(g, strings);
      hide Hit, Unrecoverable, TextClean, OcrClean, MetadataClean, Targets, TextFindings, OcrFindings, MetadataFindings;
      NothingInText(g, doc.pages, targets);
      NothingInOcr(g, doc.pages, targets);
      NothingInMetadata(g, doc.metadata, targets);
      UnrecoverableByTarget(g, doc, strings);
    }
  }

  /** Each check passes exactly when it finds no target, and the overall verdict exactly when all three do. */
  lemma VerdictIsEveryCheck(g: Gate, pdf: Bytes, strings: seq<string>)
    requires Verified(g, pdf, strings).Some?
    ensures var v, doc, targets := Verified(g, pdf, strings).value, g.read(pdf).value, Targets(g, strings);
            && v.checks == [CheckSummary(TextLayerCheck, TextClean(g, doc.pages, targets), |doc.pages|),
                            CheckSummary(OcrCheck, OcrClean(g, doc.pages, targets), |doc.pages|),
                            CheckSummary(MetadataCheck, MetadataClean(g, doc.metadata, targets), |doc.pages|)]
            && (v.verdict == Pass <==> v.checks[0].passed && v.checks[1].passed && v.checks[2].passed)
            && (v.verdict == Pass <==> v.findings == [])
            && OcrFindings(g, doc.pages, targets).Some?
            && v.findings == TextFindings(g, doc.pages, targets) + OcrFindings(g, doc.pages, targets).value
                 + MetadataFindings(g, doc.metadata, targets)
  {
    var doc, targets := g.read(pdf).value, Targets(g, strings);
    NothingInText(g, doc.pages, targets);
    NothingInOcr(g, doc.pages, targets);
    NothingInMetadata(g, doc.metadata, targets);
    hide Targets, TextFindings, OcrFindings, MetadataFindings, TextClean, OcrClean, MetadataClean;
  }

  lemma UnrecoverableByTarget(g: Gate, doc: Reading, strings: seq<string>)
    ensures Unrecoverable(g, doc, TextSet(strings))
            <==> TextClean(g, doc.pages, Targets(g, strings))
                 && OcrClean(g, doc.pages, Targets(g, strings))
                 && MetadataClean(g, doc.metadata, Targets(g, strings))
  {
    var targets := Targets(g, strings);
    TargetsAre(g, strings);
    forall raw | raw in strings && g.normalize(raw) != "" ensures Target(g.normalize(raw), raw) in targets {}
    if Unrecoverable(g, doc, TextSet(strings)) {
      forall t | t in targets
        ensures forall page :: page in doc.pages ==>
                  && !Hit(g, TextLayerCheck, t.normalized, g.normalize(page.textLayer))
                  && page.ocr.Some? && !Hit(g, OcrCheck, t.normalized, g.normalize(page.ocr.value))
        ensures !Hit(g, MetadataCheck, t.normalized, g.normalize(doc.metadata))
      {
        assert t.raw in TextSet(strings);
      }
    }
    if TextClean(g, doc.pages, targets) && OcrClean(g, doc.pages, targets) && MetadataClean(g, doc.metadata, targets) {
      forall raw | raw in TextSet(strings) && g.normalize(raw) != ""
        ensures forall page :: page in doc.pages ==>
                  && !Contains(g.normalize(page.textLayer), g.normalize(raw))
                  && page.ocr.Some? && g.score(g.normalize(raw), g.normalize(page.ocr.value)) < OCR_MATCH_THRESHOLD
        ensures !Contains(g.normalize(doc.metadata), g.normalize(raw))
      {
        var t := Target(g.normalize(raw), raw);
        assert t in targets;
        assert !Hit(g, MetadataCheck, t.normalized, g.normalize(doc.metadata));
        forall page | page in doc.pages
          ensures !Contains(g.normalize(page.textLayer), g.normalize(raw))
          ensures page.ocr.Some? && g.score(g.normalize(raw), g.normalize(page.ocr.value)) < OCR_MATCH_THRESHOLD
        {
          assert !Hit(g, TextLayerCheck, t.normalized, g.normalize(page.textLayer));
          assert page.ocr.Some? && !Hit(g, OcrCheck, t.normalized, g.normalize(page.ocr.value));
        }
      }
    }
  }

  /** The same strings give the same targets, in whatever order and number. */
  lemma TargetsIgnoreOrder(g: Gate, strings: seq<string>, others: seq<string>)
    requires forall s :: s in strings <==> s in others
    ensures forall t :: t in Targets(g, strings) <==> t in Targets(g, others)
    ensures Targets(g, strings) == [] <==> Targets(g, others) == []
  {
    TargetsAre(g, strings);
    TargetsAre(g, others);
    var a, b := Targets(g, strings), Targets(g, others);
    assert a != [] ==> a[0] in b;
    assert b != [] ==> b[0] in a;
  }

  /** The verdict and the per-check outcomes depend on which strings were redacted, not on their order or repetition. */
  lemma VerdictIgnoresOrder(g: Gate, pdf: Bytes, strings: seq<string>, others: seq<string>)
    requires forall s :: s in strings <==> s in others
    ensures Verified(g, pdf, strings).Some? <==> Verified(g, pdf, others).Some?
    ensures Verified(g, pdf, strings).Some? ==>
              && Verified(g, pdf, strings).value.verdict == Verified(g, pdf, others).value.verdict
              && Verified(g, pdf, strings).value.checks == Verified(g, pdf, others).value.checks
  {
    TargetsIgnoreOrder(g, strings, others);
    if g.read(pdf).Some? {
      var doc, a, b := g.read(pdf).value, Targets(g, strings), Targets(g, others);
      SameTargetsSameOutcomes(g, doc, a, b);
      hide Targets, TextFindings, OcrFindings, MetadataFindings;
      assert TextFindings(g, doc.pages, a) == [] <==> TextFindings(g, doc.pages, b) == [];
    }
  }

  lemma SameTargetsSameOutcomes(g: Gate, doc: Reading, a: seq<Target>, b: seq<Target>)
    requires (forall t :: t in a <==> t in b) && (a == [] <==> b == [])
    ensures TextFindings(g, doc.pages, a) == [] <==> TextFindings(g, doc.pages, b) == []
    ensures OcrFindings(g, doc.pages, a).Some? <==> OcrFindings(g, doc.pages, b).Some?
    ensures OcrFindings(g, doc.pages, a) == Some([]) <==> OcrFindings(g, doc.pages, b) == Some([])
    ensures MetadataFindings(g, doc.metadata, a) == [] <==> MetadataFindings(g, doc.metadata, b) == []
  {
    hide TextFindings, OcrFindings, MetadataFindings, Hit;
    NothingInText(g, doc.pages, a);
    NothingInText(g, doc.pages, b);
    NothingInOcr(g, doc.pages, a);
    NothingInOcr(g, doc.pages, b);
    NothingInMetadata(g, doc.metadata, a);
    NothingInMetadata(g, doc.metadata, b);
  }

  // ---------- what the text check finds ----------

  /** A gate that normalizes by composing, case-folding, and collapsing and stripping whitespace. */
  ghost predicate NormalizesBy(g: Gate, u: Unicode) {
    u.space(' ') && forall s :: g.normalize(s) == NormalizeText(u, s)
  }

  /** No page's text layer shows any of the texts, apart from texts that are all whitespace. */
  ghost predicate NothingShown(g: Gate, u: Unicode, pages: seq<PageReading>, texts: iset<string>) {
    forall raw, page :: raw in texts && g.normalize(raw) != "" && page in pages ==>
        !ShowsText(u, page.textLayer, raw)
  }

  /** The text layer check is clean exactly when nothing is shown. */
  lemma TextCheckIsExact(g: Gate, u: Unicode, pages: seq<PageReading>, strings: seq<string>)
    requires NormalizesBy(g, u)
    ensures TextFindings(g, pages, Targets(g, strings)) == [] <==> NothingShown(g, u, pages, TextSet(strings))
  {
    var targets := Targets(g, strings);
    NothingInText(g, pages, targets);
    TargetsAre(g, strings);
    hide Targets, TextFindings, ShowsText, Contains, NormalizeText;
    forall raw, page: PageReading
      ensures Contains(g.normalize(page.textLayer), g.normalize(raw)) <==> ShowsText(u, page.textLayer, raw)
    {
      FoundIffShows(g, u, page.textLayer, raw);
    }
    if TextClean(g, pages, targets) {
      forall raw, page | raw in TextSet(strings) && g.normalize(raw) != "" && page in pages
        ensures !ShowsText(u, page.textLayer, raw)
      {
        assert Target(g.normalize(raw), raw) in targets;
        assert !Hit(g, TextLayerCheck, Target(g.normalize(raw), raw).normalized, g.normalize(page.textLayer));
      }
    }
    if NothingShown(g, u, pages, TextSet(strings)) {
      forall page, t | page in pages && t in targets
        ensures !Hit(g, TextLayerCheck, t.normalized, g.normalize(page.textLayer))
      {
        assert t.raw in TextSet(strings);
      }
    }
  }

  lemma FoundIffShows(g: Gate, u: Unicode, hay: string, raw: string)
    requires NormalizesBy(g, u)
    ensures Contains(g.normalize(hay), g.normalize(raw)) <==> ShowsText(u, hay, raw)
  {
    FoundIffShown(u.space, Folded(u, hay), Folded(u, raw));
  }

  /** Output in which some page's text layer shows a redacted string never passes, unless that is all whitespace. */
  lemma LeakNeverPasses(g: Gate, u: Unicode, pdf: Bytes, strings: seq<string>, page: PageReading, raw: string)
    requires NormalizesBy(g, u)
    requires g.read(pdf).Some? && page in g.read(pdf).value.pages
    requires raw in strings && g.normalize(raw) != "" && ShowsText(u, page.textLayer, raw)
    ensures Verified(g, pdf, strings).Some? ==> Verified(g, pdf, strings).value.verdict == Fail
  {
    FoundIffShows(g, u, page.textLayer, raw);
    VerdictMeaning(g, pdf, strings);
    assert raw in TextSet(strings);
  }

  /** What is unrecoverable is not shown. */
  lemma UnrecoverableIsNotShown(g: Gate, u: Unicode, doc: Reading, texts: iset<string>)
    requires NormalizesBy(g, u) && Unrecoverable(g, doc, texts)
    ensures NothingShown(g, u, doc.pages, texts)
  {
    forall raw, page | raw in texts && g.normalize(raw) != "" && page in doc.pages
      ensures !ShowsText(u, page.textLayer, raw)
    {
      FoundIffShows(g, u, page.textLayer, raw);
    }
  }

  // ---------- apply ----------

  datatype ApplyResult = ApplyResult(pdf: Bytes, verify: VerifyResult)

  predicate Passed(r: ApplyResult) {
    r.verify.verdict == Pass
  }

  /** The texts of the spans, each once. */
  function DistinctTexts(spans: seq<ApprovedSpan>): seq<string> {
    if spans == [] then [] else
    var before, text := DistinctTexts(spans[..|spans| - 1]), spans[|spans| - 1].text;
    if text in before then before else before + [text]
  }

  lemma {:induction false} DistinctTextsAre(spans: seq<ApprovedSpan>)
    ensures forall t :: t in DistinctTexts(spans) <==> exists s :: s in spans && s.text == t
    ensures forall a, b :: 0 <= a < b < |DistinctTexts(spans)| ==> DistinctTexts(spans)[a] != DistinctTexts(spans)[b]
  {
    if spans != [] {
      var init, last := spans[..|spans| - 1], spans[|spans| - 1];
      DistinctTextsAre(init);
      assert spans == init + [last];
    }
  }

  /** Burned and gated output, or None when any step raises. */
  function Applied(r: Renderer, g: Gate, pdf: Bytes, spans: seq<ApprovedSpan>): Option<ApplyResult> {
    match Burned(r, pdf, spans)
    case Err(_) => None
    case Ok(burned) =>
      match Verified(g, burned, DistinctTexts(spans))
      case None => None
      case Some(v) => Some(ApplyResult(burned, v))
  }

  method Apply(r: Renderer, g: Gate, pdf: Bytes, spans: seq<ApprovedSpan>) returns (result: Option<ApplyResult>)
    ensures result == Applied(r, g, pdf, spans)
  {
    var burned := Burn(r, pdf, spans);
    if burned.Err? { return None; }
    var verify := Verify(g, burned.value, DistinctTexts(spans));
    result := if verify.None? then None else Some(ApplyResult(burned.value, verify.value));
  }

  ghost function SpanTexts(spans: seq<ApprovedSpan>): iset<string> {
    iset s | s in spans :: s.text
  }

  /** Output that passes is the rebuilt raster of the burned pages, and no span's text is found in it. */
  lemma PassedOutput(r: Renderer, g: Gate, pdf: Bytes, spans: seq<ApprovedSpan>)
    requires Applied(r, g, pdf, spans).Some? && Passed(Applied(r, g, pdf, spans).value)
    ensures var out := Applied(r, g, pdf, spans).value.pdf;
            && r.rasterize(pdf).Some?
            && PagesExist(spans, |r.rasterize(pdf).value|)
            && out == r.rebuild(BurnedPages(r.rasterize(pdf).value, spans))
            && g.read(out).Some?
            && Unrecoverable(g, g.read(out).value, SpanTexts(spans))
  {
    DistinctTextsAre(spans);
    VerdictMeaning(g, Applied(r, g, pdf, spans).value.pdf, DistinctTexts(spans));
    assert TextSet(DistinctTexts(spans)) == SpanTexts(spans);
  }
}
