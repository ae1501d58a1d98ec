/** Scanning page text for account numbers and building their candidates (`detection/tier1.py`). */
module Tier1Detection {
  import opened Basics
  import opened TextLayer
  import opened Dedupe
  import DedupeTheorems
  import opened Luhn

  const MIN_ACCOUNT_DIGITS := 12
  const MAX_ACCOUNT_DIGITS := 19
  const CATEGORY_ACCOUNT_NUMBER := "account_number"
  const CONFIDENCE_VALIDATED := 1.0

  /** What int() gives for a character the pattern's digit class accepts, and None for any other character. */
  type DigitReader = char -> Option<Digit>

  predicate DigitAt(read: DigitReader, text: string, k: int) {
    0 <= k < |text| && read(text[k]).Some?
  }

  /** [start, end) matches the account pattern: 12 to 19 digits with no digit on either side. */
  predicate AccountMatch(read: DigitReader, text: string, start: int, end: int) {
    && 0 <= start && end <= |text|
    && MIN_ACCOUNT_DIGITS <= end - start <= MAX_ACCOUNT_DIGITS
    && (forall k :: start <= k < end ==> DigitAt(read, text, k))
    && !DigitAt(read, text, start - 1)
    && !DigitAt(read, text, end)
  }

  /** The values of the digits in [start, end). */
  function DigitsIn(read: DigitReader, text: string, start: int, end: int): seq<Digit>
    requires 0 <= start <= end <= |text| && forall k :: start <= k < end ==> DigitAt(read, text, k)
    decreases end - start
  {
    if start == end then []
    else assert DigitAt(read, text, start); [read(text[start]).value] + DigitsIn(read, text, start + 1, end)
  }

  function RunEnd(read: DigitReader, text: string, start: nat): (end: nat)
    requires start <= |text|
    ensures start <= end <= |text|
    ensures forall k :: start <= k < end ==> DigitAt(read, text, k)
    ensures !DigitAt(read, text, end)
    decreases |text| - start
  {
    if DigitAt(read, text, start) then RunEnd(read, text, start + 1) else start
  }

  /** Where the pattern matches from `start`, if it does. */
  function MatchFrom(read: DigitReader, text: string, start: nat): (end: Option<nat>)
    requires start <= |text|
    ensures end.Some? ==> AccountMatch(read, text, start, end.value)
    ensures end.None? ==> forall e :: !AccountMatch(read, text, start, e)
  {
    var end := RunEnd(read, text, start);
    assert forall e :: start <= e < end ==> DigitAt(read, text, e);
    assert forall e :: start <= end < e && AccountMatch(read, text, start, e) ==> DigitAt(read, text, end);
    if !DigitAt(read, text, start - 1) && MIN_ACCOUNT_DIGITS <= end - start <= MAX_ACCOUNT_DIGITS then Some(end)
        else None
  }

  /** Successive leftmost matches, each search resuming where the last match ended. */
  function FindAll(read: DigitReader, text: string, from: nat): seq<(nat, nat)>
    requires from <= |text|
    decreases |text| - from
  {
    match MatchFrom(read, text, from)
    case Some(end) => [(from, end)] + FindAll(read, text, end)
    case None => if from < |text| then FindAll(read, text, from + 1) else []
  }

  /** Two matches that share a character are one and the same match. */
  lemma MatchesAreDisjoint(read: DigitReader, text: string, s: int, e: int, s': int, e': int)
    requires AccountMatch(read, text, s, e) && AccountMatch(read, text, s', e')
    requires s < e' && s' < e
    ensures s == s' && e == e'
  {
    assert s < s' <= e - 1 ==> DigitAt(read, text, s' - 1);
    assert s' < s <= e' - 1 ==> DigitAt(read, text, s - 1);
    assert e < e' ==> DigitAt(read, text, e);
    assert e' < e ==> DigitAt(read, text, e');
  }

  /** The scan finds every match of the text, in order and without overlap, and nothing else. */
  lemma {:induction false} FindAllIsComplete(read: DigitReader, text: string, from: nat)
    requires from <= |text|
    ensures forall s: nat, e: nat :: (s, e) in FindAll(read, text, from) ==> from <= s && AccountMatch(read, text, s, e)
    ensures forall s: nat, e: nat :: from <= s && AccountMatch(read, text, s, e) ==> (s, e) in FindAll(read, text, from)
    ensures forall a, b :: 0 <= a < b < |FindAll(read, text, from)| ==>
              FindAll(read, text, from)[a].1 <= FindAll(read, text, from)[b].0
    decreases |text| - from
  {
    var found := FindAll(read, text, from);
    match MatchFrom(read, text, from)
    case Some(end) =>
      FindAllIsComplete(read, text, end);
      var rest := FindAll(read, text, end);
      forall b | 0 <= b < |rest| ensures end <= rest[b].0 { assert (rest[b].0, rest[b].1) in rest; }
      forall s: nat, e: nat | from <= s && AccountMatch(read, text, s, e) ensures (s, e) in found {
        if s < end { MatchesAreDisjoint(read, text, from, end, s, e); }
      }
    case None =>
      if from < |text| { FindAllIsComplete(read, text, from + 1); }
  }

  function Candidate(page: PageModel, start: int, end: int): CandidateSpan {
    CandidateSpan(page.pageNumber, start, end, ResolveSpanBBoxes(page.words, start, end), Slice(page.text, start, end),
                  CATEGORY_ACCOUNT_NUMBER, Tier1, CONFIDENCE_VALIDATED)
  }

  /** A run of the page that the detector must report. */
  ghost predicate IsAccountNumber(read: DigitReader, text: string, start: nat, end: nat) {
    AccountMatch(read, text, start, end) && Accepted(DigitsIn(read, text, start, end))
  }

  ghost predicate InOrderMatches(read: DigitReader, text: string, matches: seq<(nat, nat)>) {
    && (forall k :: 0 <= k < |matches| ==> AccountMatch(read, text, matches[k].0, matches[k].1))
    && (forall a, b :: 0 <= a < b < |matches| ==> matches[a].1 <= matches[b].0)
  }

  /** The candidates of the matches whose checksum is accepted. */
  ghost function Kept(read: DigitReader, page: PageModel, matches: seq<(nat, nat)>): seq<CandidateSpan> {
    if matches == [] then [] else
    var (start, end) := matches[|matches| - 1];
    Kept(read, page, matches[..|matches| - 1])
    + if IsAccountNumber(read, page.text, start, end) then [Candidate(page, start, end)] else []
  }

  lemma {:induction false} KeptIsSound(read: DigitReader, page: PageModel, matches: seq<(nat, nat)>, bound: int)
    requires InOrderMatches(read, page.text, matches)
    requires matches != [] ==> matches[|matches| - 1].1 <= bound
    ensures forall m :: m in Kept(read, page, matches) ==>
              && 0 <= m.start <= m.end <= bound
              && m == Candidate(page, m.start, m.end) && IsAccountNumber(read, page.text, m.start, m.end)
  {
    if matches != [] {
      var init := matches[..|matches| - 1];
      assert init != [] ==> matches[|init| - 1].1 <= matches[|init|].0 <= matches[|init|].1;
      KeptIsSound(read, page, init, bound);
    }
  }

  lemma {:induction false} KeptIsComplete(read: DigitReader, page: PageModel, matches: seq<(nat, nat)>, k: nat)
    requires k < |matches| && IsAccountNumber(read, page.text, matches[k].0, matches[k].1)
    ensures Candidate(page, matches[k].0, matches[k].1) in Kept(read, page, matches)
  {
    if k < |matches| - 1 { KeptIsComplete(read, page, matches[..|matches| - 1], k); }
  }

  lemma {:induction false} KeptIsTidy(read: DigitReader, page: PageModel, matches: seq<(nat, nat)>)
    requires InOrderMatches(read, page.text, matches)
    ensures DedupeTheorems.Tidy(Kept(read, page, matches))
  {
    if matches != [] {
      var init, last := matches[..|matches| - 1], matches[|matches| - 1];
      assert init != [] ==> init[|init| - 1] == matches[|init| - 1];
      KeptIsSound(read, page, init, last.0);
      KeptIsTidy(read, page, init);
      var before := Kept(read, page, init);
      forall a | 0 <= a < |before| ensures before[a].end <= last.0 { assert before[a] in before; }
    }
  }

  /** The digits that stand in [start, end), none if some character of it is no digit. */
  ghost predicate Reads(read: DigitReader, text: string, start: int, end: int, digits: seq<Digit>) {
    && 0 <= start <= end <= |text| && |digits| == end - start
    && forall k :: 0 <= k < |digits| ==> read(text[start + k]) == Some(digits[k])
  }

  /** 12 to 19 digits that pass the checksum, with no digit just before or after them. */
  ghost predicate ValidNumber(read: DigitReader, text: string, start: int, end: int) {
    && 12 <= end - start <= 19
    && (exists digits :: Reads(read, text, start, end, digits) && Accepted(digits))
    && (start > 0 ==> read(text[start - 1]).None?)
    && (end < |text| ==> read(text[end]).None?)
  }

  /** The span reports its range of the page as an account number that passed validation. */
  ghost predicate ReportsRange(page: PageModel, m: CandidateSpan) {
    && 0 <= m.start <= m.end <= |page.text|
    && m.pageNumber == page.pageNumber && m.text == page.text[m.start..m.end]
    && m.bboxes == ResolveSpanBBoxes(page.words, m.start, m.end)
    && m.category == "account_number" && m.sourceTier == Tier1 && m.confidence == 1.0
  }

  /** These spans are the valid numbers of the page, each reported once, and nothing else. */
  ghost predicate AreTheAccountNumbers(read: DigitReader, page: PageModel, spans: seq<CandidateSpan>) {
    && (forall m :: m in spans ==> ReportsRange(page, m) && ValidNumber(read, page.text, m.start, m.end))
    && (forall s, e :: ValidNumber(read, page.text, s, e) ==> exists m :: m in spans && m.start == s && m.end == e)
    && DedupeTheorems.Tidy(spans)
  }

  lemma {:induction false} DigitsInReads(read: DigitReader, text: string, start: int, end: int)
    requires 0 <= start <= end <= |text| && forall k :: start <= k < end ==> DigitAt(read, text, k)
    ensures Reads(read, text, start, end, DigitsIn(read, text, start, end))
    decreases end - start
  {
    if start < end {
      var all, rest := DigitsIn(read, text, start, end), DigitsIn(read, text, start + 1, end);
      DigitsInReads(read, text, start + 1, end);
      assert DigitAt(read, text, start);
      forall k | 0 <= k < |all| ensures read(text[start + k]) == Some(all[k]) {
        assert k > 0 ==> all[k] == rest[k - 1] && read(text[start + 1 + (k - 1)]) == Some(rest[k - 1]);
      }
    }
  }

  lemma ReadsOnce(read: DigitReader, text: string, start: int, end: int, a: seq<Digit>, b: seq<Digit>)
    requires Reads(read, text, start, end, a) && Reads(read, text, start, end, b)
    ensures a == b
  {
    forall k | 0 <= k < |a| ensures a[k] == b[k] { assert Some(a[k]) == read(text[start + k]) == Some(b[k]); }
  }

  lemma ValidIffMatched(read: DigitReader, text: string, s: int, e: int)
    ensures ValidNumber(read, text, s, e) <==> s >= 0 && e >= 0 && IsAccountNumber(read, text, s, e)
  {
    if exists digits :: Reads(read, text, s, e, digits) {
      var digits :| Reads(read, text, s, e, digits);
      forall k | s <= k < e ensures DigitAt(read, text, k) { assert read(text[s + (k - s)]) == Some(digits[k - s]); }
    }
    if 0 <= s <= e <= |text| && forall k :: s <= k < e ==> DigitAt(read, text, k) {
      DigitsInReads(read, text, s, e);
      forall digits | Reads(read, text, s, e, digits) ensures digits == DigitsIn(read, text, s, e) {
        ReadsOnce(read, text, s, e, digits, DigitsIn(read, text, s, e));
      }
    }
  }

  method DetectAccountNumber(read: DigitReader, page: PageModel) returns (spans: seq<CandidateSpan>)
    ensures spans == Kept(read, page, FindAll(read, page.text, 0))
    ensures AreTheAccountNumbers(read, page, spans)
  {
    AccountNumbersAreExact(read, page);
    hide AreTheAccountNumbers;
    var matches := FindAll(read, page.text, 0);
    FindAllIsComplete(read, page.text, 0);
    spans := [];
    for n := 0 to |matches|
      invariant spans == Kept(read, page, matches[..n])
    {
      var (start, end) := matches[n];
      assert (start, end) in matches;
      assert matches[..n + 1][..n] == matches[..n];
      var ok := LuhnCheck(DigitsIn(read, page.text, start, end));
      if ok {
        spans := spans + [Candidate(page, start, end)];
      }
    }
    assert matches[..|matches|] == matches;
  }

  /**
   * The detector reports exactly the runs of 12 to 19 digits, no longer ones, whose digits as they
   * stand pass the checksum, each with the boxes and text of its own range, and no two of its
   * candidates overlap.
   */
  lemma AccountNumbersAreExact(read: DigitReader, page: PageModel)
    ensures var spans := Kept(read, page, FindAll(read, page.text, 0));
            && AreTheAccountNumbers(read, page, spans)
            && (forall m :: m in spans ==> DedupeTheorems.Resolved(page, m))
  {
    KeptAreExact(read, page);
    var spans := Kept(read, page, FindAll(read, page.text, 0));
    hide Kept, FindAll, DedupeTheorems.Tidy, ValidNumber, IsAccountNumber, ResolveSpanBBoxes;
    forall m | m in spans ensures ReportsRange(page, m) && ValidNumber(read, page.text, m.start, m.end) {
      ValidIffMatched(read, page.text, m.start, m.end);
      ReportedAsFound(read, page, m);
    }
    forall s, e | ValidNumber(read, page.text, s, e) ensures exists m :: m in spans && m.start == s && m.end == e {
      ValidIffMatched(read, page.text, s, e);
      assert Candidate(page, s, e) in spans;
    }
  }

  lemma ReportedAsFound(read: DigitReader, page: PageModel, m: CandidateSpan)
    requires 0 <= m.start <= m.end && m == Candidate(page, m.start, m.end)
    requires IsAccountNumber(read, page.text, m.start, m.end)
    ensures ReportsRange(page, m)
  {
    SliceInRange(page.text, m.start, m.end);
  }

  lemma KeptAreExact(read: DigitReader, page: PageModel)
    ensures var spans := Kept(read, page, FindAll(read, page.text, 0));
            && (forall m :: m in spans ==> DedupeTheorems.Resolved(page, m))
            && (forall s: nat, e: nat :: IsAccountNumber(read, page.text, s, e) <==> Candidate(page, s, e) in spans)
            && (forall m :: m in spans ==>
                  0 <= m.start <= m.end && m == Candidate(page, m.start, m.end)
                      && IsAccountNumber(read, page.text, m.start, m.end))
            && DedupeTheorems.Tidy(spans)
  {
    var matches := FindAll(read, page.text, 0);
    FindAllIsComplete(read, page.text, 0);
    forall k | 0 <= k < |matches| ensures AccountMatch(read, page.text, matches[k].0, matches[k].1) {
      assert (matches[k].0, matches[k].1) in matches;
    }
    KeptIsSound(read, page, matches, if matches == [] then 0 else matches[|matches| - 1].1);
    KeptIsTidy(read, page, matches);
    forall s: nat, e: nat | IsAccountNumber(read, page.text, s, e)
      ensures Candidate(page, s, e) in Kept(read, page, matches)
    {
      assert (s, e) in matches;
      var k :| 0 <= k < |matches| && matches[k] == (s, e);
      KeptIsComplete(read, page, matches, k);
    }
  }
}
