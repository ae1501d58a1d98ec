/** Merging Tier-2 candidates into the Tier-1 candidates they overlap (`detection/tier2.py`). */
module Dedupe {
  import opened Basics
  import opened TextLayer
  import opened Components

  datatype SourceTier = Tier1 | Tier2 | Tier3 | Manual

  datatype CandidateSpan = CandidateSpan(
    pageNumber: int, start: int, end: int, bboxes: seq<BBox>, text: string,
    category: string, sourceTier: SourceTier, confidence: real)

  // ---------- the source's expressions ----------

  /** A slice bound: negative counts from the end, and everything is clamped to the text. */
  function SliceBound(n: nat, i: int): (r: nat)
    ensures r <= n
  {
    if i < 0 then (if n + i < 0 then 0 else n + i) else if i > n then n else i
  }

  function Slice(text: string, start: int, end: int): string {
    var lo, hi := SliceBound(|text|, start), SliceBound(|text|, end);
    if lo <= hi then text[lo..hi] else []
  }

  /** In range a slice is the text between its bounds. */
  lemma SliceInRange(text: string, start: int, end: int)
    requires 0 <= start <= end <= |text|
    ensures Slice(text, start, end) == text[start..end]
  {
  }

  /**
   * Out of range: a negative bound counts from the end of the text and no further than its
   * beginning, a bound past the end stands for the end, and bounds in the wrong order give nothing.
   */
  lemma SliceOutOfRange(text: string, start: int, end: int)
    ensures start < 0 ==> Slice(text, start, end) == Slice(text, if |text| + start > 0 then |text| + start else 0, end)
    ensures end < 0 ==> Slice(text, start, end) == Slice(text, start, if |text| + end > 0 then |text| + end else 0)
    ensures start > |text| ==> Slice(text, start, end) == ""
    ensures end > |text| ==> Slice(text, start, end) == Slice(text, start, |text|)
    ensures 0 <= end <= start ==> Slice(text, start, end) == ""
  {
  }

  predicate SpansOverlap(a: CandidateSpan, b: CandidateSpan) {
    && a.pageNumber == b.pageNumber
    && a.category == b.category
    && a.start < b.end
    && b.start < a.end
  }

  /** Ranges that are not empty overlap exactly when they share a character, on one page and in one category. */
  lemma OverlapIffShared(a: CandidateSpan, b: CandidateSpan)
    requires a.start < a.end && b.start < b.end
    ensures SpansOverlap(a, b)
            <==> a.pageNumber == b.pageNumber && a.category == b.category
                 && ShareCharacter(a.start, a.end, b.start, b.end)
  {
    RangesMeet(a.start, a.end, b.start, b.end);
  }

  function MinStart(spans: seq<CandidateSpan>): (r: int)
    requires spans != []
    ensures forall k :: 0 <= k < |spans| ==> r <= spans[k].start
    ensures exists k :: 0 <= k < |spans| && r == spans[k].start
  {
    if |spans| == 1 then spans[0].start else
    var rest := MinStart(spans[1..]);
    if spans[0].start < rest then spans[0].start else rest
  }

  function MaxEnd(spans: seq<CandidateSpan>): (r: int)
    requires spans != []
    ensures forall k :: 0 <= k < |spans| ==> spans[k].end <= r
    ensures exists k :: 0 <= k < |spans| && r == spans[k].end
  {
    if |spans| == 1 then spans[0].end else
    var rest := MaxEnd(spans[1..]);
    if spans[0].end > rest then spans[0].end else rest
  }

  function MergeGroup(page: PageModel, tier1Group: seq<CandidateSpan>, tier2Group: seq<CandidateSpan>): CandidateSpan
    requires tier1Group != []
  {
    var primary := tier1Group[0];
    var all := tier1Group + tier2Group;
    var start, end := MinStart(all), MaxEnd(all);
    if start == primary.start && end == primary.end then primary
    else primary.(start := start, end := end,
                  bboxes := ResolveSpanBBoxes(page.words, start, end),
                  text := Slice(page.text, start, end))
  }

  // ---------- what deduplication means, by reachability ----------

  /** Span k of the two lists laid end to end, Tier 1 first. */
  function Node(t1: seq<CandidateSpan>, t2: seq<CandidateSpan>, k: nat): CandidateSpan
    requires k < |t1| + |t2|
  {
    if k < |t1| then t1[k] else t2[k - |t1|]
  }

  /** Edges run only between a Tier-1 and a Tier-2 span that overlap. */
  ghost function OverlapEdges(t1: seq<CandidateSpan>, t2: seq<CandidateSpan>): (r: Edges)
    ensures forall x: nat, y: nat :: (x, y) in r <==> x < |t1| <= y < |t1| + |t2| && SpansOverlap(t1[x], t2[y - |t1|])
  {
    set x: nat, y: nat | x < |t1| && y < |t1| + |t2| && |t1| <= y && SpansOverlap(t1[x], t2[y - |t1|]) :: (x, y)
  }

  ghost predicate Linked(t1: seq<CandidateSpan>, t2: seq<CandidateSpan>, x: nat, y: nat) {
    Connected(OverlapEdges(t1, t2), x, y)
  }

  /** The first Tier-1 span of its component, in input order. */
  ghost predicate Leads(t1: seq<CandidateSpan>, t2: seq<CandidateSpan>, i: nat) {
    forall k: nat :: k < i ==> !Linked(t1, t2, k, i)
  }

  /** Node k is joined, directly or through others, to some Tier-1 span. */
  ghost predicate Anchored(t1: seq<CandidateSpan>, t2: seq<CandidateSpan>, k: nat) {
    exists i: nat :: i < |t1| && Linked(t1, t2, i, k)
  }

  ghost function Leaders(t1: seq<CandidateSpan>, t2: seq<CandidateSpan>): seq<nat> {
    Select((i: nat) => Leads(t1, t2, i), |t1|)
  }

  ghost function Tier1Members(t1: seq<CandidateSpan>, t2: seq<CandidateSpan>, i: nat): seq<nat> {
    Select((k: nat) => Linked(t1, t2, i, k), |t1|)
  }

  ghost function Tier2Members(t1: seq<CandidateSpan>, t2: seq<CandidateSpan>, i: nat): seq<nat> {
    Select((j: nat) => Linked(t1, t2, i, |t1| + j), |t2|)
  }

  ghost function Leftovers(t1: seq<CandidateSpan>, t2: seq<CandidateSpan>): seq<nat> {
    Select((j: nat) => !Anchored(t1, t2, |t1| + j), |t2|)
  }

  function Pick(spans: seq<CandidateSpan>, indices: seq<nat>): (r: seq<CandidateSpan>)
    requires forall k :: 0 <= k < |indices| ==> indices[k] < |spans|
    ensures |r| == |indices| && forall k :: 0 <= k < |r| ==> r[k] == spans[indices[k]]
  {
    seq(|indices|, k requires 0 <= k < |indices| => spans[indices[k]])
  }

  /** The spans of one component: its Tier-1 members, then its Tier-2 members. */
  ghost function Members(t1: seq<CandidateSpan>, t2: seq<CandidateSpan>, i: nat): (r: seq<CandidateSpan>)
    requires i < |t1|
    ensures |r| > 0 && |Tier1Members(t1, t2, i)| > 0
    ensures forall k: nat :: k < |t1| + |t2| && Linked(t1, t2, i, k) ==> Node(t1, t2, k) in r
    ensures forall m :: m in r ==> exists k: nat :: k < |t1| + |t2| && Linked(t1, t2, i, k) && Node(t1, t2, k) == m
  {
    SelectInRange((k: nat) => Linked(t1, t2, i, k), |t1|);
    SelectInRange((j: nat) => Linked(t1, t2, i, |t1| + j), |t2|);
    LeadsItsMembers(t1, t2, i);
    var r := Pick(t1, Tier1Members(t1, t2, i)) + Pick(t2, Tier2Members(t1, t2, i));
    assert forall k: nat :: k < |t1| + |t2| && Linked(t1, t2, i, k) ==> Node(t1, t2, k) in r by {
      forall k: nat | k < |t1| + |t2| && Linked(t1, t2, i, k) ensures Node(t1, t2, k) in r {
        MemberIsPicked(t1, t2, i, k);
      }
    }
    assert forall m :: m in r ==> exists k: nat :: k < |t1| + |t2| && Linked(t1, t2, i, k) && Node(t1, t2, k) == m by {
      forall n | 0 <= n < |r|
        ensures exists k: nat :: k < |t1| + |t2| && Linked(t1, t2, i, k) && Node(t1, t2, k) == r[n]
      {
        PickedIsMember(t1, t2, i, n);
      }
    }
    r
  }

  lemma LeadsItsMembers(t1: seq<CandidateSpan>, t2: seq<CandidateSpan>, i: nat)
    requires i < |t1|
    ensures |Tier1Members(t1, t2, i)| > 0
  {
    ConnectedRefl(OverlapEdges(t1, t2), i);
    assert i in Tier1Members(t1, t2, i);
  }

  lemma PickedIsMember(t1: seq<CandidateSpan>, t2: seq<CandidateSpan>, i: nat, n: nat)
    requires i < |t1|
    requires forall n :: 0 <= n < |Tier1Members(t1, t2, i)| ==> Tier1Members(t1, t2, i)[n] < |t1|
    requires forall n :: 0 <= n < |Tier2Members(t1, t2, i)| ==> Tier2Members(t1, t2, i)[n] < |t2|
    requires n < |Tier1Members(t1, t2, i)| + |Tier2Members(t1, t2, i)|
    ensures exists k: nat :: k < |t1| + |t2| && Linked(t1, t2, i, k)
              && Node(t1, t2, k) == (Pick(t1, Tier1Members(t1, t2, i)) + Pick(t2, Tier2Members(t1, t2, i)))[n]
  {
    hide Linked;
    var a, b := Tier1Members(t1, t2, i), Tier2Members(t1, t2, i);
    if n < |a| {
      assert a[n] in a;
      assert Linked(t1, t2, i, a[n]) && Node(t1, t2, a[n]) == Pick(t1, a)[n];
    } else {
      assert b[n - |a|] in b;
      assert Linked(t1, t2, i, |t1| + b[n - |a|]) && Node(t1, t2, |t1| + b[n - |a|]) == Pick(t2, b)[n - |a|];
    }
  }

  lemma MemberIsPicked(t1: seq<CandidateSpan>, t2: seq<CandidateSpan>, i: nat, k: nat)
    requires i < |t1| && k < |t1| + |t2| && Linked(t1, t2, i, k)
    requires forall n :: 0 <= n < |Tier1Members(t1, t2, i)| ==> Tier1Members(t1, t2, i)[n] < |t1|
    requires forall n :: 0 <= n < |Tier2Members(t1, t2, i)| ==> Tier2Members(t1, t2, i)[n] < |t2|
    ensures Node(t1, t2, k) in Pick(t1, Tier1Members(t1, t2, i)) + Pick(t2, Tier2Members(t1, t2, i))
  {
    var a, b := Tier1Members(t1, t2, i), Tier2Members(t1, t2, i);
    if k < |t1| {
      assert k in a;
      var n :| 0 <= n < |a| && a[n] == k;
      assert Pick(t1, a)[n] == t1[k];
    } else {
      assert k - |t1| in b;
      var n :| 0 <= n < |b| && b[n] == k - |t1|;
      assert Pick(t2, b)[n] == t2[k - |t1|];
    }
  }

  /** The one span that component of Tier-1 span i is folded into. */
  ghost function Survivor(page: PageModel, t1: seq<CandidateSpan>, t2: seq<CandidateSpan>, i: nat): CandidateSpan
    requires i < |t1|
  {
    SelectInRange((k: nat) => Linked(t1, t2, i, k), |t1|);
    SelectInRange((j: nat) => Linked(t1, t2, i, |t1| + j), |t2|);
    LeadsItsMembers(t1, t2, i);
    MergeGroup(page, Pick(t1, Tier1Members(t1, t2, i)), Pick(t2, Tier2Members(t1, t2, i)))
  }

  ghost function Survivors(page: PageModel, t1: seq<CandidateSpan>, t2: seq<CandidateSpan>): (r: seq<CandidateSpan>) {
    SelectInRange((i: nat) => Leads(t1, t2, i), |t1|);
    seq(|Leaders(t1, t2)|, k requires 0 <= k < |Leaders(t1, t2)| => Survivor(page, t1, t2, Leaders(t1, t2)[k]))
  }

  ghost function Leftover(t1: seq<CandidateSpan>, t2: seq<CandidateSpan>): seq<CandidateSpan> {
    SelectInRange((j: nat) => !Anchored(t1, t2, |t1| + j), |t2|);
    Pick(t2, Leftovers(t1, t2))
  }

  /** One survivor per component with a Tier-1 member, in order of its first one; then the unanchored Tier-2 spans. */
  ghost function Deduped(page: PageModel, t1: seq<CandidateSpan>, t2: seq<CandidateSpan>): seq<CandidateSpan> {
    Survivors(page, t1, t2) + Leftover(t1, t2)
  }
}
