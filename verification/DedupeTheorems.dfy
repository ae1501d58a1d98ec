/** What deduplication guarantees: hulls are unions, coverage is conserved, the output is canonical. */
module DedupeTheorems {
  import opened Basics
  import opened TextLayer
  import opened Components
  import opened Dedupe

  lemma LinkedRefl(t1: seq<CandidateSpan>, t2: seq<CandidateSpan>, x: nat)
    ensures Linked(t1, t2, x, x)
  {
    ConnectedRefl(OverlapEdges(t1, t2), x);
  }

  lemma LinkedSym(t1: seq<CandidateSpan>, t2: seq<CandidateSpan>, x: nat, y: nat)
    requires Linked(t1, t2, x, y)
    ensures Linked(t1, t2, y, x)
  {
    ConnectedSym(OverlapEdges(t1, t2), x, y);
  }

  lemma LinkedTrans(t1: seq<CandidateSpan>, t2: seq<CandidateSpan>, x: nat, y: nat, z: nat)
    requires Linked(t1, t2, x, y) && Linked(t1, t2, y, z)
    ensures Linked(t1, t2, x, z)
  {
    ConnectedTrans(OverlapEdges(t1, t2), x, y, z);
  }

  lemma OverlapLinks(t1: seq<CandidateSpan>, t2: seq<CandidateSpan>, i: nat, j: nat)
    requires i < |t1| && j < |t2| && SpansOverlap(t1[i], t2[j])
    ensures Linked(t1, t2, i, |t1| + j)
  {
    assert (i, |t1| + j) in OverlapEdges(t1, t2);
    ConnectedEdge(OverlapEdges(t1, t2), i, |t1| + j);
  }

  /** Neighbours in the graph are two spans that overlap. */
  lemma NeighboursOverlap(t1: seq<CandidateSpan>, t2: seq<CandidateSpan>, u: nat, v: nat)
    requires Adjacent(OverlapEdges(t1, t2), u, v)
    ensures u < |t1| + |t2| && v < |t1| + |t2|
    ensures SpansOverlap(Node(t1, t2, u), Node(t1, t2, v))
    ensures Linked(t1, t2, u, v)
  {
    ConnectedEdge(OverlapEdges(t1, t2), u, v);
  }

  /** All spans of a component share one page and one category. */
  lemma ComponentIsUniform(t1: seq<CandidateSpan>, t2: seq<CandidateSpan>, x: nat, y: nat)
    requires x < |t1| + |t2| && Linked(t1, t2, x, y)
    ensures y < |t1| + |t2|
    ensures Node(t1, t2, y).pageNumber == Node(t1, t2, x).pageNumber
    ensures Node(t1, t2, y).category == Node(t1, t2, x).category
  {
    var a := Node(t1, t2, x);
    var same := (k: nat) => k < |t1| + |t2| && Node(t1, t2, k).pageNumber == a.pageNumber
        && Node(t1, t2, k).category == a.category;
    forall u: nat, v: nat | Adjacent(OverlapEdges(t1, t2), u, v) && same(u) ensures same(v) {
      NeighboursOverlap(t1, t2, u, v);
    }
    ConnectedPreserves(OverlapEdges(t1, t2), x, y, same);
  }

  predicate Meets(m: CandidateSpan, lo: int, hi: int) {
    m.start < hi && lo < m.end
  }

  /** If no span of a component meets [lo, hi) and one starts before hi, the whole component ends by lo. */
  lemma UnmetLieLeft(t1: seq<CandidateSpan>, t2: seq<CandidateSpan>, i: nat, lo: int, hi: int)
    requires i < |t1| && lo <= hi
    requires forall m :: m in Members(t1, t2, i) ==> !Meets(m, lo, hi)
    requires MinStart(Members(t1, t2, i)) < hi
    ensures MaxEnd(Members(t1, t2, i)) <= lo
  {
    var ms := Members(t1, t2, i);
    var a :| 0 <= a < |ms| && ms[a].start == MinStart(ms);
    var b :| 0 <= b < |ms| && ms[b].end == MaxEnd(ms);
    assert ms[a] in ms && ms[b] in ms;
    var x: nat :| x < |t1| + |t2| && Linked(t1, t2, i, x) && Node(t1, t2, x) == ms[a];
    var y: nat :| y < |t1| + |t2| && Linked(t1, t2, i, y) && Node(t1, t2, y) == ms[b];
    LinkedSym(t1, t2, i, x);
    LinkedTrans(t1, t2, x, i, y);
    var left := (k: nat) => k < |t1| + |t2| && Linked(t1, t2, i, k) && Node(t1, t2, k).end <= lo;
    assert left(x);
    forall u: nat, v: nat | Adjacent(OverlapEdges(t1, t2), u, v) && left(u) ensures left(v) {
      NeighboursOverlap(t1, t2, u, v);
      LinkedTrans(t1, t2, i, u, v);
      assert Node(t1, t2, v) in ms;
      assert !Meets(Node(t1, t2, v), lo, hi);
    }
    ConnectedPreserves(OverlapEdges(t1, t2), x, y, left);
  }

  /** The hull of a component meets a range exactly when one of its spans does. */
  lemma HullMeetsIffMemberMeets(t1: seq<CandidateSpan>, t2: seq<CandidateSpan>, i: nat, lo: int, hi: int)
    requires i < |t1| && lo <= hi
    ensures MinStart(Members(t1, t2, i)) < hi && lo < MaxEnd(Members(t1, t2, i))
            <==> exists m :: m in Members(t1, t2, i) && Meets(m, lo, hi)
  {
    var ms := Members(t1, t2, i);
    if m :| m in ms && Meets(m, lo, hi) {
      var k :| 0 <= k < |ms| && ms[k] == m;
      assert MinStart(ms) <= ms[k].start && ms[k].end <= MaxEnd(ms);
    } else if MinStart(ms) < hi {
      UnmetLieLeft(t1, t2, i, lo, hi);
    }
  }

  /** A candidate whose boxes and text are those of its range, as every detector builds it. */
  ghost predicate Resolved(page: PageModel, m: CandidateSpan) {
    m.bboxes == ResolveSpanBBoxes(page.words, m.start, m.end) && m.text == Slice(page.text, m.start, m.end)
  }

  /**
   * The survivor of a component: its range is the hull and its provenance that of the first Tier-1
   * member, which it is itself unless that range is wider; otherwise it has the text of the page in
   * that range and the boxes resolved for it.
   */
  lemma SurvivorIsHull(page: PageModel, t1: seq<CandidateSpan>, t2: seq<CandidateSpan>, i: nat)
    requires i < |t1| && Leads(t1, t2, i)
    ensures var s := Survivor(page, t1, t2, i);
            && s.start == MinStart(Members(t1, t2, i))
            && s.end == MaxEnd(Members(t1, t2, i))
            && s.pageNumber == t1[i].pageNumber && s.category == t1[i].category
            && s.sourceTier == t1[i].sourceTier && s.confidence == t1[i].confidence
            && (Resolved(page, t1[i]) ==> Resolved(page, s))
            && (s.start == t1[i].start && s.end == t1[i].end ==> s == t1[i])
            && (s.start != t1[i].start || s.end != t1[i].end || Resolved(page, t1[i]) ==>
                  && s.bboxes == ResolveSpanBBoxes(page.words, s.start, s.end)
                  && (0 <= s.start <= s.end <= |page.text| ==> s.text == page.text[s.start..s.end]))
  {
    var _ := Members(t1, t2, i);
    var a := Tier1Members(t1, t2, i);
    SelectInRange((k: nat) => Linked(t1, t2, i, k), |t1|);
    LinkedRefl(t1, t2, i);
    assert i in a;
    HeadIsLeast(a, i);
    assert a[0] == i by { LinkedSym(t1, t2, i, a[0]); }
  }

  /**
   * A character lies in the survivor exactly when it lies in some span folded into it: nothing
   * lost, nothing invented.
   */
  lemma SurvivorIsUnion(page: PageModel, t1: seq<CandidateSpan>, t2: seq<CandidateSpan>, i: nat, c: int)
    requires i < |t1| && Leads(t1, t2, i)
    ensures Survivor(page, t1, t2, i).start <= c < Survivor(page, t1, t2, i).end
            <==> exists m :: m in Members(t1, t2, i) && Meets(m, c, c + 1)
    ensures forall m :: m in Members(t1, t2, i) ==>
              m.pageNumber == Survivor(page, t1, t2, i).pageNumber && m.category == Survivor(page, t1, t2, i).category
  {
    SurvivorIsHull(page, t1, t2, i);
    HullMeetsIffMemberMeets(t1, t2, i, c, c + 1);
    forall m | m in Members(t1, t2, i)
      ensures m.pageNumber == t1[i].pageNumber && m.category == t1[i].category
    {
      var k: nat :| k < |t1| + |t2| && Linked(t1, t2, i, k) && Node(t1, t2, k) == m;
      ComponentIsUniform(t1, t2, i, k);
    }
  }

  /** The boxes of the words that some span of ms touches, in document order. */
  ghost function WordsTouchedBy(words: seq<WordBBox>, ms: seq<CandidateSpan>): seq<BBox> {
    if words == [] then []
    else
      var here := if exists m :: m in ms && Touches(words[0], m.start, m.end) then [words[0].bbox] else [];
      here + WordsTouchedBy(words[1..], ms)
  }

  lemma {:induction false} HullBoxes(words: seq<WordBBox>, t1: seq<CandidateSpan>, t2: seq<CandidateSpan>, i: nat)
    requires i < |t1|
    requires forall k :: 0 <= k < |words| ==> words[k].start <= words[k].end
    ensures ResolveSpanBBoxes(words, MinStart(Members(t1, t2, i)), MaxEnd(Members(t1, t2, i)))
         == WordsTouchedBy(words, Members(t1, t2, i))
  {
    var ms := Members(t1, t2, i);
    if words != [] {
      HullBoxes(words[1..], t1, t2, i);
      HullMeetsIffMemberMeets(t1, t2, i, words[0].start, words[0].end);
      assert forall m :: m in ms ==> (Meets(m, words[0].start, words[0].end) <==> Touches(words[0], m.start, m.end));
    }
  }

  /** The survivor's boxes are exactly the words touched by some span folded into it. */
  lemma SurvivorBoxes(page: PageModel, t1: seq<CandidateSpan>, t2: seq<CandidateSpan>, i: nat)
    requires i < |t1| && Leads(t1, t2, i) && Resolved(page, t1[i])
    requires forall k :: 0 <= k < |page.words| ==> page.words[k].start <= page.words[k].end
    ensures Survivor(page, t1, t2, i).bboxes == WordsTouchedBy(page.words, Members(t1, t2, i))
  {
    SurvivorIsHull(page, t1, t2, i);
    HullBoxes(page.words, t1, t2, i);
  }

  // ---------- conservation of coverage ----------

  ghost predicate Covers(m: CandidateSpan, pageNumber: int, category: string, c: int) {
    m.pageNumber == pageNumber && m.category == category && Meets(m, c, c + 1)
  }

  lemma LeaderOf(t1: seq<CandidateSpan>, t2: seq<CandidateSpan>, k: nat) returns (i: nat)
    requires Anchored(t1, t2, k)
    ensures i < |t1| && Leads(t1, t2, i) && Linked(t1, t2, i, k)
  {
    i := 0;
    ghost var bound: nat :| bound < |t1| && Linked(t1, t2, bound, k);
    while !Linked(t1, t2, i, k)
      invariant i <= bound
      invariant forall n: nat :: n < i ==> !Linked(t1, t2, n, k)
      decreases bound - i
    {
      i := i + 1;
    }
    forall n: nat | n < i ensures !Linked(t1, t2, n, i) {
      if Linked(t1, t2, n, i) { LinkedTrans(t1, t2, n, i, k); }
    }
  }

  /** Element n of the output: a survivor, or past those a leftover. */
  lemma OutputAt(page: PageModel, t1: seq<CandidateSpan>, t2: seq<CandidateSpan>, n: nat)
    requires n < |Deduped(page, t1, t2)|
    ensures var ls, os, out := Leaders(t1, t2), Leftovers(t1, t2), Deduped(page, t1, t2);
            && |out| == |ls| + |os|
            && (n < |ls| ==> ls[n] < |t1| && Leads(t1, t2, ls[n]) && out[n] == Survivor(page, t1, t2, ls[n]))
            && (n >= |ls| ==>
                  os[n - |ls|] < |t2| && !Anchored(t1, t2, |t1| + os[n - |ls|]) && out[n] == t2[os[n - |ls|]])
  {
    SelectInRange((i: nat) => Leads(t1, t2, i), |t1|);
    SelectInRange((j: nat) => !Anchored(t1, t2, |t1| + j), |t2|);
  }

  lemma SurvivorAt(page: PageModel, t1: seq<CandidateSpan>, t2: seq<CandidateSpan>, i: nat) returns (n: nat)
    requires i < |t1| && Leads(t1, t2, i)
    ensures n < |Survivors(page, t1, t2)| && Survivors(page, t1, t2)[n] == Survivor(page, t1, t2, i)
  {
    var ls := Leaders(t1, t2);
    assert i in ls;
    n :| 0 <= n < |ls| && ls[n] == i;
  }

  lemma LeftoverAt(t1: seq<CandidateSpan>, t2: seq<CandidateSpan>, j: nat) returns (n: nat)
    requires j < |t2| && !Anchored(t1, t2, |t1| + j)
    ensures n < |Leftover(t1, t2)| && Leftover(t1, t2)[n] == t2[j]
  {
    var os := Leftovers(t1, t2);
    assert j in os;
    n :| 0 <= n < |os| && os[n] == j;
  }

  lemma SurvivorIsOutput(page: PageModel, t1: seq<CandidateSpan>, t2: seq<CandidateSpan>, i: nat)
    requires i < |t1| && Leads(t1, t2, i)
    ensures Survivor(page, t1, t2, i) in Deduped(page, t1, t2)
  {
    var n := SurvivorAt(page, t1, t2, i);
    hide Survivors, Leftover, Survivor, Leads;
    assert Deduped(page, t1, t2)[n] == Survivors(page, t1, t2)[n];
  }

  lemma LeftoverIsOutput(page: PageModel, t1: seq<CandidateSpan>, t2: seq<CandidateSpan>, j: nat)
    requires j < |t2| && !Anchored(t1, t2, |t1| + j)
    ensures t2[j] in Deduped(page, t1, t2)
  {
    var n := LeftoverAt(t1, t2, j);
    hide Survivors, Leftover, Anchored;
    assert Deduped(page, t1, t2)[|Survivors(page, t1, t2)| + n] == Leftover(t1, t2)[n];
  }

  lemma CoverageIsKept(page: PageModel, t1: seq<CandidateSpan>, t2: seq<CandidateSpan>, k: nat, pageNumber: int,
                       category: string, c: int)
    requires k < |t1| + |t2| && Covers(Node(t1, t2, k), pageNumber, category, c)
    ensures exists m :: m in Deduped(page, t1, t2) && Covers(m, pageNumber, category, c)
  {
    if Anchored(t1, t2, k) {
      var i := LeaderOf(t1, t2, k);
      SurvivorIsOutput(page, t1, t2, i);
      assert Node(t1, t2, k) in Members(t1, t2, i);
      SurvivorIsUnion(page, t1, t2, i, c);
      assert Covers(Survivor(page, t1, t2, i), pageNumber, category, c);
    } else {
      assert k >= |t1| by { if k < |t1| { LinkedRefl(t1, t2, k); } }
      LeftoverIsOutput(page, t1, t2, k - |t1|);
    }
  }

  lemma SurvivorCoversNoMore(page: PageModel, t1: seq<CandidateSpan>, t2: seq<CandidateSpan>, i: nat, pageNumber: int,
                             category: string, c: int)
    requires i < |t1| && Leads(t1, t2, i) && Covers(Survivor(page, t1, t2, i), pageNumber, category, c)
    ensures exists m :: m in t1 + t2 && Covers(m, pageNumber, category, c)
  {
    SurvivorIsUnion(page, t1, t2, i, c);
    var x :| x in Members(t1, t2, i) && Meets(x, c, c + 1);
    var k: nat :| k < |t1| + |t2| && Linked(t1, t2, i, k) && Node(t1, t2, k) == x;
    assert (t1 + t2)[k] == x;
    assert Covers(x, pageNumber, category, c);
  }

  /** A character of a page is claimed for a category by some input span exactly when it is by some output span. */
  lemma CoverageConserved(page: PageModel, t1: seq<CandidateSpan>, t2: seq<CandidateSpan>, pageNumber: int,
                          category: string, c: int)
    ensures (exists m :: m in t1 + t2 && Covers(m, pageNumber, category, c))
            <==> (exists m :: m in Deduped(page, t1, t2) && Covers(m, pageNumber, category, c))
  {
    if m :| m in t1 + t2 && Covers(m, pageNumber, category, c) {
      var k :| 0 <= k < |t1 + t2| && (t1 + t2)[k] == m;
      CoverageIsKept(page, t1, t2, k, pageNumber, category, c);
    }
    if m :| m in Deduped(page, t1, t2) && Covers(m, pageNumber, category, c) {
      var n :| 0 <= n < |Deduped(page, t1, t2)| && Deduped(page, t1, t2)[n] == m;
      OutputAt(page, t1, t2, n);
      if n < |Leaders(t1, t2)| {
        SurvivorCoversNoMore(page, t1, t2, Leaders(t1, t2)[n], pageNumber, category, c);
      } else {
        assert m in t1 + t2;
      }
    }
  }

  // ---------- conservation of boxes ----------

  ghost predicate AllResolved(page: PageModel, spans: seq<CandidateSpan>) {
    forall m :: m in spans ==> Resolved(page, m)
  }

  /** Some span of this page and category has the box. */
  ghost predicate Boxed(spans: seq<CandidateSpan>, pageNumber: int, category: string, b: BBox) {
    exists m :: m in spans && m.pageNumber == pageNumber && m.category == category && b in m.bboxes
  }

  /** A word is touched by a survivor exactly when it is by some span folded into it. */
  lemma SurvivorTouches(page: PageModel, t1: seq<CandidateSpan>, t2: seq<CandidateSpan>, i: nat, w: WordBBox)
    requires i < |t1| && Leads(t1, t2, i) && w.start <= w.end
    ensures Touches(w, Survivor(page, t1, t2, i).start, Survivor(page, t1, t2, i).end)
            <==> exists m :: m in Members(t1, t2, i) && Touches(w, m.start, m.end)
  {
    SurvivorIsHull(page, t1, t2, i);
    HullMeetsIffMemberMeets(t1, t2, i, w.start, w.end);
    hide Survivor, Leads;
    assert forall m :: m in Members(t1, t2, i) ==> (Meets(m, w.start, w.end) <==> Touches(w, m.start, m.end));
  }

  /** The survivor's boxes are those of the spans folded into it, which share its page and category. */
  lemma SurvivorHasBox(page: PageModel, t1: seq<CandidateSpan>, t2: seq<CandidateSpan>, i: nat, b: BBox)
    requires i < |t1| && Leads(t1, t2, i) && AllResolved(page, t1) && AllResolved(page, t2)
    requires forall w :: w in page.words ==> w.start <= w.end
    ensures b in Survivor(page, t1, t2, i).bboxes <==> exists m :: m in Members(t1, t2, i) && b in m.bboxes
    ensures forall m :: m in Members(t1, t2, i) ==>
              m.pageNumber == Survivor(page, t1, t2, i).pageNumber && m.category == Survivor(page, t1, t2, i).category
  {
    var s, ms := Survivor(page, t1, t2, i), Members(t1, t2, i);
    SurvivorIsUnion(page, t1, t2, i, 0);
    SurvivorIsHull(page, t1, t2, i);
    ResolvedBoxes(page.words, s.start, s.end, b);
    hide Survivor, Leads, ResolveSpanBBoxes;
    forall m | m in ms
      ensures b in m.bboxes <==> exists w :: w in page.words && w.bbox == b && Touches(w, m.start, m.end)
    {
      MemberIsResolved(page, t1, t2, i, m);
      ResolvedBoxes(page.words, m.start, m.end, b);
    }
    hide Members, Resolved, AllResolved;
    forall w | w in page.words
      ensures Touches(w, s.start, s.end) <==> exists m :: m in ms && Touches(w, m.start, m.end)
    {
      SurvivorTouches(page, t1, t2, i, w);
    }
  }

  lemma MemberIsResolved(page: PageModel, t1: seq<CandidateSpan>, t2: seq<CandidateSpan>, i: nat, m: CandidateSpan)
    requires i < |t1| && AllResolved(page, t1) && AllResolved(page, t2) && m in Members(t1, t2, i)
    ensures m in t1 + t2 && Resolved(page, m)
  {
    var k: nat :| k < |t1| + |t2| && Linked(t1, t2, i, k) && Node(t1, t2, k) == m;
    assert (t1 + t2)[k] == m;
  }

  lemma BoxIsKept(page: PageModel, t1: seq<CandidateSpan>, t2: seq<CandidateSpan>, k: nat, b: BBox)
    requires AllResolved(page, t1) && AllResolved(page, t2)
    requires forall w :: w in page.words ==> w.start <= w.end
    requires k < |t1| + |t2| && b in Node(t1, t2, k).bboxes
    ensures Boxed(Deduped(page, t1, t2), Node(t1, t2, k).pageNumber, Node(t1, t2, k).category, b)
  {
    hide Survivor, Leads, Linked, Deduped, AllResolved;
    if Anchored(t1, t2, k) {
      var i := LeaderOf(t1, t2, k);
      SurvivorIsOutput(page, t1, t2, i);
      assert Node(t1, t2, k) in Members(t1, t2, i);
      SurvivorHasBox(page, t1, t2, i, b);
    } else {
      assert k >= |t1| by { if k < |t1| { LinkedRefl(t1, t2, k); } }
      LeftoverIsOutput(page, t1, t2, k - |t1|);
    }
  }

  /** The boxes claimed for a category on a page are the same before and after deduplication. */
  lemma BoxesConserved(page: PageModel, t1: seq<CandidateSpan>, t2: seq<CandidateSpan>, pageNumber: int,
                       category: string, b: BBox)
    requires AllResolved(page, t1) && AllResolved(page, t2)
    requires forall w :: w in page.words ==> w.start <= w.end
    ensures Boxed(t1 + t2, pageNumber, category, b) <==> Boxed(Deduped(page, t1, t2), pageNumber, category, b)
  {
    hide AllResolved, Deduped;
    if Boxed(t1 + t2, pageNumber, category, b) {
      var m :| m in t1 + t2 && m.pageNumber == pageNumber && m.category == category && b in m.bboxes;
      var k :| 0 <= k < |t1 + t2| && (t1 + t2)[k] == m;
      BoxIsKept(page, t1, t2, k, b);
    }
    if Boxed(Deduped(page, t1, t2), pageNumber, category, b) {
      var out := Deduped(page, t1, t2);
      var m :| m in out && m.pageNumber == pageNumber && m.category == category && b in m.bboxes;
      var n :| 0 <= n < |out| && out[n] == m;
      BoxIsNotNew(page, t1, t2, n, b);
    }
  }

  lemma BoxIsNotNew(page: PageModel, t1: seq<CandidateSpan>, t2: seq<CandidateSpan>, n: nat, b: BBox)
    requires AllResolved(page, t1) && AllResolved(page, t2)
    requires forall w :: w in page.words ==> w.start <= w.end
    requires n < |Deduped(page, t1, t2)| && b in Deduped(page, t1, t2)[n].bboxes
    ensures Boxed(t1 + t2, Deduped(page, t1, t2)[n].pageNumber, Deduped(page, t1, t2)[n].category, b)
  {
    OutputAt(page, t1, t2, n);
    hide Survivor, Leads, Linked, Deduped, AllResolved, Anchored;
    var out := Deduped(page, t1, t2);
    if n < |Leaders(t1, t2)| {
      var i := Leaders(t1, t2)[n];
      SurvivorHasBox(page, t1, t2, i, b);
      var m :| m in Members(t1, t2, i) && b in m.bboxes;
      MemberIsResolved(page, t1, t2, i, m);
    } else {
      assert out[n] in t1 + t2;
    }
  }

  // ---------- canonical output ----------

  /** Each span's bounds are in order and no two of the spans overlap. */
  ghost predicate Tidy(spans: seq<CandidateSpan>) {
    && (forall k :: 0 <= k < |spans| ==> spans[k].start <= spans[k].end)
    && (forall a, b :: 0 <= a < b < |spans| ==> !SpansOverlap(spans[a], spans[b]))
  }

  ghost predicate InBounds(spans: seq<CandidateSpan>) {
    forall k :: 0 <= k < |spans| ==> spans[k].start <= spans[k].end
  }

  /** Any two spans, of whichever tiers, that overlap are joined by a path of overlaps between the tiers. */
  ghost predicate OverlapsAreJoined(t1: seq<CandidateSpan>, t2: seq<CandidateSpan>) {
    forall x: nat, y: nat :: x < y < |t1| + |t2| && SpansOverlap(Node(t1, t2, x), Node(t1, t2, y)) ==>
        Linked(t1, t2, x, y)
  }

  ghost predicate Coherent(t1: seq<CandidateSpan>, t2: seq<CandidateSpan>) {
    InBounds(t1) && InBounds(t2) && OverlapsAreJoined(t1, t2)
  }

  lemma OverlappingAreLinked(t1: seq<CandidateSpan>, t2: seq<CandidateSpan>, x: nat, y: nat)
    requires OverlapsAreJoined(t1, t2) && x < |t1| + |t2| && y < |t1| + |t2|
    requires SpansOverlap(Node(t1, t2, x), Node(t1, t2, y))
    ensures Linked(t1, t2, x, y)
  {
    if x == y { LinkedRefl(t1, t2, x); }
    if y < x { LinkedSym(t1, t2, y, x); }
  }

  /** In tidy tiers overlaps run between the tiers only, and are edges. */
  lemma TidyTiersAreJoined(t1: seq<CandidateSpan>, t2: seq<CandidateSpan>)
    requires Tidy(t1) && Tidy(t2)
    ensures Coherent(t1, t2)
  {
    forall x: nat, y: nat | x < y < |t1| + |t2| && SpansOverlap(Node(t1, t2, x), Node(t1, t2, y))
      ensures Linked(t1, t2, x, y)
    {
      if x < |t1| <= y { OverlapLinks(t1, t2, x, y - |t1|); }
    }
  }

  /** One end of every edge is in Tier 1. */
  lemma NeighbourIsAnchored(t1: seq<CandidateSpan>, t2: seq<CandidateSpan>, x: nat, v: nat)
    requires Adjacent(OverlapEdges(t1, t2), x, v)
    ensures Anchored(t1, t2, x)
  {
    NeighboursOverlap(t1, t2, x, v);
    LinkedSym(t1, t2, x, v);
    LinkedRefl(t1, t2, x);
  }

  /** A span without a path to Tier 1 has no path to any other span. */
  lemma UnanchoredIsAlone(t1: seq<CandidateSpan>, t2: seq<CandidateSpan>, x: nat, y: nat)
    requires !Anchored(t1, t2, x) && Linked(t1, t2, x, y)
    ensures x == y
  {
    forall v: nat ensures !Adjacent(OverlapEdges(t1, t2), x, v) {
      if Adjacent(OverlapEdges(t1, t2), x, v) { NeighbourIsAnchored(t1, t2, x, v); }
    }
    ConnectedPreserves(OverlapEdges(t1, t2), x, y, (k: nat) => k == x);
  }

  /** A range on the page and category of a component that its survivor overlaps is overlapped by one of its spans. */
  lemma OverlappedMember(page: PageModel, t1: seq<CandidateSpan>, t2: seq<CandidateSpan>, i: nat,
                         other: CandidateSpan) returns (k: nat)
    requires i < |t1| && Leads(t1, t2, i) && other.start <= other.end
    requires SpansOverlap(Survivor(page, t1, t2, i), other)
    ensures k < |t1| + |t2| && Linked(t1, t2, i, k) && SpansOverlap(Node(t1, t2, k), other)
  {
    SurvivorIsHull(page, t1, t2, i);
    SurvivorIsUnion(page, t1, t2, i, 0);
    HullMeetsIffMemberMeets(t1, t2, i, other.start, other.end);
    var m :| m in Members(t1, t2, i) && Meets(m, other.start, other.end);
    k :| k < |t1| + |t2| && Linked(t1, t2, i, k) && Node(t1, t2, k) == m;
  }

  lemma SurvivorIsOrdered(page: PageModel, t1: seq<CandidateSpan>, t2: seq<CandidateSpan>, i: nat)
    requires i < |t1| && Leads(t1, t2, i) && t1[i].start <= t1[i].end
    ensures Survivor(page, t1, t2, i).start <= Survivor(page, t1, t2, i).end
  {
    SurvivorIsHull(page, t1, t2, i);
    LinkedRefl(t1, t2, i);
    assert Node(t1, t2, i) in Members(t1, t2, i);
    var n :| 0 <= n < |Members(t1, t2, i)| && Members(t1, t2, i)[n] == t1[i];
    assert MinStart(Members(t1, t2, i)) <= Members(t1, t2, i)[n].start;
  }

  /** Where overlaps are joined a survivor overlaps only spans of its own component. */
  lemma OverlapIsWithinComponent(page: PageModel, t1: seq<CandidateSpan>, t2: seq<CandidateSpan>, i: nat, k: nat)
    requires Coherent(t1, t2) && i < |t1| && Leads(t1, t2, i) && k < |t1| + |t2|
    requires SpansOverlap(Survivor(page, t1, t2, i), Node(t1, t2, k))
    ensures Linked(t1, t2, i, k)
  {
    var m := OverlappedMember(page, t1, t2, i, Node(t1, t2, k));
    OverlappingAreLinked(t1, t2, m, k);
    LinkedTrans(t1, t2, i, m, k);
  }

  lemma SurvivorsApart(page: PageModel, t1: seq<CandidateSpan>, t2: seq<CandidateSpan>, a: nat, b: nat)
    requires Coherent(t1, t2) && a < b < |t1| && Leads(t1, t2, a) && Leads(t1, t2, b)
    ensures !SpansOverlap(Survivor(page, t1, t2, a), Survivor(page, t1, t2, b))
  {
    if SpansOverlap(Survivor(page, t1, t2, a), Survivor(page, t1, t2, b)) {
      SurvivorIsOrdered(page, t1, t2, a);
      var k := OverlappedMember(page, t1, t2, b, Survivor(page, t1, t2, a));
      OverlapIsWithinComponent(page, t1, t2, a, k);
      LinkedSym(t1, t2, b, k);
      LinkedTrans(t1, t2, a, k, b);
    }
  }

  lemma SurvivorLeftoverApart(page: PageModel, t1: seq<CandidateSpan>, t2: seq<CandidateSpan>, i: nat, j: nat)
    requires Coherent(t1, t2) && i < |t1| && Leads(t1, t2, i) && j < |t2| && !Anchored(t1, t2, |t1| + j)
    ensures !SpansOverlap(Survivor(page, t1, t2, i), t2[j])
  {
    if SpansOverlap(Survivor(page, t1, t2, i), t2[j]) {
      OverlapIsWithinComponent(page, t1, t2, i, |t1| + j);
    }
  }

  lemma LeftoversApart(t1: seq<CandidateSpan>, t2: seq<CandidateSpan>, j: nat, k: nat)
    requires Coherent(t1, t2) && j < k < |t2| && !Anchored(t1, t2, |t1| + j)
    ensures !SpansOverlap(t2[j], t2[k])
  {
    if SpansOverlap(t2[j], t2[k]) {
      OverlappingAreLinked(t1, t2, |t1| + j, |t1| + k);
      UnanchoredIsAlone(t1, t2, |t1| + j, |t1| + k);
    }
  }

  lemma InInputOrder(t1: seq<CandidateSpan>, t2: seq<CandidateSpan>)
    ensures Ascending(Leaders(t1, t2)) && Ascending(Leftovers(t1, t2))
  {
  }

  lemma OutputsApart(page: PageModel, t1: seq<CandidateSpan>, t2: seq<CandidateSpan>, a: nat, b: nat,
                     x: CandidateSpan, y: CandidateSpan)
    requires Coherent(t1, t2) && a < b < |Deduped(page, t1, t2)|
    requires x == Deduped(page, t1, t2)[a] && y == Deduped(page, t1, t2)[b]
    ensures !SpansOverlap(x, y)
  {
    hide Deduped, Survivor, Leads, Anchored, Leaders, Leftovers, Coherent;
    InInputOrder(t1, t2);
    var ls, os := Leaders(t1, t2), Leftovers(t1, t2);
    OutputAt(page, t1, t2, a);
    OutputAt(page, t1, t2, b);
    if b < |ls| {
      SurvivorsApart(page, t1, t2, ls[a], ls[b]);
    } else if a < |ls| {
      SurvivorLeftoverApart(page, t1, t2, ls[a], os[b - |ls|]);
    } else {
      assert os[a - |ls|] < os[b - |ls|];
      LeftoversApart(t1, t2, os[a - |ls|], os[b - |ls|]);
    }
  }

  lemma OutputIsOrdered(page: PageModel, t1: seq<CandidateSpan>, t2: seq<CandidateSpan>, n: nat)
    requires Coherent(t1, t2) && n < |Deduped(page, t1, t2)|
    ensures Deduped(page, t1, t2)[n].start <= Deduped(page, t1, t2)[n].end
  {
    OutputAt(page, t1, t2, n);
    if n < |Leaders(t1, t2)| { SurvivorIsOrdered(page, t1, t2, Leaders(t1, t2)[n]); }
  }

  lemma CoherentGivesTidy(page: PageModel, t1: seq<CandidateSpan>, t2: seq<CandidateSpan>)
    requires Coherent(t1, t2)
    ensures Tidy(Deduped(page, t1, t2))
  {
    hide Deduped, Coherent;
    var out := Deduped(page, t1, t2);
    forall n | 0 <= n < |out| ensures out[n].start <= out[n].end { OutputIsOrdered(page, t1, t2, n); }
    forall a, b | 0 <= a < b < |out|
      ensures !SpansOverlap(out[a], out[b])
    {
      OutputsApart(page, t1, t2, a, b, out[a], out[b]);
    }
  }

  /** What overlaps a span folded into a survivor overlaps the survivor. */
  lemma SurvivorOverlaps(page: PageModel, t1: seq<CandidateSpan>, t2: seq<CandidateSpan>, i: nat, x: nat,
                         other: CandidateSpan)
    requires i < |t1| && Leads(t1, t2, i) && x < |t1| + |t2| && Linked(t1, t2, i, x)
    requires SpansOverlap(Node(t1, t2, x), other) && other.start <= other.end
    ensures SpansOverlap(Survivor(page, t1, t2, i), other)
  {
    var m := Node(t1, t2, x);
    assert m in Members(t1, t2, i) && Meets(m, other.start, other.end);
    hide Survivor, Leads, Linked;
    SurvivorIsHull(page, t1, t2, i);
    HullMeetsIffMemberMeets(t1, t2, i, other.start, other.end);
    ComponentIsUniform(t1, t2, i, x);
  }

  /** Output n is what span x became: its component's survivor, or x itself. */
  ghost predicate Became(page: PageModel, t1: seq<CandidateSpan>, t2: seq<CandidateSpan>, x: nat, n: nat) {
    && x < |t1| + |t2| && n < |Deduped(page, t1, t2)|
    && (forall other :: SpansOverlap(Node(t1, t2, x), other) && other.start <= other.end ==>
        SpansOverlap(Deduped(page, t1, t2)[n], other))
    && (Anchored(t1, t2, x) ==> n < |Leaders(t1, t2)| && Linked(t1, t2, Leaders(t1, t2)[n], x))
    && (!Anchored(t1, t2, x) ==>
          && |Leaders(t1, t2)| <= n < |Leaders(t1, t2)| + |Leftovers(t1, t2)|
          && |t1| + Leftovers(t1, t2)[n - |Leaders(t1, t2)|] == x)
  }

  lemma AnchoredBecame(page: PageModel, t1: seq<CandidateSpan>, t2: seq<CandidateSpan>, x: nat) returns (n: nat)
    requires x < |t1| + |t2| && Anchored(t1, t2, x)
    ensures Became(page, t1, t2, x, n)
  {
    var i := LeaderOf(t1, t2, x);
    assert i in Leaders(t1, t2);
    n :| 0 <= n < |Leaders(t1, t2)| && Leaders(t1, t2)[n] == i;
    OutputLength(page, t1, t2);
    assert n < |Deduped(page, t1, t2)|;
    OutputAt(page, t1, t2, n);
    hide Survivor, Leads, Linked, Anchored, Deduped, Leaders, Leftovers;
    forall other | SpansOverlap(Node(t1, t2, x), other) && other.start <= other.end
      ensures SpansOverlap(Deduped(page, t1, t2)[n], other)
    {
      SurvivorOverlaps(page, t1, t2, i, x, other);
    }
  }

  lemma UnanchoredBecame(page: PageModel, t1: seq<CandidateSpan>, t2: seq<CandidateSpan>, x: nat) returns (n: nat)
    requires x < |t1| + |t2| && !Anchored(t1, t2, x)
    ensures Became(page, t1, t2, x, n)
  {
    if x < |t1| { LinkedRefl(t1, t2, x); }
    var os := Leftovers(t1, t2);
    assert x - |t1| in os;
    var b :| 0 <= b < |os| && os[b] == x - |t1|;
    n := |Leaders(t1, t2)| + b;
    OutputLength(page, t1, t2);
    assert n < |Deduped(page, t1, t2)|;
    OutputAt(page, t1, t2, n);
    hide Survivor, Leads, Linked, Anchored, Deduped, Leaders, Leftovers, SpansOverlap;
    assert Deduped(page, t1, t2)[n] == Node(t1, t2, x);
  }

  /** Two spans that became one output are joined. */
  lemma OneOutputIsJoined(page: PageModel, t1: seq<CandidateSpan>, t2: seq<CandidateSpan>, x: nat, y: nat, n: nat)
    requires Became(page, t1, t2, x, n) && Became(page, t1, t2, y, n)
    ensures Linked(t1, t2, x, y)
  {
    hide Deduped, Leaders, Leftovers, Linked, Anchored, SpansOverlap;
    if Anchored(t1, t2, x) {
      LinkedSym(t1, t2, Leaders(t1, t2)[n], x);
      LinkedTrans(t1, t2, x, Leaders(t1, t2)[n], y);
    } else {
      LinkedRefl(t1, t2, x);
    }
  }

  lemma OverlapSurvives(page: PageModel, t1: seq<CandidateSpan>, t2: seq<CandidateSpan>, x: nat, y: nat, a: nat, b: nat)
    requires InBounds(t1) && InBounds(t2) && Tidy(Deduped(page, t1, t2))
    requires Became(page, t1, t2, x, a) && Became(page, t1, t2, y, b) && SpansOverlap(Node(t1, t2, x), Node(t1, t2, y))
    ensures a == b
  {
    hide Deduped, Leaders, Leftovers, Linked, Anchored;
    var out := Deduped(page, t1, t2);
    assert SpansOverlap(out[a], Node(t1, t2, y));
    assert SpansOverlap(Node(t1, t2, y), out[a]);
    assert SpansOverlap(out[b], out[a]) && SpansOverlap(out[a], out[b]);
  }

  /**
   * No two output spans of a page and category overlap exactly when any two input spans that
   * overlap are joined by a path of overlaps between the tiers.
   */
  lemma OutputIsTidyIffJoined(page: PageModel, t1: seq<CandidateSpan>, t2: seq<CandidateSpan>)
    requires InBounds(t1) && InBounds(t2)
    ensures Tidy(Deduped(page, t1, t2)) <==> OverlapsAreJoined(t1, t2)
  {
    hide Became, Deduped, Linked, Tidy;
    if OverlapsAreJoined(t1, t2) { CoherentGivesTidy(page, t1, t2); }
    if Tidy(Deduped(page, t1, t2)) {
      forall x: nat, y: nat | x < y < |t1| + |t2| && SpansOverlap(Node(t1, t2, x), Node(t1, t2, y))
        ensures Linked(t1, t2, x, y)
      {
        var a := BecameWhat(page, t1, t2, x);
        var b := BecameWhat(page, t1, t2, y);
        OverlapSurvives(page, t1, t2, x, y, a, b);
        OneOutputIsJoined(page, t1, t2, x, y, a);
      }
    }
  }

  lemma BecameWhat(page: PageModel, t1: seq<CandidateSpan>, t2: seq<CandidateSpan>, x: nat) returns (n: nat)
    requires x < |t1| + |t2|
    ensures Became(page, t1, t2, x, n)
  {
    hide Became, Anchored;
    if Anchored(t1, t2, x) { n := AnchoredBecame(page, t1, t2, x); } else { n := UnanchoredBecame(page, t1, t2, x); }
  }

  // ---------- when deduplicating changes nothing ----------

  ghost predicate NoOverlap(t1: seq<CandidateSpan>, t2: seq<CandidateSpan>) {
    forall i, j :: 0 <= i < |t1| && 0 <= j < |t2| ==> !SpansOverlap(t1[i], t2[j])
  }

  lemma ApartIsUnlinked(t1: seq<CandidateSpan>, t2: seq<CandidateSpan>, x: nat, y: nat)
    requires NoOverlap(t1, t2)
    ensures Linked(t1, t2, x, y) <==> x == y
  {
    LinkedRefl(t1, t2, x);
    if Linked(t1, t2, x, y) { ConnectedPreserves(OverlapEdges(t1, t2), x, y, (k: nat) => k == x); }
  }

  lemma ApartIsUnanchored(t1: seq<CandidateSpan>, t2: seq<CandidateSpan>, k: nat)
    requires NoOverlap(t1, t2) && k >= |t1|
    ensures !Anchored(t1, t2, k)
  {
    forall i: nat | i < |t1| ensures !Linked(t1, t2, i, k) { ApartIsUnlinked(t1, t2, i, k); }
  }

  lemma ApartIsUnchanged(page: PageModel, t1: seq<CandidateSpan>, t2: seq<CandidateSpan>)
    requires NoOverlap(t1, t2)
    ensures Deduped(page, t1, t2) == t1 + t2
  {
    forall x: nat, y: nat ensures Linked(t1, t2, x, y) <==> x == y { ApartIsUnlinked(t1, t2, x, y); }
    AllSelected((i: nat) => Leads(t1, t2, i), |t1|);
    var kept := (j: nat) => !Anchored(t1, t2, |t1| + j);
    forall j: nat | j < |t2| ensures kept(j) { ApartIsUnanchored(t1, t2, |t1| + j); }
    AllSelected(kept, |t2|);
    forall i: nat | i < |t1| ensures Survivor(page, t1, t2, i) == t1[i] {
      AscendingIsDetermined(Tier1Members(t1, t2, i), [i]);
      AscendingIsDetermined(Tier2Members(t1, t2, i), []);
    }
    assert Survivors(page, t1, t2) == t1;
    assert Leftover(t1, t2) == t2;
  }

  lemma {:induction false} AllSelected(p: nat -> bool, n: nat)
    requires forall x: nat :: x < n ==> p(x)
    ensures |Select(p, n)| == n && forall k :: 0 <= k < n ==> Select(p, n)[k] == k
  {
    if n > 0 { AllSelected(p, n - 1); }
  }

  lemma LeftoversLength(t1: seq<CandidateSpan>, t2: seq<CandidateSpan>, j: nat)
    requires j < |t2| && Anchored(t1, t2, |t1| + j)
    ensures |Leaders(t1, t2)| <= |t1| && |Leftovers(t1, t2)| < |t2|
  {
    var kept := (k: nat) => !Anchored(t1, t2, |t1| + k);
    assert !kept(j);
    hide Anchored, Leads;
    SelectLength((k: nat) => Leads(t1, t2, k), |t1|);
    SelectOmits(kept, |t2|, j);
  }

  lemma OutputLength(page: PageModel, t1: seq<CandidateSpan>, t2: seq<CandidateSpan>)
    ensures |Survivors(page, t1, t2)| == |Leaders(t1, t2)| && |Leftover(t1, t2)| == |Leftovers(t1, t2)|
  {
  }

  lemma OverlapShortens(page: PageModel, t1: seq<CandidateSpan>, t2: seq<CandidateSpan>, i: nat, j: nat)
    requires i < |t1| && j < |t2| && SpansOverlap(t1[i], t2[j])
    ensures |Deduped(page, t1, t2)| < |t1| + |t2|
  {
    OverlapLinks(t1, t2, i, j);
    assert Anchored(t1, t2, |t1| + j);
    hide Linked, Anchored, Leaders, Leftovers, Survivors, Leftover;
    LeftoversLength(t1, t2, j);
    OutputLength(page, t1, t2);
  }

  /** Deduplication returns its input exactly when no Tier-1 span overlaps a Tier-2 span. */
  lemma UnchangedIffApart(page: PageModel, t1: seq<CandidateSpan>, t2: seq<CandidateSpan>)
    ensures Deduped(page, t1, t2) == t1 + t2 <==> NoOverlap(t1, t2)
  {
    if NoOverlap(t1, t2) {
      ApartIsUnchanged(page, t1, t2);
    } else {
      hide Deduped;
      var i, j :| 0 <= i < |t1| && 0 <= j < |t2| && SpansOverlap(t1[i], t2[j]);
      OverlapShortens(page, t1, t2, i, j);
    }
  }

  /** Deduplicating the survivors against the leftovers changes nothing exactly when no survivor overlaps a leftover. */
  lemma IdempotentIffApart(page: PageModel, t1: seq<CandidateSpan>, t2: seq<CandidateSpan>)
    ensures Deduped(page, Survivors(page, t1, t2), Leftover(t1, t2)) == Deduped(page, t1, t2)
            <==> NoOverlap(Survivors(page, t1, t2), Leftover(t1, t2))
  {
    UnchangedIffApart(page, Survivors(page, t1, t2), Leftover(t1, t2));
  }

  /** From tidy tiers it always changes nothing: the same list in the same order. */
  lemma DedupeIsIdempotent(page: PageModel, t1: seq<CandidateSpan>, t2: seq<CandidateSpan>)
    requires Tidy(t1) && Tidy(t2)
    ensures Deduped(page, Survivors(page, t1, t2), Leftover(t1, t2)) == Deduped(page, t1, t2)
  {
    hide Survivors, Leftover;
    TidyTiersAreJoined(t1, t2);
    CoherentGivesTidy(page, t1, t2);
    IdempotentIffApart(page, t1, t2);
    var a, b := Survivors(page, t1, t2), Leftover(t1, t2);
    forall i, j | 0 <= i < |a| && 0 <= j < |b| ensures !SpansOverlap(a[i], b[j]) {
      assert (a + b)[i] == a[i] && (a + b)[|a| + j] == b[j];
    }
  }

  function Range(start: int, end: int, tier: SourceTier): CandidateSpan {
    CandidateSpan(1, start, end, [], "", "ssn", tier, 1.0)
  }

  /**
   * The tidiness of the tiers is needed: with Tier-1 [0,4) and Tier-2 [3,8), [7,12) the first
   * pass folds [0,8) and leaves [7,12) alone, and a second pass would fold those two.
   */
  lemma IdempotenceNeedsTidyTiers(page: PageModel)
    ensures var t1, t2 := [Range(0, 4, Tier1)], [Range(3, 8, Tier2), Range(7, 12, Tier2)];
            Deduped(page, Survivors(page, t1, t2), Leftover(t1, t2)) != Deduped(page, t1, t2)
  {
    hide Deduped, Survivors, Leftover;
    ChainIsNotSettled(page, Range(0, 4, Tier1), Range(3, 8, Tier2), Range(7, 12, Tier2), 7);
  }

  lemma ChainShape(a: CandidateSpan, b: CandidateSpan, c: CandidateSpan)
    requires SpansOverlap(a, b) && !SpansOverlap(a, c)
    ensures Linked([a], [b, c], 0, 1) && !Anchored([a], [b, c], 2) && Leads([a], [b, c], 0)
  {
    var t1, t2 := [a], [b, c];
    OverlapLinks(t1, t2, 0, 0);
    if Linked(t1, t2, 0, 2) { ConnectedPreserves(OverlapEdges(t1, t2), 0, 2, (k: nat) => k < 2); }
  }

  /** A Tier-2 span that meets only another Tier-2 span, which a Tier-1 span absorbs, is left for a second pass. */
  lemma ChainIsNotSettled(page: PageModel, a: CandidateSpan, b: CandidateSpan, c: CandidateSpan, at: int)
    requires SpansOverlap(a, b) && !SpansOverlap(a, c) && Meets(b, at, at + 1) && Meets(c, at, at + 1)
    requires c.pageNumber == a.pageNumber && c.category == a.category
    ensures Deduped(page, Survivors(page, [a], [b, c]), Leftover([a], [b, c])) != Deduped(page, [a], [b, c])
  {
    hide Anchored, Leads, Linked, Deduped, Survivors, Survivor, Leftover;
    ChainShape(a, b, c);
    FoldReaches(page, [a], [b, c], at);
    OverlapIsSeen(page, [a], [b, c], 0, 1);
  }

  /** The survivor of the first Tier-1 span covers what a Tier-2 span overlapping it covers. */
  lemma FoldReaches(page: PageModel, t1: seq<CandidateSpan>, t2: seq<CandidateSpan>, c: int)
    requires |t1| > 0 && |t2| > 0 && Leads(t1, t2, 0) && Linked(t1, t2, 0, |t1|) && Meets(t2[0], c, c + 1)
    ensures var s := Survivor(page, t1, t2, 0);
        s.start <= c < s.end && s.pageNumber == t1[0].pageNumber && s.category == t1[0].category
  {
    SurvivorIsHull(page, t1, t2, 0);
    assert t2[0] in Members(t1, t2, 0) by { assert Node(t1, t2, |t1|) == t2[0]; }
    hide Survivor, Leads, Linked;
    SurvivorIsUnion(page, t1, t2, 0, c);
  }

  /** A survivor that overlaps a leftover keeps deduplication from being idempotent. */
  lemma OverlapIsSeen(page: PageModel, t1: seq<CandidateSpan>, t2: seq<CandidateSpan>, i: nat, j: nat)
    requires i < |t1| && Leads(t1, t2, i) && j < |t2| && !Anchored(t1, t2, |t1| + j)
    requires SpansOverlap(Survivor(page, t1, t2, i), t2[j])
    ensures Deduped(page, Survivors(page, t1, t2), Leftover(t1, t2)) != Deduped(page, t1, t2)
  {
    var a := SurvivorAt(page, t1, t2, i);
    var b := LeftoverAt(t1, t2, j);
    hide Survivors, Leftover, Survivor, Leads, Anchored, Deduped;
    IdempotentIffApart(page, t1, t2);
  }

  // ---------- when a second pass changes nothing, told from the input ----------

  /** No Tier-2 span that is joined to Tier 1 overlaps one that is not. */
  ghost predicate Unchained(t1: seq<CandidateSpan>, t2: seq<CandidateSpan>) {
    forall j: nat, k: nat :: j < |t2| && k < |t2| && Anchored(t1, t2, |t1| + j) && !Anchored(t1, t2, |t1| + k) ==>
      !SpansOverlap(t2[j], t2[k])
  }

  lemma UnchainedIsApart(page: PageModel, t1: seq<CandidateSpan>, t2: seq<CandidateSpan>, i: nat, j: nat)
    requires i < |t1| && Leads(t1, t2, i) && j < |t2| && !Anchored(t1, t2, |t1| + j) && t2[j].start <= t2[j].end
    requires Unchained(t1, t2)
    ensures !SpansOverlap(Survivor(page, t1, t2, i), t2[j])
  {
    if SpansOverlap(Survivor(page, t1, t2, i), t2[j]) {
      var k := OverlappedMember(page, t1, t2, i, t2[j]);
      assert Anchored(t1, t2, k);
      if k < |t1| { OverlapLinks(t1, t2, k, j); }
    }
  }

  lemma ChainIsSeen(page: PageModel, t1: seq<CandidateSpan>, t2: seq<CandidateSpan>, j: nat, k: nat)
    requires j < |t2| && k < |t2| && Anchored(t1, t2, |t1| + j) && !Anchored(t1, t2, |t1| + k)
    requires SpansOverlap(t2[j], t2[k]) && t2[k].start <= t2[k].end
    ensures Deduped(page, Survivors(page, t1, t2), Leftover(t1, t2)) != Deduped(page, t1, t2)
  {
    var i := LeaderOf(t1, t2, |t1| + j);
    assert Node(t1, t2, |t1| + j) == t2[j];
    SurvivorOverlaps(page, t1, t2, i, |t1| + j, t2[k]);
    hide Deduped, Survivors, Survivor, Leftover, Anchored, Leads;
    OverlapIsSeen(page, t1, t2, i, k);
  }

  /**
   * A second pass changes nothing exactly when no Tier-2 span joined to Tier 1 overlaps one that is
   * not: the folded range is then the only thing that could reach it.
   */
  lemma IdempotentIffUnchained(page: PageModel, t1: seq<CandidateSpan>, t2: seq<CandidateSpan>)
    requires forall k :: 0 <= k < |t2| ==> t2[k].start <= t2[k].end
    ensures Deduped(page, Survivors(page, t1, t2), Leftover(t1, t2)) == Deduped(page, t1, t2) <==> Unchained(t1, t2)
  {
    hide Deduped, Survivors, Leftover, Survivor, Linked;
    var ss, os := Survivors(page, t1, t2), Leftover(t1, t2);
    if Unchained(t1, t2) {
      forall a, b | 0 <= a < |ss| && 0 <= b < |os| ensures !SpansOverlap(ss[a], os[b]) {
        UnchainedOutputsApart(page, t1, t2, a, b);
      }
      IdempotentIffApart(page, t1, t2);
    } else {
      var j: nat, k: nat :| j < |t2| && k < |t2| && Anchored(t1, t2, |t1| + j) && !Anchored(t1, t2, |t1| + k)
          && SpansOverlap(t2[j], t2[k]);
      ChainIsSeen(page, t1, t2, j, k);
    }
  }

  lemma SurvivorElement(page: PageModel, t1: seq<CandidateSpan>, t2: seq<CandidateSpan>, a: nat)
    requires a < |Survivors(page, t1, t2)|
    ensures |Leaders(t1, t2)| == |Survivors(page, t1, t2)| && Leaders(t1, t2)[a] < |t1|
    ensures Leads(t1, t2, Leaders(t1, t2)[a])
    ensures Survivors(page, t1, t2)[a] == Survivor(page, t1, t2, Leaders(t1, t2)[a])
  {
    SelectInRange((i: nat) => Leads(t1, t2, i), |t1|);
  }

  lemma LeftoverElement(t1: seq<CandidateSpan>, t2: seq<CandidateSpan>, b: nat)
    requires b < |Leftover(t1, t2)|
    ensures |Leftovers(t1, t2)| == |Leftover(t1, t2)| && Leftovers(t1, t2)[b] < |t2|
    ensures !Anchored(t1, t2, |t1| + Leftovers(t1, t2)[b]) && Leftover(t1, t2)[b] == t2[Leftovers(t1, t2)[b]]
  {
    SelectInRange((j: nat) => !Anchored(t1, t2, |t1| + j), |t2|);
  }

  lemma UnchainedOutputsApart(page: PageModel, t1: seq<CandidateSpan>, t2: seq<CandidateSpan>, a: nat, b: nat)
    requires forall k :: 0 <= k < |t2| ==> t2[k].start <= t2[k].end
    requires Unchained(t1, t2) && a < |Survivors(page, t1, t2)| && b < |Leftover(t1, t2)|
    ensures !SpansOverlap(Survivors(page, t1, t2)[a], Leftover(t1, t2)[b])
  {
    hide *;
    SurvivorElement(page, t1, t2, a);
    LeftoverElement(t1, t2, b);
    UnchainedIsApart(page, t1, t2, Leaders(t1, t2)[a], Leftovers(t1, t2)[b]);
  }
}
