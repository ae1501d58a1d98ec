/** The deduplication code itself: grouping by a disjoint-set structure, then folding each group. */
module Tier2 {
  import opened Basics
  import opened TextLayer
  import opened DisjointSets
  import opened Components
  import opened Dedupe

  /** A group lists exactly one component: its Tier-1 members, the first of which leads it, and its Tier-2 members. */
  ghost predicate IsComponent(t1: seq<CandidateSpan>, t2: seq<CandidateSpan>, members1: seq<nat>, members2: seq<nat>) {
    && members1 != [] && members1[0] < |t1|
    && Leads(t1, t2, members1[0])
    && members1 == Tier1Members(t1, t2, members1[0])
    && members2 == Tier2Members(t1, t2, members1[0])
  }

  ghost predicate InSomeGroup(groups: map<nat, seq<nat>>, k: nat) {
    exists r :: r in groups && k in groups[r]
  }

  ghost predicate OnlyComponents(t1: seq<CandidateSpan>, t2: seq<CandidateSpan>,
                                 groups1: map<nat, seq<nat>>, groups2: map<nat, seq<nat>>) {
    forall r :: r in groups1 ==> IsComponent(t1, t2, groups1[r], GetOrEmpty(groups2, r))
  }

  ghost predicate FirstsDiffer(groups1: map<nat, seq<nat>>) {
    && (forall r :: r in groups1 ==> groups1[r] != [])
    && (forall r, q :: r in groups1 && q in groups1 && groups1[r][0] == groups1[q][0] ==> r == q)
  }

  ghost predicate AllTier1Grouped(t1: seq<CandidateSpan>, groups1: map<nat, seq<nat>>) {
    forall i: nat :: i < |t1| ==> InSomeGroup(groups1, i)
  }

  ghost predicate AnchoredTier2Grouped(t1: seq<CandidateSpan>, t2: seq<CandidateSpan>, groups2: map<nat, seq<nat>>) {
    forall j: nat :: j < |t2| ==> (InSomeGroup(groups2, j) <==> Anchored(t1, t2, |t1| + j))
  }

  /** The groups are the components that hold a Tier-1 span, each once. */
  ghost predicate Grouping(t1: seq<CandidateSpan>, t2: seq<CandidateSpan>,
                           groups1: map<nat, seq<nat>>, groups2: map<nat, seq<nat>>) {
    && groups2.Keys <= groups1.Keys
    && OnlyComponents(t1, t2, groups1, groups2)
    && FirstsDiffer(groups1)
    && AllTier1Grouped(t1, groups1)
    && AnchoredTier2Grouped(t1, t2, groups2)
  }

  function GetOrEmpty(groups: map<nat, seq<nat>>, root: nat): seq<nat> {
    if root in groups then groups[root] else []
  }

  /** The edges met by the nested loop once it has finished row i up to column j. */
  ghost function EdgesBefore(t1: seq<CandidateSpan>, t2: seq<CandidateSpan>, i: nat, j: nat): (r: Edges)
    ensures forall e :: e in r <==> e in OverlapEdges(t1, t2) && (e.0 < i || (e.0 == i && e.1 < |t1| + j))
  {
    set e | e in OverlapEdges(t1, t2) && (e.0 < i || (e.0 == i && e.1 < |t1| + j)) :: e
  }

  lemma EdgesGrow(t1: seq<CandidateSpan>, t2: seq<CandidateSpan>, i: nat, j: nat)
    requires i < |t1| && j < |t2|
    ensures SpansOverlap(t1[i], t2[j]) ==> EdgesBefore(t1, t2, i, j + 1) == EdgesBefore(t1, t2, i, j) + {(i, |t1| + j)}
    ensures !SpansOverlap(t1[i], t2[j]) ==> EdgesBefore(t1, t2, i, j + 1) == EdgesBefore(t1, t2, i, j)
  {
    forall e ensures e in EdgesBefore(t1, t2, i, j + 1)
                <==> e in EdgesBefore(t1, t2, i, j) || (SpansOverlap(t1[i], t2[j]) && e == (i, |t1| + j))
    {
      assert e == (e.0, e.1);
    }
  }

  lemma EdgesAtRowEnd(t1: seq<CandidateSpan>, t2: seq<CandidateSpan>, i: nat)
    ensures EdgesBefore(t1, t2, 0, 0) == {}
    ensures i < |t1| ==> EdgesBefore(t1, t2, i + 1, 0) == EdgesBefore(t1, t2, i, |t2|)
    ensures EdgesBefore(t1, t2, |t1|, 0) == OverlapEdges(t1, t2)
  {
    assert forall e :: e in OverlapEdges(t1, t2) ==> e == (e.0, e.1);
  }

  method UniteRow(uf: UnionFind, t1: seq<CandidateSpan>, t2: seq<CandidateSpan>, i: nat)
    requires i < |t1| && uf.Valid() && uf.parent.Length == |uf.roots| == |t1| + |t2|
    requires Represents(uf.roots, EdgesBefore(t1, t2, i, 0))
    modifies uf, uf.parent
    ensures uf.Valid() && |uf.roots| == |t1| + |t2|
    ensures Represents(uf.roots, EdgesBefore(t1, t2, i, |t2|))
  {
    hide EdgesBefore, Represents, Forest, Merged, SpansOverlap;
    for j := 0 to |t2|
      invariant uf.Valid() && |uf.roots| == |t1| + |t2|
      invariant Represents(uf.roots, EdgesBefore(t1, t2, i, j))
    {
      EdgesGrow(t1, t2, i, j);
      if SpansOverlap(t1[i], t2[j]) {
        MergedRepresents(uf.roots, EdgesBefore(t1, t2, i, j), i, |t1| + j);
        uf.Union(i, |t1| + j);
      }
    }
  }

  method UniteOverlapping(t1: seq<CandidateSpan>, t2: seq<CandidateSpan>) returns (uf: UnionFind)
    ensures fresh(uf) && fresh(uf.parent) && uf.Valid() && uf.parent.Length == |t1| + |t2|
    ensures |uf.roots| == |t1| + |t2| && Represents(uf.roots, OverlapEdges(t1, t2))
  {
    uf := new UnionFind(|t1| + |t2|);
    DiscreteRepresents(uf.roots);
    EdgesAtRowEnd(t1, t2, 0);
    for i := 0 to |t1|
      invariant fresh(uf) && fresh(uf.parent) && uf.Valid() && uf.parent.Length == |t1| + |t2| == |uf.roots|
      invariant Represents(uf.roots, EdgesBefore(t1, t2, i, 0))
    {
      UniteRow(uf, t1, t2, i);
      EdgesAtRowEnd(t1, t2, i);
    }
    EdgesAtRowEnd(t1, t2, |t1|);
  }

  /** groups maps each representative of the first `count` nodes at `offset` to those nodes, in order. */
  ghost predicate Collected(groups: map<nat, seq<nat>>, roots: seq<nat>, offset: nat, count: nat, keep: nat -> bool) {
    && offset + count <= |roots|
    && (forall r :: r in groups <==> keep(r) && exists k: nat :: k < count && InClass(roots, offset, r, k))
    && (forall r :: r in groups ==> groups[r] == Select((k: nat) => InClass(roots, offset, r, k), count))
  }

  ghost predicate InClass(roots: seq<nat>, offset: nat, r: nat, k: nat) {
    offset + k < |roots| && roots[offset + k] == r
  }

  lemma CollectOne(groups: map<nat, seq<nat>>, roots: seq<nat>, offset: nat, count: nat, keep: nat -> bool, root: nat)
    requires Collected(groups, roots, offset, count, keep)
    requires offset + count < |roots| && root == roots[offset + count]
    ensures keep(root) ==> Collected(groups[root := GetOrEmpty(groups, root) + [count]], roots, offset, count + 1, keep)
    ensures !keep(root) ==> Collected(groups, roots, offset, count + 1, keep)
  {
    var after := if keep(root) then groups[root := GetOrEmpty(groups, root) + [count]] else groups;
    assert InClass(roots, offset, root, count);
    if root !in groups && keep(root) {
      NoneSelected((k: nat) => InClass(roots, offset, root, k), count);
    }
    forall r: nat ensures r in after <==> keep(r) && exists k: nat :: k < count + 1 && InClass(roots, offset, r, k) {
      if r in groups { var k: nat :| k < count && InClass(roots, offset, r, k); }
    }
  }

  lemma {:induction false} NoneSelected(p: nat -> bool, n: nat)
    requires forall x: nat :: x < n ==> !p(x)
    ensures Select(p, n) == []
  {
    if n > 0 { NoneSelected(p, n - 1); }
  }

  lemma NothingCollected(roots: seq<nat>, offset: nat, keep: nat -> bool)
    requires offset <= |roots|
    ensures Collected(map[], roots, offset, 0, keep)
  {
  }

  /** Groups the indices of both lists by connected component, keyed by representative. */
  method GroupOverlappingSpans(t1: seq<CandidateSpan>, t2: seq<CandidateSpan>)
    returns (groups1: map<nat, seq<nat>>, groups2: map<nat, seq<nat>>)
    ensures Grouping(t1, t2, groups1, groups2)
  {
    hide Collected, Grouping, Represents;
    var uf := UniteOverlapping(t1, t2);
    ghost var roots := uf.roots;
    groups1 := map[];
    NothingCollected(roots, 0, (r: nat) => true);
    for i := 0 to |t1|
      invariant fresh(uf) && fresh(uf.parent) && uf.Valid() && uf.parent.Length == |t1| + |t2| && uf.roots == roots
      invariant Collected(groups1, roots, 0, i, (r: nat) => true)
    {
      CollectOne(groups1, roots, 0, i, (r: nat) => true, roots[i]);
      var root := uf.Find(i);
      groups1 := groups1[root := GetOrEmpty(groups1, root) + [i]];
    }
    groups2 := map[];
    NothingCollected(roots, |t1|, (r: nat) => r in groups1);
    for j := 0 to |t2|
      invariant fresh(uf) && fresh(uf.parent) && uf.Valid() && uf.parent.Length == |t1| + |t2| && uf.roots == roots
      invariant Collected(groups2, roots, |t1|, j, (r: nat) => r in groups1)
    {
      CollectOne(groups2, roots, |t1|, j, (r: nat) => r in groups1, roots[|t1| + j]);
      var root := uf.Find(|t1| + j);
      if root in groups1 {
        groups2 := groups2[root := GetOrEmpty(groups2, root) + [j]];
      }
    }
    GroupsAreComponents(t1, t2, roots, groups1, groups2);
  }

  lemma ClassIsLinked(t1: seq<CandidateSpan>, t2: seq<CandidateSpan>, roots: seq<nat>, i: nat, x: nat)
    requires |roots| == |t1| + |t2| && Represents(roots, OverlapEdges(t1, t2)) && i < |roots| && x < |roots|
    ensures roots[x] == roots[i] <==> Linked(t1, t2, i, x)
  {
  }

  lemma GroupIsComponent(t1: seq<CandidateSpan>, t2: seq<CandidateSpan>, roots: seq<nat>,
                         groups1: map<nat, seq<nat>>, groups2: map<nat, seq<nat>>, r: nat)
    requires |roots| == |t1| + |t2| && Represents(roots, OverlapEdges(t1, t2))
    requires Collected(groups1, roots, 0, |t1|, (q: nat) => true)
    requires Collected(groups2, roots, |t1|, |t2|, (q: nat) => q in groups1)
    requires r in groups1
    ensures IsComponent(t1, t2, groups1[r], GetOrEmpty(groups2, r))
    ensures groups1[r] != [] && groups1[r][0] < |roots| && roots[groups1[r][0]] == r
  {
    var inFirst, inSecond := (k: nat) => InClass(roots, 0, r, k), (j: nat) => InClass(roots, |t1|, r, j);
    var k: nat :| k < |t1| && InClass(roots, 0, r, k);
    assert k in groups1[r];
    var i := groups1[r][0];
    if r !in groups2 { NoneSelected(inSecond, |t2|); }
    FirstLeads(t1, t2, roots, r);
    forall x: nat | x < |roots|
      ensures roots[x] == roots[i] <==> Linked(t1, t2, i, x)
    {
      ClassIsLinked(t1, t2, roots, i, x);
    }
    hide Represents, Linked, Leads;
    SelectCongruent(inFirst, (n: nat) => Linked(t1, t2, i, n), |t1|);
    SelectCongruent(inSecond, (n: nat) => Linked(t1, t2, i, |t1| + n), |t2|);
  }

  lemma FirstLeads(t1: seq<CandidateSpan>, t2: seq<CandidateSpan>, roots: seq<nat>, r: nat)
    requires |roots| == |t1| + |t2| && Represents(roots, OverlapEdges(t1, t2))
    requires Select((k: nat) => InClass(roots, 0, r, k), |t1|) != []
    ensures var i := Select((k: nat) => InClass(roots, 0, r, k), |t1|)[0];
            i < |t1| && roots[i] == r && Leads(t1, t2, i)
  {
    var inFirst := (k: nat) => InClass(roots, 0, r, k);
    SelectInRange(inFirst, |t1|);
    var g := Select(inFirst, |t1|);
    var i := g[0];
    assert inFirst(i);
    forall n: nat | n < i ensures !Linked(t1, t2, n, i) {
      if Linked(t1, t2, n, i) {
        assert inFirst(n);
        HeadIsLeast(g, n);
      }
    }
  }

  lemma GroupsAreOnlyComponents(t1: seq<CandidateSpan>, t2: seq<CandidateSpan>, roots: seq<nat>,
                                groups1: map<nat, seq<nat>>, groups2: map<nat, seq<nat>>)
    requires |roots| == |t1| + |t2| && Represents(roots, OverlapEdges(t1, t2))
    requires Collected(groups1, roots, 0, |t1|, (q: nat) => true)
    requires Collected(groups2, roots, |t1|, |t2|, (q: nat) => q in groups1)
    ensures OnlyComponents(t1, t2, groups1, groups2) && FirstsDiffer(groups1)
  {
    hide Represents, Collected, IsComponent;
    forall r | r in groups1
      ensures IsComponent(t1, t2, groups1[r], GetOrEmpty(groups2, r))
      ensures groups1[r] != [] && groups1[r][0] < |roots| && roots[groups1[r][0]] == r
    {
      GroupIsComponent(t1, t2, roots, groups1, groups2, r);
    }
  }

  lemma GroupsAreComponents(t1: seq<CandidateSpan>, t2: seq<CandidateSpan>, roots: seq<nat>,
                            groups1: map<nat, seq<nat>>, groups2: map<nat, seq<nat>>)
    requires |roots| == |t1| + |t2| && Represents(roots, OverlapEdges(t1, t2))
    requires Collected(groups1, roots, 0, |t1|, (q: nat) => true)
    requires Collected(groups2, roots, |t1|, |t2|, (q: nat) => q in groups1)
    ensures Grouping(t1, t2, groups1, groups2)
  {
    assert groups2.Keys <= groups1.Keys;
    hide Represents, Collected, Anchored, InSomeGroup, OnlyComponents, FirstsDiffer;
    GroupsAreOnlyComponents(t1, t2, roots, groups1, groups2);
    forall i: nat | i < |t1| ensures InSomeGroup(groups1, i) { EveryTier1IsGrouped(t1, t2, roots, groups1, i); }
    forall j: nat | j < |t2| ensures InSomeGroup(groups2, j) <==> Anchored(t1, t2, |t1| + j) {
      AnchoredIffGrouped(t1, t2, roots, groups1, groups2, j);
    }
  }

  lemma EveryTier1IsGrouped(t1: seq<CandidateSpan>, t2: seq<CandidateSpan>, roots: seq<nat>,
                            groups1: map<nat, seq<nat>>, i: nat)
    requires |roots| == |t1| + |t2| && Collected(groups1, roots, 0, |t1|, (q: nat) => true) && i < |t1|
    ensures InSomeGroup(groups1, i)
  {
    assert InClass(roots, 0, roots[i], i);
    assert roots[i] in groups1 && i in groups1[roots[i]];
  }

  lemma AnchoredIffGrouped(t1: seq<CandidateSpan>, t2: seq<CandidateSpan>, roots: seq<nat>,
                           groups1: map<nat, seq<nat>>, groups2: map<nat, seq<nat>>, j: nat)
    requires |roots| == |t1| + |t2| && Represents(roots, OverlapEdges(t1, t2))
    requires Collected(groups1, roots, 0, |t1|, (q: nat) => true)
    requires Collected(groups2, roots, |t1|, |t2|, (q: nat) => q in groups1)
    requires j < |t2|
    ensures InSomeGroup(groups2, j) <==> Anchored(t1, t2, |t1| + j)
  {
    var r := roots[|t1| + j];
    assert InClass(roots, |t1|, r, j);
    if Anchored(t1, t2, |t1| + j) {
      var i: nat :| i < |t1| && Linked(t1, t2, i, |t1| + j);
      assert InClass(roots, 0, r, i);
      assert r in groups2 && j in groups2[r];
    }
    if InSomeGroup(groups2, j) {
      var q :| q in groups2 && j in groups2[q];
      assert InClass(roots, |t1|, q, j);
      var i: nat :| i < |t1| && InClass(roots, 0, q, i);
      assert Linked(t1, t2, i, |t1| + j);
    }
  }

  function EarliestMember(groups: map<nat, seq<nat>>, root: nat): nat {
    if root in groups && groups[root] != [] then groups[root][0] else 0
  }

  /** A nonempty set of roots has one whose group starts earliest. */
  lemma {:induction false} EarliestExists(keys: set<nat>, groups: map<nat, seq<nat>>) returns (r: nat)
    requires keys != {}
    ensures r in keys && forall q :: q in keys ==> EarliestMember(groups, r) <= EarliestMember(groups, q)
    decreases |keys|
  {
    r :| r in keys;
    var rest := keys - {r};
    assert keys == rest + {r};
    if rest != {} {
      var s := EarliestExists(rest, groups);
      if EarliestMember(groups, s) < EarliestMember(groups, r) { r := s; }
    }
  }

  /** order lists the keys of groups by the earliest member of their group, which is the group's first. */
  ghost predicate SortedKeys(groups: map<nat, seq<nat>>, order: seq<nat>) {
    SortedSoFar(groups, order, {})
  }

  /** The keys outside rest are listed in that order, and those in rest come after them. */
  ghost predicate SortedSoFar(groups: map<nat, seq<nat>>, order: seq<nat>, rest: set<nat>) {
    && rest <= groups.Keys
    && (forall r :: r in order <==> r in groups && r !in rest)
    && (forall k, q :: 0 <= k < |order| && q in rest ==> EarliestMember(groups, order[k]) < EarliestMember(groups, q))
    && (forall a, b :: 0 <= a < b < |order| ==> EarliestMember(groups, order[a]) < EarliestMember(groups, order[b]))
  }

  ghost predicate Earliest(groups: map<nat, seq<nat>>, rest: set<nat>, r: nat) {
    r in rest && forall q :: q in rest ==> EarliestMember(groups, r) <= EarliestMember(groups, q)
  }

  lemma SortedOneMore(groups: map<nat, seq<nat>>, order: seq<nat>, rest: set<nat>, r: nat)
    requires forall r, q :: r in groups && q in groups && EarliestMember(groups, r) == EarliestMember(groups, q) ==>
               r == q
    requires SortedSoFar(groups, order, rest) && Earliest(groups, rest, r)
    ensures SortedSoFar(groups, order + [r], rest - {r})
  {
    hide EarliestMember;
  }

  method SortedByEarliestMember(groups: map<nat, seq<nat>>) returns (order: seq<nat>)
    requires forall r, q :: r in groups && q in groups && EarliestMember(groups, r) == EarliestMember(groups, q) ==>
               r == q
    ensures SortedKeys(groups, order)
  {
    order := [];
    var rest := groups.Keys;
    while rest != {}
      invariant SortedSoFar(groups, order, rest)
      decreases |rest|
    {
      hide SortedSoFar, EarliestMember;
      ghost var _ := EarliestExists(rest, groups);
      var r :| r in rest && forall q :: q in rest ==> EarliestMember(groups, r) <= EarliestMember(groups, q);
      SortedOneMore(groups, order, rest, r);
      order := order + [r];
      rest := rest - {r};
    }
  }

  method DedupeTier2AgainstTier1(page: PageModel, t1: seq<CandidateSpan>,
                                 t2: seq<CandidateSpan>) returns (result: seq<CandidateSpan>)
    ensures result == Deduped(page, t1, t2)
  {
    var groups1, groups2 := GroupOverlappingSpans(t1, t2);
    var order := SortedByEarliestMember(groups1);
    OrderIsLeaders(t1, t2, groups1, groups2, order);
    ghost var folds := Survivors(page, t1, t2);
    forall k | 0 <= k < |order| ensures FoldsTo(page, t1, t2, groups1, groups2, order[k], folds[k]) {
      GroupFolds(page, t1, t2, groups1, groups2, order, k);
    }
    var survivors := FoldGroups(page, t1, t2, groups1, groups2, order, folds);
    var leftover := Unconsumed(t1, t2, groups2);
    result := survivors + leftover;
  }

  /** Folding the group of this root gives that span. */
  ghost predicate FoldsTo(page: PageModel, t1: seq<CandidateSpan>, t2: seq<CandidateSpan>,
                          groups1: map<nat, seq<nat>>, groups2: map<nat, seq<nat>>, root: nat, span: CandidateSpan)
  {
    && root in groups1 && groups1[root] != []
    && (forall n :: 0 <= n < |groups1[root]| ==> groups1[root][n] < |t1|)
    && (forall n :: 0 <= n < |GetOrEmpty(groups2, root)| ==> GetOrEmpty(groups2, root)[n] < |t2|)
    && MergeGroup(page, Pick(t1, groups1[root]), Pick(t2, GetOrEmpty(groups2, root))) == span
  }

  method FoldGroups(page: PageModel, t1: seq<CandidateSpan>, t2: seq<CandidateSpan>,
                    groups1: map<nat, seq<nat>>, groups2: map<nat, seq<nat>>, order: seq<nat>,
                    ghost folds: seq<CandidateSpan>)
    returns (survivors: seq<CandidateSpan>)
    requires |order| == |folds|
    requires forall k :: 0 <= k < |order| ==> FoldsTo(page, t1, t2, groups1, groups2, order[k], folds[k])
    ensures survivors == folds
  {
    survivors := [];
    for k := 0 to |order|
      invariant survivors == folds[..k]
    {
      var root := order[k];
      assert FoldsTo(page, t1, t2, groups1, groups2, root, folds[k]);
      var folded := MergeGroup(page, Pick(t1, groups1[root]), Pick(t2, GetOrEmpty(groups2, root)));
      survivors := survivors + [folded];
    }
  }

  /** The members of all groups. */
  function Grouped(groups: map<nat, seq<nat>>): (r: set<nat>)
    ensures forall k: nat :: k in r <==> InSomeGroup(groups, k)
  {
    set r, k | r in groups && k in groups[r] :: k
  }

  method Unconsumed(t1: seq<CandidateSpan>, t2: seq<CandidateSpan>,
                    groups2: map<nat, seq<nat>>) returns (leftover: seq<CandidateSpan>)
    requires forall j: nat :: j < |t2| ==> (InSomeGroup(groups2, j) <==> Anchored(t1, t2, |t1| + j))
    ensures leftover == Leftover(t1, t2)
  {
    hide Anchored, InSomeGroup, Grouped;
    var consumed := Grouped(groups2);
    ghost var free := (n: nat) => !Anchored(t1, t2, |t1| + n);
    leftover := [];
    for j := 0 to |t2|
      invariant forall k :: 0 <= k < |Select(free, j)| ==> Select(free, j)[k] < |t2|
      invariant leftover == Pick(t2, Select(free, j))
    {
      PickOneMore(t2, free, j);
      if j !in consumed {
        leftover := leftover + [t2[j]];
      }
    }
  }

  lemma PickOneMore(spans: seq<CandidateSpan>, p: nat -> bool, n: nat)
    requires n < |spans| && forall k :: 0 <= k < |Select(p, n)| ==> Select(p, n)[k] < |spans|
    ensures var next := Select(p, n + 1);
            && (forall k :: 0 <= k < |next| ==> next[k] < |spans|)
            && Pick(spans, next) == Pick(spans, Select(p, n)) + if p(n) then [spans[n]] else []
  {
    SelectInRange(p, n + 1);
  }

  lemma GroupFolds(page: PageModel, t1: seq<CandidateSpan>, t2: seq<CandidateSpan>,
                   groups1: map<nat, seq<nat>>, groups2: map<nat, seq<nat>>, order: seq<nat>, k: nat)
    requires Grouping(t1, t2, groups1, groups2) && k < |order| == |Leaders(t1, t2)|
    requires order[k] in groups1 && groups1[order[k]] != [] && groups1[order[k]][0] == Leaders(t1, t2)[k]
    ensures FoldsTo(page, t1, t2, groups1, groups2, order[k], Survivors(page, t1, t2)[k])
  {
    SelectInRange((n: nat) => Leads(t1, t2, n), |t1|);
    var i := Leaders(t1, t2)[k];
    SelectInRange((n: nat) => Linked(t1, t2, i, n), |t1|);
    SelectInRange((n: nat) => Linked(t1, t2, i, |t1| + n), |t2|);
    assert IsComponent(t1, t2, groups1[order[k]], GetOrEmpty(groups2, order[k]));
  }

  lemma OrderIsLeaders(t1: seq<CandidateSpan>, t2: seq<CandidateSpan>, groups1: map<nat, seq<nat>>,
                       groups2: map<nat, seq<nat>>, order: seq<nat>)
    requires Grouping(t1, t2, groups1, groups2) && SortedKeys(groups1, order)
    ensures |order| == |Leaders(t1, t2)|
    ensures forall k :: 0 <= k < |order| ==>
              order[k] in groups1 && groups1[order[k]] != [] && groups1[order[k]][0] == Leaders(t1, t2)[k]
  {
    forall k | 0 <= k < |order|
      ensures order[k] in groups1 && IsComponent(t1, t2, groups1[order[k]], GetOrEmpty(groups2, order[k]))
    {
      assert order[k] in order;
    }
    var firsts: seq<nat> := seq(|order|, k requires 0 <= k < |order| => EarliestMember(groups1, order[k]));
    forall x: nat ensures x in firsts <==> x in Leaders(t1, t2) {
      if x in firsts {
        var k :| 0 <= k < |firsts| && firsts[k] == x;
        assert IsComponent(t1, t2, groups1[order[k]], GetOrEmpty(groups2, order[k]));
      }
      if x in Leaders(t1, t2) {
        var r := LeaderIsFirst(t1, t2, groups1, groups2, x);
        var k :| 0 <= k < |order| && order[k] == r;
        assert firsts[k] == x;
      }
    }
    AscendingIsDetermined(firsts, Leaders(t1, t2));
    forall k | 0 <= k < |order| ensures groups1[order[k]] != [] && groups1[order[k]][0] == Leaders(t1, t2)[k] {
      assert IsComponent(t1, t2, groups1[order[k]], GetOrEmpty(groups2, order[k]));
      assert firsts[k] == EarliestMember(groups1, order[k]);
    }
  }

  lemma LeaderIsFirst(t1: seq<CandidateSpan>, t2: seq<CandidateSpan>, groups1: map<nat, seq<nat>>,
                      groups2: map<nat, seq<nat>>, x: nat)
    returns (r: nat)
    requires Grouping(t1, t2, groups1, groups2) && x < |t1| && Leads(t1, t2, x)
    ensures r in groups1 && groups1[r] != [] && groups1[r][0] == x
  {
    assert InSomeGroup(groups1, x);
    r :| r in groups1 && x in groups1[r];
    assert IsComponent(t1, t2, groups1[r], GetOrEmpty(groups2, r));
    var i := groups1[r][0];
    HeadIsLeast(groups1[r], x);
    assert Linked(t1, t2, i, x);
  }
}
