/** The disjoint-set structure of `detection/tier2.py`: a parent list rewritten in place by path halving. */
module DisjointSets {

  /** What holds at index i: its links stay in range, keep its representative, and climb in rank. */
  ghost predicate Sound(p: seq<nat>, roots: seq<nat>, rank: seq<nat>, ceiling: nat, i: nat)
    requires i < |p| == |roots| == |rank|
  {
    && p[i] < |p| && roots[i] < |p| && rank[i] <= ceiling
    && roots[p[i]] == roots[i]
    && p[roots[i]] == roots[i]
    && (if p[i] == i then roots[i] == i else rank[i] < rank[p[i]])
  }

  /**
   * p is the parent list. roots gives the class representative of every index and rank a
   * height that strictly grows along parent links, which is what rules out cycles.
   */
  ghost predicate Forest(p: seq<nat>, roots: seq<nat>, rank: seq<nat>, ceiling: nat) {
    && |p| == |roots| == |rank|
    && forall i :: 0 <= i < |p| ==> Sound(p, roots, rank, ceiling, i)
  }

  /** Follow parent links for a number of steps. */
  ghost function Climb(p: seq<nat>, i: nat, steps: nat): nat
    requires i < |p|
    decreases steps
  {
    if steps == 0 || p[i] >= |p| then i else Climb(p, p[i], steps - 1)
  }

  /** Following parent links always arrives at the representative, and stays there. */
  lemma {:induction false} ClimbReachesRoot(p: seq<nat>, roots: seq<nat>, rank: seq<nat>, ceiling: nat, i: nat,
                                            steps: nat)
    requires Forest(p, roots, rank, ceiling) && i < |p|
    requires steps >= ceiling - rank[i]
    ensures Climb(p, i, steps) == roots[i]
    decreases steps
  {
    assert Sound(p, roots, rank, ceiling, i);
    assert Sound(p, roots, rank, ceiling, p[i]);
    if p[i] == i {
      RootStays(p, i, steps);
    } else {
      ClimbReachesRoot(p, roots, rank, ceiling, p[i], steps - 1);
    }
  }

  lemma {:induction false} RootStays(p: seq<nat>, i: nat, steps: nat)
    requires i < |p| && p[i] == i
    ensures Climb(p, i, steps) == i
  {
    if steps > 0 { RootStays(p, i, steps - 1); }
  }

  /** The representatives after the class of `second` is linked under the root of `first`. */
  ghost function Merged(roots: seq<nat>, first: nat, second: nat): (r: seq<nat>)
    requires first < |roots| && second < |roots|
    ensures |r| == |roots|
    ensures forall i :: 0 <= i < |r| ==> r[i] == if roots[i] == roots[second] then roots[first] else roots[i]
  {
    seq(|roots|, i requires 0 <= i < |roots| => if roots[i] == roots[second] then roots[first] else roots[i])
  }

  /** Path halving: pointing an index at its grandparent keeps the forest and all representatives. */
  lemma HalvingKeepsForest(p: seq<nat>, roots: seq<nat>, rank: seq<nat>, ceiling: nat, i: nat)
    requires Forest(p, roots, rank, ceiling) && i < |p| && p[i] != i
    ensures p[i] < |p| && p[p[i]] < |p|
    ensures Forest(p[i := p[p[i]]], roots, rank, ceiling)
    ensures rank[i] < rank[p[p[i]]]
  {
    assert Sound(p, roots, rank, ceiling, i);
    assert Sound(p, roots, rank, ceiling, p[i]);
    assert Sound(p, roots, rank, ceiling, p[p[i]]);
    var q := p[i := p[p[i]]];
    forall k | 0 <= k < |q| ensures Sound(q, roots, rank, ceiling, k) {
      assert Sound(p, roots, rank, ceiling, k);
    }
  }

  /**
   * Linking one root under another merges exactly the two classes. The surviving root is
   * raised above the root it absorbs: nothing bounds the rank of a root from above.
   */
  lemma LinkingKeepsForest(p: seq<nat>, roots: seq<nat>, rank: seq<nat>, ceiling: nat, a: nat, b: nat)
    requires Forest(p, roots, rank, ceiling)
    requires a < |p| && b < |p| && p[a] == a && p[b] == b && a != b
    ensures Forest(p[b := a], Merged(roots, a, b), rank[a := rank[a] + rank[b] + 1], ceiling + ceiling + 1)
  {
    var q, r, h, c := p[b := a], Merged(roots, a, b), rank[a := rank[a] + rank[b] + 1], ceiling + ceiling + 1;
    assert Sound(p, roots, rank, ceiling, a) && Sound(p, roots, rank, ceiling, b);
    forall i | 0 <= i < |p| ensures Sound(q, r, h, c, i) {
      assert Sound(p, roots, rank, ceiling, i) && Sound(p, roots, rank, ceiling, p[i]);
    }
  }

  class UnionFind {
    const parent: array<nat>
    ghost var roots: seq<nat>
    ghost var rank: seq<nat>
    ghost var ceiling: nat

    ghost predicate Valid()
      reads this, parent
    {
      Forest(parent[..], roots, rank, ceiling)
    }

    constructor (size: nat)
      ensures Valid() && fresh(parent) && parent.Length == size
      ensures forall i :: 0 <= i < size ==> roots[i] == i
    {
      parent := new nat[size](i => i);
      roots := seq(size, i => i);
      rank := seq(size, i => 0);
      ceiling := 0;
    }

    /**
     * Returns where the parent links lead from index. Halving rewrites links, but from every element
     * they still lead where they did.
     */
    method Find(index: nat) returns (root: nat)
      requires Valid() && index < parent.Length
      modifies parent
      ensures Valid()
      ensures root < parent.Length && root == roots[index] && roots[root] == root && parent[root] == root
      ensures root == Climb(old(parent[..]), index, ceiling)
      ensures forall k :: 0 <= k < parent.Length ==> Climb(parent[..], k, ceiling) == Climb(old(parent[..]), k, ceiling)
    {
      forall k | 0 <= k < parent.Length ensures Climb(parent[..], k, ceiling) == roots[k] {
        ClimbReachesRoot(parent[..], roots, rank, ceiling, k, ceiling);
      }
      hide Climb;
      root := index;
      while parent[root] != root
        invariant Valid() && root < parent.Length
        invariant roots[root] == roots[index]
        decreases ceiling - rank[root]
      {
        ghost var before := parent[..];
        assert Sound(before, roots, rank, ceiling, root);
        assert Sound(before, roots, rank, ceiling, before[root]);
        assert Sound(before, roots, rank, ceiling, before[before[root]]);
        HalvingKeepsForest(before, roots, rank, ceiling, root);
        parent[root] := parent[parent[root]];
        assert parent[..] == before[root := before[before[root]]];
        root := parent[root];
      }
      assert Sound(parent[..], roots, rank, ceiling, root);
      forall k | 0 <= k < parent.Length ensures Climb(parent[..], k, ceiling) == roots[k] {
        ClimbReachesRoot(parent[..], roots, rank, ceiling, k, ceiling);
      }
    }

    method Union(first: nat, second: nat)
      requires Valid() && first < parent.Length && second < parent.Length
      modifies this, parent
      ensures Valid()
      ensures roots == Merged(old(roots), first, second)
    {
      var rootFirst := Find(first);
      var rootSecond := Find(second);
      assert parent[..][rootFirst] == parent[rootFirst];
      assert Sound(parent[..], roots, rank, ceiling, rootFirst);
      if rootFirst != rootSecond {
        ghost var before := parent[..];
        LinkingKeepsForest(before, roots, rank, ceiling, rootFirst, rootSecond);
        parent[rootSecond] := rootFirst;
        assert parent[..] == before[rootSecond := rootFirst];
        rank := rank[rootFirst := rank[rootFirst] + rank[rootSecond] + 1];
        ceiling := ceiling + ceiling + 1;
        roots := Merged(roots, rootFirst, rootSecond);
      }
      assert roots == Merged(old(roots), first, second);
    }
  }
}
