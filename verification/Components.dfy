/** Connected components of a finite graph, and the disjoint-set representatives that compute them. */
module Components {
  import opened DisjointSets

  type Edges = set<(nat, nat)>

  ghost predicate Adjacent(edges: Edges, x: nat, y: nat) {
    (x, y) in edges || (y, x) in edges
  }

  ghost predicate IsPath(edges: Edges, path: seq<nat>) {
    |path| > 0 && forall k :: 1 <= k < |path| ==> Adjacent(edges, path[k - 1], path[k])
  }

  /** A chain of edges joins x and y. */
  ghost predicate Connected(edges: Edges, x: nat, y: nat) {
    exists path :: IsPath(edges, path) && path[0] == x && path[|path| - 1] == y
  }

  lemma ConnectedByPath(edges: Edges, path: seq<nat>)
    requires IsPath(edges, path)
    ensures Connected(edges, path[0], path[|path| - 1])
  {
  }

  lemma ConnectedRefl(edges: Edges, x: nat)
    ensures Connected(edges, x, x)
  {
    ConnectedByPath(edges, [x]);
  }

  lemma ConnectedEdge(edges: Edges, x: nat, y: nat)
    requires Adjacent(edges, x, y)
    ensures Connected(edges, x, y)
  {
    ConnectedByPath(edges, [x, y]);
  }

  lemma ConnectedSym(edges: Edges, x: nat, y: nat)
    requires Connected(edges, x, y)
    ensures Connected(edges, y, x)
  {
    var path :| IsPath(edges, path) && path[0] == x && path[|path| - 1] == y;
    var back := seq(|path|, k requires 0 <= k < |path| => path[|path| - 1 - k]);
    forall k | 1 <= k < |back| ensures Adjacent(edges, back[k - 1], back[k]) {
      assert Adjacent(edges, path[|path| - 1 - k], path[|path| - k]);
    }
    ConnectedByPath(edges, back);
  }

  lemma ConnectedTrans(edges: Edges, x: nat, y: nat, z: nat)
    requires Connected(edges, x, y) && Connected(edges, y, z)
    ensures Connected(edges, x, z)
  {
    var p :| IsPath(edges, p) && p[0] == x && p[|p| - 1] == y;
    var q :| IsPath(edges, q) && q[0] == y && q[|q| - 1] == z;
    ConnectedByPath(edges, p + q[1..]);
  }

  lemma ConnectedMono(edges: Edges, more: Edges, x: nat, y: nat)
    requires edges <= more && Connected(edges, x, y)
    ensures Connected(more, x, y)
  {
    var path :| IsPath(edges, path) && path[0] == x && path[|path| - 1] == y;
    ConnectedByPath(more, path);
  }

  /** A property that every edge passes on holds at the far end of a chain if it holds at the near end. */
  lemma ConnectedPreserves(edges: Edges, x: nat, y: nat, holds: nat -> bool)
    requires Connected(edges, x, y) && holds(x)
    requires forall u, v :: Adjacent(edges, u, v) && holds(u) ==> holds(v)
    ensures holds(y)
  {
    var path :| IsPath(edges, path) && path[0] == x && path[|path| - 1] == y;
    PathPreserves(edges, path, holds, |path| - 1);
  }

  lemma {:induction false} PathPreserves(edges: Edges, path: seq<nat>, holds: nat -> bool, k: nat)
    requires IsPath(edges, path) && holds(path[0]) && k < |path|
    requires forall u, v :: Adjacent(edges, u, v) && holds(u) ==> holds(v)
    ensures holds(path[k])
  {
    if k > 0 { PathPreserves(edges, path, holds, k - 1); }
  }

  /** Two indices have the same representative exactly when a chain of edges joins them. */
  ghost predicate Represents(roots: seq<nat>, edges: Edges) {
    && (forall e :: e in edges ==> e.0 < |roots| && e.1 < |roots|)
    && (forall x, y {:trigger Connected(edges, x, y)} :: 0 <= x < |roots| && 0 <= y < |roots| ==>
        (roots[x] == roots[y] <==> Connected(edges, x, y)))
  }

  lemma DiscreteRepresents(roots: seq<nat>)
    requires forall i :: 0 <= i < |roots| ==> roots[i] == i
    ensures Represents(roots, {})
  {
    forall x, y | 0 <= x < |roots| && 0 <= y < |roots| ensures roots[x] == roots[y] <==> Connected({}, x, y) {
      ConnectedRefl({}, x);
      if Connected({}, x, y) { ConnectedPreserves({}, x, y, (k: nat) => k == x); }
    }
  }

  /** Union of two indices keeps the representatives in step with the graph that gains their edge. */
  lemma MergedRepresents(roots: seq<nat>, edges: Edges, a: nat, b: nat)
    requires Represents(roots, edges) && a < |roots| && b < |roots|
    ensures Represents(Merged(roots, a, b), edges + {(a, b)})
  {
    var after, more := Merged(roots, a, b), edges + {(a, b)};
    forall x, y | 0 <= x < |roots| && 0 <= y < |roots|
      ensures after[x] == after[y] <==> Connected(more, x, y)
    {
      if Connected(more, x, y) { MergedComplete(roots, edges, a, b, x, y); }
      if after[x] == after[y] { MergedSound(roots, edges, a, b, x, y); }
    }
  }

  lemma MergedComplete(roots: seq<nat>, edges: Edges, a: nat, b: nat, x: nat, y: nat)
    requires Represents(roots, edges) && a < |roots| && b < |roots| && x < |roots| && y < |roots|
    requires Connected(edges + {(a, b)}, x, y)
    ensures Merged(roots, a, b)[x] == Merged(roots, a, b)[y]
  {
    var after, more := Merged(roots, a, b), edges + {(a, b)};
    var same := (k: nat) => k < |after| && after[k] == after[x];
    forall u: nat, v: nat | Adjacent(more, u, v) && same(u) ensures same(v) {
      if Adjacent(edges, u, v) {
        ConnectedEdge(edges, u, v);
        assert roots[u] == roots[v];
      }
    }
    ConnectedPreserves(more, x, y, same);
  }

  lemma MergedSound(roots: seq<nat>, edges: Edges, a: nat, b: nat, x: nat, y: nat)
    requires Represents(roots, edges) && a < |roots| && b < |roots| && x < |roots| && y < |roots|
    requires Merged(roots, a, b)[x] == Merged(roots, a, b)[y]
    ensures Connected(edges + {(a, b)}, x, y)
  {
    var more := edges + {(a, b)};
    ConnectedEdge(more, a, b);
    ConnectedEdge(more, b, a);
    if roots[x] == roots[y] {
      ConnectedMono(edges, more, x, y);
    } else if roots[x] == roots[a] {
      assert roots[y] == roots[b];
      ConnectedMono(edges, more, x, a);
      ConnectedMono(edges, more, b, y);
      ConnectedTrans(more, x, a, b);
      ConnectedTrans(more, x, b, y);
    } else {
      assert roots[x] == roots[b] && roots[y] == roots[a];
      ConnectedMono(edges, more, x, b);
      ConnectedMono(edges, more, a, y);
      ConnectedTrans(more, x, b, a);
      ConnectedTrans(more, x, a, y);
    }
  }
}
