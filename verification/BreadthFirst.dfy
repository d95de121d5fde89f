/** Breadth-first search: the tree a queue discovers, what determines it, and the distances it measures. */
module BreadthFirst {
  import opened Adjacency

  /**
   A search tree: the vertices in discovery order, which earlier position discovered each of them, and
   how deep it lies. The root stands at position 0.
   */
  datatype Tree = Tree(found: seq<nat>, parent: seq<nat>, depth: seq<nat>)

  ghost predicate Shaped(adj: Adj, s: nat, t: Tree) {
    && |t.found| == |t.parent| == |t.depth| && |t.found| > 0
    && t.found[0] == s && t.parent[0] == 0 && t.depth[0] == 0
    && Distinct(t.found) && (forall k :: 0 <= k < |t.found| ==> t.found[k] < |adj|)
  }

  /** Position `k` was discovered along an edge, one step deeper than its discoverer. */
  ghost predicate LinkAt(adj: Adj, t: Tree, k: nat)
    requires |t.found| == |t.parent| == |t.depth| && k < |t.found|
  {
    t.parent[k] < k && Edge(adj, t.found[t.parent[k]], t.found[k]) && t.depth[k] == t.depth[t.parent[k]] + 1
  }

  /** Discoverers and depths never decrease; one discoverer finds its vertices in ascending order. */
  ghost predicate OrderAt(t: Tree, a: nat, b: nat)
    requires |t.found| == |t.parent| == |t.depth| && a < |t.found| && b < |t.found|
  {
    && t.parent[a] <= t.parent[b] && t.depth[a] <= t.depth[b]
    && (0 < a && t.parent[a] == t.parent[b] ==> t.found[a] < t.found[b])
  }

  ghost predicate IsTree(adj: Adj, s: nat, t: Tree) {
    && Shaped(adj, s, t)
    && (forall k :: 0 < k < |t.found| ==> LinkAt(adj, t, k))
    && (forall a, b :: 0 <= a < b < |t.found| ==> OrderAt(t, a, b))
  }

  /** Vertex `v` was discovered from position `k` or an earlier one. */
  ghost predicate Placed(t: Tree, v: nat, k: nat) {
    |t.found| == |t.parent| && exists q :: 0 <= q < |t.found| && t.found[q] == v && t.parent[q] <= k
  }

  /** The search stands before neighbour `i` of the vertex at position `h`. */
  ghost predicate At(adj: Adj, t: Tree, h: nat, i: nat) {
    && h <= |t.found|
    && (if h == |t.found| then i == 0 else t.found[h] < |adj| && i <= |adj[t.found[h]]|)
  }

  /** All neighbours before the point where the search stands are placed. */
  ghost predicate Searched(adj: Adj, t: Tree, h: nat, i: nat)
    requires At(adj, t, h, i)
  {
    && (forall k: nat, v: nat :: k < h && Edge(adj, t.found[k], v) ==> Placed(t, v, k))
    && (forall x :: 0 <= x < i ==> Placed(t, adj[t.found[h]][x], h))
  }

  /** Position `k` was not discovered from beyond that point. */
  ghost predicate FrontierAt(adj: Adj, t: Tree, h: nat, i: nat, k: nat)
    requires |t.found| == |t.parent| && At(adj, t, h, i) && k < |t.found|
  {
    t.parent[k] < h || (t.parent[k] == h && i > 0 && t.found[k] <= adj[t.found[h]][i - 1])
  }

  ghost predicate Grown(adj: Adj, s: nat, t: Tree, h: nat, i: nat) {
    && IsTree(adj, s, t) && At(adj, t, h, i) && Searched(adj, t, h, i)
    && forall k :: 0 < k < |t.found| ==> FrontierAt(adj, t, h, i, k)
  }

  /** The finished search. */
  ghost predicate Complete(adj: Adj, s: nat, t: Tree) {
    Grown(adj, s, t, |t.found|, 0)
  }

  // ---------------------------------------------------------------- the steps of a search

  ghost function Root(s: nat): Tree {
    Tree([s], [0], [0])
  }

  ghost function Discovered(t: Tree, h: nat, v: nat): Tree
    requires h < |t.depth|
  {
    Tree(t.found + [v], t.parent + [h], t.depth + [t.depth[h] + 1])
  }

  lemma RootGrown(adj: Adj, s: nat)
    requires s < |adj|
    ensures Grown(adj, s, Root(s), 0, 0)
  {
  }

  /** The new position comes last in every order. */
  lemma DiscoveredIsLast(adj: Adj, s: nat, t: Tree, h: nat, i: nat, t': Tree, a: nat)
    requires WellFormed(adj) && Grown(adj, s, t, h, i) && h < |t.found| && i < |adj[t.found[h]]|
    requires t' == Discovered(t, h, adj[t.found[h]][i]) && a < |t.found|
    ensures OrderAt(t', a, |t.found|)
  {
    if a > 0 {
      assert FrontierAt(adj, t, h, i, a) && LinkAt(adj, t, a);
      var p := t.parent[a];
      if p < h { assert OrderAt(t, p, h); }
      if p == h { assert adj[t.found[h]][i - 1] < adj[t.found[h]][i]; }
    }
  }

  lemma DiscoverIsTree(adj: Adj, s: nat, t: Tree, h: nat, i: nat, t': Tree)
    requires WellFormed(adj) && Grown(adj, s, t, h, i) && h < |t.found| && i < |adj[t.found[h]]|
    requires adj[t.found[h]][i] !in t.found && t' == Discovered(t, h, adj[t.found[h]][i])
    ensures IsTree(adj, s, t')
  {
    var n := |t.found|;
    assert Edge(adj, t.found[h], adj[t.found[h]][i]);
    forall k | 0 < k < n + 1 ensures LinkAt(adj, t', k) {
      if k < n { assert LinkAt(adj, t, k); }
    }
    forall a, b | 0 <= a < b < n + 1 ensures OrderAt(t', a, b) {
      if b < n {
        assert OrderAt(t, a, b);
      } else {
        DiscoveredIsLast(adj, s, t, h, i, t', a);
      }
    }
  }

  lemma PlacedStays(t: Tree, t': Tree, h: nat, v: nat, x: nat, k: nat)
    requires h < |t.depth| && t' == Discovered(t, h, v) && Placed(t, x, k)
    ensures Placed(t', x, k)
  {
    var q :| 0 <= q < |t.found| && t.found[q] == x && t.parent[q] <= k;
    assert t'.found[q] == x && t'.parent[q] <= k;
  }

  lemma DiscoverGrows(adj: Adj, s: nat, t: Tree, h: nat, i: nat, t': Tree)
    requires WellFormed(adj) && Grown(adj, s, t, h, i) && h < |t.found| && i < |adj[t.found[h]]|
    requires adj[t.found[h]][i] !in t.found && t' == Discovered(t, h, adj[t.found[h]][i])
    ensures Grown(adj, s, t', h, i + 1)
  {
    var n := |t.found|;
    var v := adj[t.found[h]][i];
    DiscoverIsTree(adj, s, t, h, i, t');
    assert t'.found[h] == t.found[h];
    forall k: nat, x: nat | k < h && Edge(adj, t'.found[k], x) ensures Placed(t', x, k) {
      assert t'.found[k] == t.found[k];
      PlacedStays(t, t', h, v, x, k);
    }
    forall x | 0 <= x < i + 1 ensures Placed(t', adj[t'.found[h]][x], h) {
      if x < i {
        PlacedStays(t, t', h, v, adj[t.found[h]][x], h);
      } else {
        assert t'.found[n] == v && t'.parent[n] == h;
      }
    }
    var i' := i + 1;
    forall k | 0 < k < n + 1 ensures FrontierAt(adj, t', h, i', k) {
      if k < n {
        assert FrontierAt(adj, t, h, i, k);
        if t.parent[k] == h { assert adj[t.found[h]][i - 1] < adj[t.found[h]][i]; }
      }
    }
  }

  lemma SkipGrows(adj: Adj, s: nat, t: Tree, h: nat, i: nat)
    requires WellFormed(adj) && Grown(adj, s, t, h, i) && h < |t.found| && i < |adj[t.found[h]]|
    requires adj[t.found[h]][i] in t.found
    ensures Grown(adj, s, t, h, i + 1)
  {
    var v := adj[t.found[h]][i];
    var q :| 0 <= q < |t.found| && t.found[q] == v;
    if q > 0 { assert FrontierAt(adj, t, h, i, q); }
    assert Placed(t, v, h);
    var i' := i + 1;
    forall k | 0 < k < |t.found| ensures FrontierAt(adj, t, h, i', k) {
      assert FrontierAt(adj, t, h, i, k);
      if t.parent[k] == h { assert adj[t.found[h]][i - 1] < v; }
    }
  }

  lemma AdvanceGrows(adj: Adj, s: nat, t: Tree, h: nat)
    requires IsTree(adj, s, t) && h < |t.found| && Grown(adj, s, t, h, |adj[t.found[h]]|)
    ensures Grown(adj, s, t, h + 1, 0)
  {
    forall v: nat | Edge(adj, t.found[h], v) ensures Placed(t, v, h) {
      var x :| 0 <= x < |adj[t.found[h]]| && adj[t.found[h]][x] == v;
    }
    var h' := h + 1;
    forall k | 0 < k < |t.found| ensures FrontierAt(adj, t, h', 0, k) {
      assert FrontierAt(adj, t, h, |adj[t.found[h]]|, k);
    }
  }

  // ---------------------------------------------------------------- what a finished search knows

  lemma {:induction false} DepthIsWalked(adj: Adj, s: nat, t: Tree, k: nat)
    requires IsTree(adj, s, t) && k < |t.found|
    ensures Walk(adj, s, t.found[k], t.depth[k])
    decreases k
  {
    if k == 0 {
      WalkStart(adj, s);
    } else {
      assert LinkAt(adj, t, k);
      DepthIsWalked(adj, s, t, t.parent[k]);
      WalkExtend(adj, s, t.found[t.parent[k]], t.found[k], t.depth[t.parent[k]]);
    }
  }

  /** A neighbour of a found vertex has been found, at most one step deeper. */
  lemma NeighbourIsFound(adj: Adj, s: nat, t: Tree, k: nat, v: nat) returns (q: nat)
    requires Complete(adj, s, t) && k < |t.found| && Edge(adj, t.found[k], v)
    ensures q < |t.found| && t.found[q] == v && t.parent[q] <= k && t.depth[q] <= t.depth[k] + 1
  {
    assert Placed(t, v, k);
    q :| 0 <= q < |t.found| && t.found[q] == v && t.parent[q] <= k;
    if q > 0 {
      assert LinkAt(adj, t, q);
      if t.parent[q] < k { assert OrderAt(t, t.parent[q], k); }
    }
  }

  /** Where a walk ends has been found, no deeper than the walk is long. */
  lemma {:induction false} WalkIsFound(adj: Adj, s: nat, t: Tree, v: nat, j: nat) returns (q: nat)
    requires Complete(adj, s, t) && Walk(adj, s, v, j)
    ensures q < |t.found| && t.found[q] == v && t.depth[q] <= j
    decreases j
  {
    if j == 0 {
      WalkStart(adj, s);
      q := 0;
    } else {
      var u := WalkLast(adj, s, v, j - 1);
      var k := WalkIsFound(adj, s, t, u, j - 1);
      q := NeighbourIsFound(adj, s, t, k, v);
    }
  }

  /** Depths are distances, and exactly the reachable vertices are found. */
  lemma DepthIsDistance(adj: Adj, s: nat, t: Tree)
    requires Complete(adj, s, t)
    ensures forall v :: v in t.found <==> Reaches(adj, s, v)
    ensures forall k :: 0 <= k < |t.found| ==> Shortest(adj, s, t.found[k], t.depth[k])
  {
    forall k | 0 <= k < |t.found|
      ensures Shortest(adj, s, t.found[k], t.depth[k]) && Reaches(adj, s, t.found[k])
    {
      DepthIsWalked(adj, s, t, k);
      forall j: nat | Walk(adj, s, t.found[k], j) ensures t.depth[k] <= j {
        var q := WalkIsFound(adj, s, t, t.found[k], j);
      }
    }
    forall v | Reaches(adj, s, v) ensures v in t.found {
      var j: nat :| Walk(adj, s, v, j);
      var q := WalkIsFound(adj, s, t, v, j);
    }
  }

  /** Two finished searches that agree up to position `k` agree on it. */
  lemma NextAgrees(adj: Adj, s: nat, a: Tree, b: Tree, k: nat)
    requires Complete(adj, s, a) && Complete(adj, s, b) && 0 < k < |a.found| && k < |b.found|
    requires forall x :: 0 <= x < k ==> a.found[x] == b.found[x]
    ensures a.found[k] == b.found[k]
  {
    FoundNoEarlier(adj, s, a, b, k);
    FoundNoEarlier(adj, s, b, a, k);
  }

  /** What `a` finds at position `k`, `b` finds there or later, by a discoverer no later. */
  lemma FoundNoEarlier(adj: Adj, s: nat, a: Tree, b: Tree, k: nat)
    requires Complete(adj, s, a) && Complete(adj, s, b) && 0 < k < |a.found| && k < |b.found|
    requires forall x :: 0 <= x < k ==> a.found[x] == b.found[x]
    ensures b.parent[k] <= a.parent[k]
    ensures b.parent[k] == a.parent[k] ==> b.found[k] <= a.found[k]
  {
    var v, p := a.found[k], a.parent[k];
    assert LinkAt(adj, a, k);
    var q := NeighbourIsFound(adj, s, b, p, v);
    assert q >= k by {
      assert forall x :: 0 <= x < k ==> b.found[x] != v;
    }
    if q > k { assert OrderAt(b, k, q); }
  }

  lemma {:induction false} SearchesAgree(adj: Adj, s: nat, a: Tree, b: Tree, k: nat)
    requires Complete(adj, s, a) && Complete(adj, s, b) && k <= |a.found| && k <= |b.found|
    ensures forall x :: 0 <= x < k ==> a.found[x] == b.found[x]
    decreases k
  {
    if k > 1 {
      SearchesAgree(adj, s, a, b, k - 1);
      NextAgrees(adj, s, a, b, k - 1);
    }
  }

  lemma NoLonger(adj: Adj, s: nat, a: Tree, b: Tree)
    requires Complete(adj, s, a) && Complete(adj, s, b)
    ensures |b.found| <= |a.found|
  {
    var m := if |a.found| < |b.found| then |a.found| else |b.found|;
    var y := |b.found| - 1;
    SearchesAgree(adj, s, a, b, m);
    DepthIsDistance(adj, s, a);
    DepthIsDistance(adj, s, b);
    assert b.found[y] in b.found;
    var x :| 0 <= x < |a.found| && a.found[x] == b.found[y];
    assert x < m ==> x == y;
  }

  /** The discovery order is determined by the graph and the start. */
  lemma OrderIsUnique(adj: Adj, s: nat, a: Tree, b: Tree)
    requires Complete(adj, s, a) && Complete(adj, s, b)
    ensures a.found == b.found
  {
    NoLonger(adj, s, a, b);
    NoLonger(adj, s, b, a);
    SearchesAgree(adj, s, a, b, |a.found|);
  }
}
