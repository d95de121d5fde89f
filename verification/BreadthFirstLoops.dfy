/** The queue loops: discovery order, distances and connected components. */
module BreadthFirstLoops {
  import opened Adjacency
  import opened BreadthFirst

  /** No edge leaves the set. */
  ghost predicate ClosedSet(adj: Adj, inside: set<nat>) {
    forall u: nat, v: nat :: u in inside && Edge(adj, u, v) ==> v in inside
  }

  /** The flags mark exactly what was marked before this search and what it has found. */
  ghost predicate Marks(adj: Adj, seen: seq<bool>, before: set<nat>, found: seq<nat>) {
    && |seen| == |adj| && ClosedSet(adj, before)
    && (forall v :: v in found ==> v !in before)
    && forall v :: 0 <= v < |seen| ==> (seen[v] <==> v in before || v in found)
  }

  /** A marked neighbour was found by this search: an earlier one would have found its neighbour, too. */
  lemma MarkedIsFound(adj: Adj, seen: seq<bool>, before: set<nat>, found: seq<nat>, u: nat, v: nat)
    requires WellFormed(adj) && Marks(adj, seen, before, found) && u in found && Edge(adj, u, v)
    ensures v < |seen| && (seen[v] <==> v in found)
  {
    assert Edge(adj, v, u);
  }

  lemma MarksAfter(adj: Adj, seen: seq<bool>, before: set<nat>, found: seq<nat>, v: nat)
    requires Marks(adj, seen, before, found) && v < |seen| && !seen[v]
    ensures Marks(adj, seen[v := true], before, found + [v])
  {
  }

  /** The inner loop: marks and enqueues the unseen neighbours of the vertex just dequeued. */
  method EnqueueUnseen(adj: Adj, seen: array<bool>, queue0: seq<nat>,
                       ghost s: nat, ghost before: set<nat>, ghost t0: Tree, ghost h: nat, u: nat)
    returns (queue: seq<nat>, ghost t: Tree)
    requires WellFormed(adj) && Grown(adj, s, t0, h, 0) && h < |t0.found| && t0.found[h] == u
    requires Marks(adj, seen[..], before, t0.found) && queue0 == t0.found[h + 1..]
    modifies seen
    ensures Grown(adj, s, t, h + 1, 0) && |t.found| > h && t.found[..h + 1] == t0.found[..h + 1]
    ensures Marks(adj, seen[..], before, t.found) && queue == t.found[h + 1..]
  {
    queue, t := queue0, t0;
    for i := 0 to |adj[u]|
      invariant Grown(adj, s, t, h, i) && |t.found| > h && t.found[..h + 1] == t0.found[..h + 1] && t.found[h] == u
      invariant Marks(adj, seen[..], before, t.found) && queue == t.found[h + 1..]
    {
      var v := adj[u][i];
      assert Edge(adj, u, v);
      assert t.found[h] in t.found;
      MarkedIsFound(adj, seen[..], before, t.found, u, v);
      if !seen[v] {
        ghost var t' := Discovered(t, h, v);
        DiscoverGrows(adj, s, t, h, i, t');
        MarksAfter(adj, seen[..], before, t.found, v);
        seen[v] := true;
        queue := queue + [v];
        t := t';
      } else {
        SkipGrows(adj, s, t, h, i);
      }
    }
    AdvanceGrows(adj, s, t, h);
  }

  lemma Dequeue(found: seq<nat>, h: nat)
    requires h < |found|
    ensures found[h..] != [] && found[h..][0] == found[h] && found[h..][1..] == found[h + 1..]
    ensures found[..h + 1] == found[..h] + [found[h]]
  {
  }

  /** The queue loop of `bfs` and of each component: everything `s` reaches, in discovery order. */
  method Explore(adj: Adj, s: nat, seen: array<bool>, ghost before: set<nat>) returns (order: seq<nat>, ghost t: Tree)
    requires WellFormed(adj) && s < |adj| && Marks(adj, seen[..], before, []) && !seen[s]
    modifies seen
    ensures Complete(adj, s, t) && order == t.found
    ensures Marks(adj, seen[..], before, order)
  {
    order, t := [], Root(s);
    RootGrown(adj, s);
    MarksAfter(adj, seen[..], before, [], s);
    seen[s] := true;
    var queue := [s];
    while queue != []
      invariant Grown(adj, s, t, |order|, 0) && order == t.found[..|order|] && queue == t.found[|order|..]
      invariant Marks(adj, seen[..], before, t.found)
      decreases |adj| - |order|
    {
      ghost var h := |order|;
      Dequeue(t.found, h);
      var u, rest := queue[0], queue[1..];
      DistinctFits(t.found, |adj|);
      queue, t := EnqueueUnseen(adj, seen, rest, s, before, t, h, u);
      order := order + [u];
    }
  }

  /** The discovery order, which the graph and the start determine. */
  method Bfs(adj: Adj, start: nat) returns (order: seq<nat>)
    requires WellFormed(adj) && start < |adj|
    ensures exists t :: Complete(adj, start, t) && t.found == order
    ensures forall t :: Complete(adj, start, t) ==> t.found == order
    ensures Distinct(order) && forall v :: v in order <==> Reaches(adj, start, v)
  {
    var seen := new bool[|adj|](_ => false);
    ghost var t;
    order, t := Explore(adj, start, seen, {});
    DepthIsDistance(adj, start, t);
    forall t' | Complete(adj, start, t') ensures t'.found == order {
      OrderIsUnique(adj, start, t, t');
    }
  }

  // ---------------------------------------------------------------- distances

  /** The distance vector: depths of found vertices, -1 elsewhere. */
  ghost predicate Measures(adj: Adj, dist: seq<int>, t: Tree) {
    && |dist| == |adj| && |t.found| == |t.depth|
    && (forall k :: 0 <= k < |t.found| ==> t.found[k] < |adj| && dist[t.found[k]] == t.depth[k])
    && forall v :: 0 <= v < |dist| ==> (dist[v] == -1 <==> v !in t.found)
  }

  lemma MeasuresAfter(adj: Adj, dist: seq<int>, t: Tree, h: nat, v: nat)
    requires Measures(adj, dist, t) && h < |t.found| && v < |dist| && v !in t.found
    ensures Measures(adj, dist[v := t.depth[h] + 1], Discovered(t, h, v))
  {
    var t' := Discovered(t, h, v);
    assert t'.found[|t.found|] == v;
    forall x | 0 <= x < |dist| && x in t.found ensures dist[x] != -1 {
    }
  }

  method EnqueueUnmeasured(adj: Adj, dist: array<int>, queue0: seq<nat>, ghost s: nat, ghost t0: Tree, ghost h: nat, u: nat)
    returns (queue: seq<nat>, ghost t: Tree)
    requires WellFormed(adj) && Grown(adj, s, t0, h, 0) && h < |t0.found| && t0.found[h] == u
    requires Measures(adj, dist[..], t0) && queue0 == t0.found[h + 1..]
    modifies dist
    ensures Grown(adj, s, t, h + 1, 0) && |t.found| > h && Measures(adj, dist[..], t) && queue == t.found[h + 1..]
  {
    queue, t := queue0, t0;
    for i := 0 to |adj[u]|
      invariant Grown(adj, s, t, h, i) && |t.found| > h && t.found[h] == u
      invariant Measures(adj, dist[..], t) && queue == t.found[h + 1..]
    {
      var v := adj[u][i];
      assert Edge(adj, u, v);
      assert dist[..][v] == dist[v] && dist[..][u] == dist[u];
      if dist[v] == -1 {
        ghost var t' := Discovered(t, h, v);
        DiscoverGrows(adj, s, t, h, i, t');
        MeasuresAfter(adj, dist[..], t, h, v);
        dist[v] := dist[u] + 1;
        queue := queue + [v];
        t := t';
      } else {
        SkipGrows(adj, s, t, h, i);
      }
    }
    AdvanceGrows(adj, s, t, h);
  }

  /** Every distance is that of a shortest walk, or -1 where there is no walk. */
  ghost predicate Distances(adj: Adj, start: nat, dist: seq<int>) {
    |dist| == |adj| && forall v :: 0 <= v < |dist| ==>
      if dist[v] == -1 then !Reaches(adj, start, v) else dist[v] >= 0 && Shortest(adj, start, v, dist[v])
  }

  lemma MeasuresAreDistances(adj: Adj, s: nat, t: Tree, dist: seq<int>)
    requires Complete(adj, s, t) && Measures(adj, dist, t)
    ensures Distances(adj, s, dist)
  {
    DepthIsDistance(adj, s, t);
    forall v | 0 <= v < |dist|
      ensures if dist[v] == -1 then !Reaches(adj, s, v) else dist[v] >= 0 && Shortest(adj, s, v, dist[v])
    {
      if v in t.found {
        var k :| 0 <= k < |t.found| && t.found[k] == v;
      }
    }
  }

  method BfsDistance(adj: Adj, start: nat) returns (dist: array<int>)
    requires WellFormed(adj) && start < |adj|
    ensures fresh(dist) && Distances(adj, start, dist[..])
  {
    dist := new int[|adj|](_ => -1);
    ghost var t, h := Root(start), 0;
    RootGrown(adj, start);
    dist[start] := 0;
    var queue := [start];
    while queue != []
      invariant Grown(adj, start, t, h, 0) && queue == t.found[h..]
      invariant Measures(adj, dist[..], t)
      decreases |adj| - h
    {
      var u, rest := queue[0], queue[1..];
      DistinctFits(t.found, |adj|);
      queue, t := EnqueueUnmeasured(adj, dist, rest, start, t, h, u);
      h := h + 1;
    }
    MeasuresAreDistances(adj, start, t, dist[..]);
  }

  // ---------------------------------------------------------------- components

  /** The vertices that components list. */
  ghost predicate Listed(comps: seq<seq<nat>>, v: nat) {
    exists i :: 0 <= i < |comps| && v in comps[i]
  }

  /** One component: what its first vertex reaches, each once, and nothing smaller than that vertex. */
  ghost predicate IsComponent(adj: Adj, c: seq<nat>) {
    && c != [] && c[0] < |adj| && Distinct(c)
    && (forall v :: v in c <==> Reaches(adj, c[0], v))
    && (forall v :: v in c ==> c[0] <= v)
  }

  /** Components by ascending first vertex, disjoint. */
  ghost predicate Components(adj: Adj, comps: seq<seq<nat>>) {
    && (forall i :: 0 <= i < |comps| ==> IsComponent(adj, comps[i]))
    && (forall i, j :: 0 <= i < j < |comps| ==> comps[i][0] < comps[j][0])
    && (forall i, j, v :: 0 <= i < j < |comps| && v in comps[i] ==> v !in comps[j])
  }

  lemma ComponentFound(adj: Adj, s: nat, t: Tree, before: set<nat>)
    requires Complete(adj, s, t) && (forall v :: 0 <= v < s ==> v in before)
    requires forall v :: v in t.found ==> v !in before
    ensures IsComponent(adj, t.found) && t.found[0] == s
  {
    DepthIsDistance(adj, s, t);
  }

  lemma ComponentAdded(adj: Adj, comps: seq<seq<nat>>, c: seq<nat>, before: set<nat>)
    requires Components(adj, comps) && IsComponent(adj, c)
    requires forall v :: v in before <==> Listed(comps, v)
    requires forall v :: v in c ==> v !in before
    requires forall i :: 0 <= i < |comps| ==> comps[i][0] < c[0]
    ensures Components(adj, comps + [c])
    ensures forall v :: Listed(comps + [c], v) <==> v in before || v in c
  {
    var more := comps + [c];
    forall v ensures Listed(more, v) <==> v in before || v in c {
      if Listed(comps, v) {
        var i :| 0 <= i < |comps| && v in comps[i];
        assert v in more[i];
      }
      if v in c { assert v in more[|comps|]; }
    }
    forall i, j, v | 0 <= i < j < |more| && v in more[i] ensures v !in more[j] {
      if j == |comps| { assert v in comps[i]; assert Listed(comps, v); }
    }
  }

  lemma ClosedAfter(adj: Adj, s: nat, t: Tree, before: set<nat>)
    requires Complete(adj, s, t) && ClosedSet(adj, before)
    ensures ClosedSet(adj, before + set v | v in t.found)
  {
    forall u: nat, v: nat | u in t.found && Edge(adj, u, v) ensures v in t.found {
      var k :| 0 <= k < |t.found| && t.found[k] == u;
      var q := NeighbourIsFound(adj, s, t, k, v);
    }
  }

  /** The vertices partitioned into what they reach, in ascending order of smallest vertex. */
  method ConnectedComponents(adj: Adj) returns (comps: seq<seq<nat>>)
    requires WellFormed(adj)
    ensures Components(adj, comps)
    ensures forall v :: 0 <= v < |adj| ==> Listed(comps, v)
  {
    var seen := new bool[|adj|](_ => false);
    comps := [];
    ghost var before: set<nat> := {};
    for s := 0 to |adj|
      invariant Components(adj, comps) && Marks(adj, seen[..], before, [])
      invariant forall v :: v in before <==> Listed(comps, v)
      invariant forall v :: 0 <= v < s ==> v in before
      invariant forall i :: 0 <= i < |comps| ==> comps[i][0] < s
    {
      if !seen[s] {
        var comp, t := Explore(adj, s, seen, before);
        ComponentFound(adj, s, t, before);
        ComponentAdded(adj, comps, comp, before);
        ClosedAfter(adj, s, t, before);
        comps := comps + [comp];
        before := before + set v | v in comp;
        assert comp[0] == s;
      }
    }
  }
}
