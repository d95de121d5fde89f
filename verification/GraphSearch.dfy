/** The graph class: edges are added one by one, and every search checks its start vertex. */
module GraphSearch {
  import opened Options
  import opened Adjacency
  import BreadthFirst
  import opened BreadthFirstLoops
  import CycleSearch
  import DepthFirst

  /** Insertion into an ordered set. */
  function Insert(s: seq<nat>, v: nat): seq<nat> {
    if s == [] || v < s[0] then [v] + s
    else if s[0] == v then s
    else [s[0]] + Insert(s[1..], v)
  }

  lemma {:induction false} InsertMeaning(s: seq<nat>, v: nat)
    requires Ascending(s)
    ensures Ascending(Insert(s, v)) && forall x :: x in Insert(s, v) <==> x in s || x == v
    ensures v in s ==> Insert(s, v) == s
    decreases |s|
  {
    if s != [] && v > s[0] {
      var rest := Insert(s[1..], v);
      InsertMeaning(s[1..], v);
      forall i | 0 <= i < |rest| ensures s[0] < rest[i] {
        assert rest[i] in rest;
      }
      assert s == [s[0]] + s[1..];
      forall x ensures x in [s[0]] + rest <==> x in s || x == v {
        assert x in [s[0]] + rest <==> x == s[0] || x in rest;
        assert x in s <==> x == s[0] || x in s[1..];
      }
    } else if s != [] && v < s[0] {
      forall i | 0 <= i < |s| ensures v < s[i] {
        if i > 0 { assert s[0] < s[i]; }
      }
    }
  }

  /** Each undirected edge once, a self-loop as well. */
  ghost function Edges(adj: Adj): set<(nat, nat)> {
    set u: nat, v: nat | u < |adj| && v in adj[u] && u <= v :: (u, v)
  }

  ghost function Undirected(u: nat, v: nat): (nat, nat) {
    if u <= v then (u, v) else (v, u)
  }

  /** The graph with one more edge. */
  ghost predicate WithEdge(adj: Adj, adj': Adj, u: nat, v: nat) {
    && |adj'| == |adj|
    && forall x: nat, y: nat :: Edge(adj', x, y) <==> Edge(adj, x, y) || (x == u && y == v) || (x == v && y == u)
  }

  lemma EdgesGrow(adj: Adj, adj': Adj, u: nat, v: nat)
    requires WellFormed(adj) && WithEdge(adj, adj', u, v) && u < |adj| && v < |adj|
    ensures Edges(adj') == Edges(adj) + {Undirected(u, v)}
    ensures Undirected(u, v) in Edges(adj) <==> Edge(adj, u, v)
  {
    forall x: nat, y: nat ensures (x, y) in Edges(adj) <==> x <= y && Edge(adj, x, y) {}
    forall x: nat, y: nat ensures (x, y) in Edges(adj') <==> x <= y && Edge(adj', x, y) {}
    assert Edge(adj, u, v) <==> Edge(adj, v, u);
  }

  /** Inserting at both ends. */
  function Joined(adj: Adj, u: nat, v: nat): Adj
    requires u < |adj| && v < |adj|
  {
    if u == v then adj[u := Insert(adj[u], v)]
    else adj[u := Insert(adj[u], v)][v := Insert(adj[v], u)]
  }

  lemma JoinedMeaning(adj: Adj, u: nat, v: nat)
    requires WellFormed(adj) && u < |adj| && v < |adj|
    ensures WellFormed(Joined(adj, u, v)) && WithEdge(adj, Joined(adj, u, v), u, v)
    ensures Edge(adj, u, v) ==> Joined(adj, u, v) == adj == adj[u := Insert(adj[u], v)]
  {
    InsertMeaning(adj[u], v);
    InsertMeaning(adj[v], u);
    if Edge(adj, u, v) { assert Edge(adj, v, u); }
    var adj' := Joined(adj, u, v);
    forall x: nat, y: nat
      ensures Edge(adj', x, y) <==> Edge(adj, x, y) || (x == u && y == v) || (x == v && y == u) {}
  }

  class Graph {
    var adj: Adj
    var edgeCount: nat

    ghost predicate Valid()
      reads this
    {
      WellFormed(adj) && edgeCount == |Edges(adj)|
    }

    constructor (vertices: nat)
      ensures Valid() && |adj| == vertices && edgeCount == 0
    {
      adj := seq(vertices, _ => []);
      edgeCount := 0;
      new;
      assert Edges(adj) == {};
    }

    /** `check_vertex`, which throws where this is false. */
    predicate IsVertex(v: int)
      reads this
    {
      0 <= v < |adj|
    }

    /** False where the code throws. An edge is counted once, however often it is added. */
    method AddEdge(u: int, v: int) returns (ok: bool)
      requires Valid()
      modifies this
      ensures Valid()
      ensures ok <==> 0 <= u < old(|adj|) && 0 <= v < old(|adj|)
      ensures !ok ==> adj == old(adj) && edgeCount == old(edgeCount)
      ensures ok ==> WithEdge(old(adj), adj, u, v) && Edges(adj) == old(Edges(adj)) + {Undirected(u, v)}
      ensures ok ==> edgeCount == old(edgeCount) + if Edge(old(adj), u, v) then 0 else 1
    {
      if !IsVertex(u) || !IsVertex(v) { return false; }
      ghost var joined := Joined(adj, u, v);
      JoinedMeaning(adj, u, v);
      EdgesGrow(adj, joined, u, v);
      var added := v !in adj[u];
      if u == v {
        adj := adj[u := Insert(adj[u], v)];
        if added { edgeCount := edgeCount + 1; }
      } else {
        var grown := adj[u := Insert(adj[u], v)];
        if added {
          adj := grown[v := Insert(adj[v], u)];
          edgeCount := edgeCount + 1;
        } else {
          adj := grown;
        }
      }
      assert adj == joined;
      return true;
    }

    /** Discovery order, which the graph and the start determine; `None` where the code throws. */
    method Bfs(start: int) returns (order: Option<seq<nat>>)
      requires Valid()
      ensures order.Some? <==> IsVertex(start)
      ensures order.Some? ==>
        && (exists t :: BreadthFirst.Complete(adj, start, t) && t.found == order.value)
        && (forall t :: BreadthFirst.Complete(adj, start, t) ==> t.found == order.value)
        && Distinct(order.value) && forall v :: v in order.value <==> Reaches(adj, start, v)
    {
      if !IsVertex(start) { return None; }
      var found := BreadthFirstLoops.Bfs(adj, start);
      order := Some(found);
    }

    /** The first-visit order of recursive search over ascending neighbours: what `start` reaches, once each. */
    method Dfs(start: int) returns (order: Option<seq<nat>>)
      requires Valid()
      ensures order.Some? <==> IsVertex(start)
      ensures order.Some? ==>
        && order.value == DepthFirst.Visit(adj, start, [])
        && Distinct(order.value) && forall v :: v in order.value <==> Reaches(adj, start, v)
    {
      if !IsVertex(start) { return None; }
      var visited := DepthFirst.Dfs(adj, start);
      DepthFirst.DfsVisitsReachable(adj, start);
      order := Some(visited);
    }

    method BfsDistance(start: int) returns (dist: Option<seq<int>>)
      requires Valid()
      ensures dist.Some? <==> IsVertex(start)
      ensures dist.Some? ==> Distances(adj, start, dist.value)
    {
      if !IsVertex(start) { return None; }
      var measured := BreadthFirstLoops.BfsDistance(adj, start);
      dist := Some(measured[..]);
    }

    method ConnectedComponents() returns (comps: seq<seq<nat>>)
      requires Valid()
      ensures Components(adj, comps) && forall v :: 0 <= v < |adj| ==> Listed(comps, v)
    {
      comps := BreadthFirstLoops.ConnectedComponents(adj);
    }

    method DetectCycle() returns (cycle: bool)
      requires Valid()
      ensures cycle <==> HasCycle(adj)
    {
      cycle := CycleSearch.DetectCycle(adj);
    }
  }
}
