/** Depth-first search: the explicit-stack loop against the recursive first-visit order. */
module DepthFirst {
  import opened Adjacency

  ghost function Unseen(adj: Adj, order: seq<nat>): set<nat> {
    set v | 0 <= v < |adj| && v !in order
  }

  ghost predicate InRange(adj: Adj, vs: seq<nat>) {
    forall i :: 0 <= i < |vs| ==> vs[i] < |adj|
  }

  lemma UnseenShrinks(adj: Adj, order: seq<nat>, more: seq<nat>)
    requires forall v :: v in order ==> v in more
    ensures |Unseen(adj, more)| <= |Unseen(adj, order)|
    ensures (exists v :: v in more && v !in order && v < |adj|) ==> |Unseen(adj, more)| < |Unseen(adj, order)|
  {
    var a, b := Unseen(adj, more), Unseen(adj, order);
    assert b == a + (b - a);
    if v :| v in more && v !in order && v < |adj| {
      assert v in b - a;
    }
  }

  /** Recursive search from `u`, given the vertices visited so far. */
  ghost function Visit(adj: Adj, u: nat, order: seq<nat>): (r: seq<nat>)
    requires WellFormed(adj) && u < |adj|
    ensures forall v :: v in order ==> v in r
    decreases |Unseen(adj, order)|, 0
  {
    if u in order then order
    else
      UnseenShrinks(adj, order, order + [u]);
      assert u in order + [u];
      NeighboursInRange(adj, u);
      VisitAll(adj, adj[u], order + [u])
  }

  /** Recursive search from each vertex of a list in turn. */
  ghost function VisitAll(adj: Adj, vs: seq<nat>, order: seq<nat>): (r: seq<nat>)
    requires WellFormed(adj) && InRange(adj, vs)
    ensures forall v :: v in order ==> v in r
    decreases |Unseen(adj, order)|, |vs| + 1
  {
    if vs == [] then order
    else
      var next := Visit(adj, vs[0], order);
      UnseenShrinks(adj, order, next);
      VisitAll(adj, vs[1..], next)
  }

  lemma NeighboursInRange(adj: Adj, u: nat)
    requires WellFormed(adj) && u < |adj|
    ensures InRange(adj, adj[u])
  {
    forall i | 0 <= i < |adj[u]| ensures adj[u][i] < |adj| {
      assert Edge(adj, u, adj[u][i]);
    }
  }

  lemma {:induction false} VisitAllConcat(adj: Adj, a: seq<nat>, b: seq<nat>, order: seq<nat>)
    requires WellFormed(adj) && InRange(adj, a) && InRange(adj, b)
    ensures VisitAll(adj, a + b, order) == VisitAll(adj, b, VisitAll(adj, a, order))
    decreases |a|
  {
    if a == [] {
      assert a + b == b;
    } else {
      assert (a + b)[1..] == a[1..] + b;
      VisitAllConcat(adj, a[1..], b, Visit(adj, a[0], order));
    }
  }

  /** The unseen vertices of a list, in order. */
  function Filter(vs: seq<nat>, seen: seq<nat>): (r: seq<nat>)
    ensures forall v :: v in r ==> v in vs
  {
    if vs == [] then [] else (if vs[0] in seen then [] else [vs[0]]) + Filter(vs[1..], seen)
  }

  lemma FilterInRange(adj: Adj, vs: seq<nat>, seen: seq<nat>)
    requires InRange(adj, vs)
    ensures InRange(adj, Filter(vs, seen))
  {
    forall i | 0 <= i < |Filter(vs, seen)| ensures Filter(vs, seen)[i] < |adj| {
      assert Filter(vs, seen)[i] in vs;
    }
  }

  /** Visited vertices can be left out of a list. */
  lemma {:induction false} FilterKeepsVisits(adj: Adj, vs: seq<nat>, seen: seq<nat>, order: seq<nat>)
    requires WellFormed(adj) && InRange(adj, vs)
    requires forall v :: v in seen ==> v in order
    ensures InRange(adj, Filter(vs, seen))
    ensures VisitAll(adj, vs, order) == VisitAll(adj, Filter(vs, seen), order)
    decreases |vs|
  {
    if vs != [] {
      FilterInRange(adj, vs, seen);
      FilterInRange(adj, vs[1..], seen);
      FilterKeepsVisits(adj, vs[1..], seen, Visit(adj, vs[0], order));
      if vs[0] in seen {
        assert Filter(vs, seen) == Filter(vs[1..], seen);
      } else {
        assert Filter(vs, seen)[1..] == Filter(vs[1..], seen);
      }
    }
  }

  /** Popping an unseen vertex and pushing its unseen neighbours keeps what a recursive search would visit. */
  lemma PopKeepsVisits(adj: Adj, u: nat, stack: seq<nat>, order: seq<nat>)
    requires WellFormed(adj) && u < |adj| && InRange(adj, stack) && u !in order
    ensures InRange(adj, Filter(adj[u], order + [u]) + stack)
    ensures VisitAll(adj, [u] + stack, order) ==
            VisitAll(adj, Filter(adj[u], order + [u]) + stack, order + [u])
  {
    var order', pushed := order + [u], Filter(adj[u], order + [u]);
    NeighboursInRange(adj, u);
    assert ([u] + stack)[1..] == stack;
    FilterKeepsVisits(adj, adj[u], order', order');
    VisitAllConcat(adj, pushed, stack, order');
  }

  lemma {:induction false} FilterFromRight(vs: seq<nat>, seen: seq<nat>, i: nat)
    requires i < |vs|
    ensures Filter(vs[i..], seen) == (if vs[i] in seen then [] else [vs[i]]) + Filter(vs[i + 1..], seen)
  {
    assert vs[i..][1..] == vs[i + 1..];
  }

  /** The inner loop: neighbours are pushed in reverse, so the smallest ends on top. */
  method PushUnseen(vs: seq<nat>, stack0: seq<nat>, seen: array<bool>, ghost order: seq<nat>) returns (stack: seq<nat>)
    requires forall i :: 0 <= i < |vs| ==> vs[i] < seen.Length
    requires forall v :: 0 <= v < seen.Length ==> (seen[v] <==> v in order)
    ensures stack == Filter(vs, order) + stack0
  {
    stack := stack0;
    var i := |vs|;
    assert stack == Filter(vs[i..], order) + stack0;
    while i > 0
      invariant i <= |vs|
      invariant stack == Filter(vs[i..], order) + stack0
    {
      i := i - 1;
      FilterFromRight(vs, order, i);
      if !seen[vs[i]] {
        ghost var rest := Filter(vs[i + 1..], order);
        assert [vs[i]] + (rest + stack0) == ([vs[i]] + rest) + stack0;
        stack := [vs[i]] + stack;
      }
    }
    assert vs[0..] == vs;
  }

  /** The explicit-stack search, top of the stack first, visits as the recursive one does. */
  method Dfs(adj: Adj, start: nat) returns (order: seq<nat>)
    requires WellFormed(adj) && start < |adj|
    ensures order == Visit(adj, start, [])
  {
    var seen := new bool[|adj|](_ => false);
    order := [];
    var stack := [start];
    assert Visit(adj, start, []) == VisitAll(adj, stack, order);
    while stack != []
      invariant InRange(adj, stack)
      invariant forall v :: 0 <= v < |adj| ==> (seen[v] <==> v in order)
      invariant VisitAll(adj, stack, order) == Visit(adj, start, [])
      decreases |Unseen(adj, order)|, |stack|
    {
      var u := stack[0];
      var rest := stack[1..];
      assert stack == [u] + rest;
      stack := rest;
      if !seen[u] {
        PopKeepsVisits(adj, u, rest, order);
        NeighboursInRange(adj, u);
        UnseenShrinks(adj, order, order + [u]);
        assert u in order + [u];
        seen[u] := true;
        order := order + [u];
        stack := PushUnseen(adj[u], rest, seen, order);
      }
    }
  }

  // ---------------------------------------------------------------- what a search visits

  /** Every neighbour of a visited vertex is visited, except perhaps those of vertices still on the call stack. */
  ghost predicate ClosedExcept(adj: Adj, order: seq<nat>, open: set<nat>) {
    forall u, v :: u in order && u !in open && Edge(adj, u, v) ==> v in order
  }

  /** What a list of searches adds to a visited list: distinct, reachable, and closed again. */
  ghost predicate Grows(adj: Adj, s: nat, order: seq<nat>, r: seq<nat>, open: set<nat>) {
    && |order| <= |r| && r[..|order|] == order
    && (Distinct(order) ==> Distinct(r))
    && ((forall v :: v in order ==> Reaches(adj, s, v)) ==> forall v :: v in r ==> Reaches(adj, s, v))
    && (ClosedExcept(adj, order, open) ==> ClosedExcept(adj, r, open))
    && (InRange(adj, order) ==> InRange(adj, r))
  }

  lemma {:induction false} VisitGrows(adj: Adj, s: nat, u: nat, order: seq<nat>, open: set<nat>)
    requires WellFormed(adj) && u < |adj| && Reaches(adj, s, u)
    requires forall v :: v in open ==> v in order
    ensures Grows(adj, s, order, Visit(adj, u, order), open) && u in Visit(adj, u, order)
    decreases |Unseen(adj, order)|, 0
  {
    if u !in order {
      var next := order + [u];
      UnseenShrinks(adj, order, next);
      assert u in next;
      NeighboursInRange(adj, u);
      forall v | v in adj[u] ensures Reaches(adj, s, v) {
        var k :| Walk(adj, s, u, k);
        WalkExtend(adj, s, u, v, k);
      }
      VisitAllGrows(adj, s, adj[u], next, open + {u});
    }
  }

  lemma {:induction false} VisitAllGrows(adj: Adj, s: nat, vs: seq<nat>, order: seq<nat>, open: set<nat>)
    requires WellFormed(adj) && InRange(adj, vs) && forall v :: v in vs ==> Reaches(adj, s, v)
    requires forall v :: v in open ==> v in order
    ensures Grows(adj, s, order, VisitAll(adj, vs, order), open)
    ensures forall v :: v in vs ==> v in VisitAll(adj, vs, order)
    decreases |Unseen(adj, order)|, |vs| + 1
  {
    if vs != [] {
      var next := Visit(adj, vs[0], order);
      VisitGrows(adj, s, vs[0], order, open);
      UnseenShrinks(adj, order, next);
      VisitAllGrows(adj, s, vs[1..], next, open);
    }
  }

  /** A search visits exactly the vertices it can reach, each once. */
  lemma DfsVisitsReachable(adj: Adj, s: nat)
    requires WellFormed(adj) && s < |adj|
    ensures Distinct(Visit(adj, s, []))
    ensures forall v :: v in Visit(adj, s, []) <==> Reaches(adj, s, v)
  {
    var r := Visit(adj, s, []);
    WalkStart(adj, s);
    VisitGrows(adj, s, s, [], {});
    forall v | Reaches(adj, s, v) ensures v in r {
      var k :| Walk(adj, s, v, k);
      WalksStayInside(adj, s, v, k, set x | x in r);
    }
  }
}
