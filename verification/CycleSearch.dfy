/** Undirected cycle detection by a stack of (vertex, parent) pairs, vertices being marked when pushed. */
module CycleSearch {
  import opened Adjacency

  /** The vertices in the order they were marked, with the vertex each was pushed from (-1 for a root). */
  datatype Forest = Forest(found: seq<nat>, parent: seq<int>)

  datatype Pending = Pending(node: nat, parent: int)

  /** Position `k` hangs below an earlier position, not before `lo`, along an edge. */
  ghost predicate HangsAt(adj: Adj, f: Forest, k: nat, lo: nat) {
    && |f.parent| == |f.found| && k < |f.found|
    && exists q :: lo <= q < k && f.parent[k] == f.found[q] && Edge(adj, f.found[q], f.found[k])
  }

  ghost predicate RootedAt(adj: Adj, f: Forest, k: nat) {
    k < |f.parent| && (f.parent[k] == -1 || HangsAt(adj, f, k, 0))
  }

  /** A forest whose last tree starts at position `root`. */
  ghost predicate IsForest(adj: Adj, f: Forest, root: nat) {
    && |f.parent| == |f.found| && Distinct(f.found)
    && (forall k :: 0 <= k < |f.found| ==> f.found[k] < |adj|)
    && (forall k :: 0 <= k < |f.found| ==> RootedAt(adj, f, k))
    && (forall k :: root < k < |f.found| ==> HangsAt(adj, f, k, root))
  }

  ghost predicate LinkAt(f: Forest, k: nat, u: nat, v: nat)
    requires k < |f.found| == |f.parent|
  {
    (f.found[k] == u && f.parent[k] == v) || (f.found[k] == v && f.parent[k] == u)
  }

  /** One of the two was pushed from the other. */
  ghost predicate TreeLink(f: Forest, u: nat, v: nat) {
    && |f.parent| == |f.found|
    && exists k :: 0 <= k < |f.found| && LinkAt(f, k, u, v)
  }

  lemma LinksAreSymmetric(f: Forest)
    ensures forall u, v :: TreeLink(f, u, v) ==> TreeLink(f, v, u)
  {
    forall u, v | TreeLink(f, u, v) ensures TreeLink(f, v, u) {
      var k :| 0 <= k < |f.found| && LinkAt(f, k, u, v);
      assert LinkAt(f, k, v, u);
    }
  }

  ghost function LinkOf(f: Forest): (nat, nat) -> bool {
    (u: nat, v: nat) => TreeLink(f, u, v)
  }

  // ---------------------------------------------------------------- an edge outside the forest closes a cycle

  lemma TreeLinkIsEdge(adj: Adj, f: Forest, root: nat, u: nat, v: nat)
    requires WellFormed(adj) && IsForest(adj, f, root) && TreeLink(f, u, v)
    ensures Edge(adj, u, v)
  {
    var k :| 0 <= k < |f.found| && LinkAt(f, k, u, v);
    assert RootedAt(adj, f, k);
  }

  /** From every vertex of the last tree links lead to its root. */
  lemma {:induction false} PathToRoot(adj: Adj, f: Forest, root: nat, k: nat) returns (w: seq<nat>)
    requires IsForest(adj, f, root) && root <= k < |f.found|
    ensures WalkFrom(LinkOf(f), f.found[k], f.found[root], w)
    decreases k
  {
    if k == root {
      w := [f.found[k]];
    } else {
      assert HangsAt(adj, f, k, root);
      var q :| root <= q < k && f.parent[k] == f.found[q] && Edge(adj, f.found[q], f.found[k]);
      var rest := PathToRoot(adj, f, root, q);
      assert LinkAt(f, k, f.found[k], f.found[q]);
      var step := [f.found[k], f.found[q]];
      assert WalkFrom(LinkOf(f), f.found[k], f.found[q], step);
      WalkJoin(LinkOf(f), f.found[k], f.found[q], f.found[root], step, rest);
      w := step + rest[1..];
    }
  }

  /** Two vertices of the last tree with an edge between them that is not a link lie on a cycle. */
  lemma ExtraEdgeClosesCycle(adj: Adj, f: Forest, root: nat, i: nat, j: nat)
    requires WellFormed(adj) && IsForest(adj, f, root) && root <= i < |f.found| && root <= j < |f.found|
    requires i != j && Edge(adj, f.found[i], f.found[j]) && !TreeLink(f, f.found[i], f.found[j])
    ensures HasCycle(adj)
  {
    var u, v, top := f.found[i], f.found[j], f.found[root];
    var w := PathToRoot(adj, f, root, i);
    var z := PathToRoot(adj, f, root, j);
    LinksAreSymmetric(f);
    WalkBack(LinkOf(f), v, top, z);
    WalkJoin(LinkOf(f), u, top, v, w, Reversed(z));
    var p := SimplePath(LinkOf(f), u, v, w + Reversed(z)[1..]);
    LinkedPathIsCycle(adj, f, root, p, u, v);
  }

  lemma LinkedPathIsCycle(adj: Adj, f: Forest, root: nat, p: seq<nat>, u: nat, v: nat)
    requires WellFormed(adj) && IsForest(adj, f, root)
    requires WalkFrom(LinkOf(f), u, v, p) && Distinct(p) && u != v && Edge(adj, u, v) && !TreeLink(f, u, v)
    ensures SimpleCycle(adj, p) && HasCycle(adj)
  {
    assert |p| >= 2;
    assert LinkOf(f)(p[0], p[1]);
    forall x | 0 <= x < |p| - 1 ensures EdgeOf(adj)(p[x], p[x + 1]) {
      assert LinkOf(f)(p[x], p[x + 1]);
      TreeLinkIsEdge(adj, f, root, p[x], p[x + 1]);
    }
  }

  // ---------------------------------------------------------------- a forest has no cycle

  /** The later of two linked vertices was pushed from the earlier. */
  lemma LaterHangs(adj: Adj, f: Forest, root: nat, k: nat, j: nat)
    requires IsForest(adj, f, root) && j <= k < |f.found| && TreeLink(f, f.found[k], f.found[j])
    ensures f.parent[k] == f.found[j] && j < k
  {
    var x :| 0 <= x < |f.found| && LinkAt(f, x, f.found[k], f.found[j]);
    assert RootedAt(adj, f, x);
    assert x == k || x == j;
  }

  ghost function Position(f: Forest, v: nat): (k: nat)
    requires v in f.found
    ensures k < |f.found| && f.found[k] == v
  {
    var k: nat :| k < |f.found| && f.found[k] == v;
    k
  }

  /** The member of a list that was marked last. */
  lemma {:induction false} Latest(f: Forest, c: seq<nat>) returns (m: nat)
    requires c != [] && forall i :: 0 <= i < |c| ==> c[i] in f.found
    ensures m < |c| && forall i :: 0 <= i < |c| ==> Position(f, c[i]) <= Position(f, c[m])
    decreases |c|
  {
    m := 0;
    if |c| > 1 {
      var n := |c| - 1;
      var m' := Latest(f, c[..n]);
      assert forall i :: 0 <= i < n ==> c[i] == c[..n][i];
      m := if Position(f, c[n]) > Position(f, c[m']) then n else m';
    }
  }

  /** Going round by links alone meets some vertex twice: the last marked one has a single earlier link. */
  lemma LinkedRoundRepeats(adj: Adj, f: Forest, root: nat, c: seq<nat>)
    requires IsForest(adj, f, root) && |c| >= 3 && forall i :: 0 <= i < |c| ==> c[i] in f.found
    requires Linked(LinkOf(f), c) && TreeLink(f, c[|c| - 1], c[0])
    ensures !Distinct(c)
  {
    var m := Latest(f, c);
    var prev, next := if m == 0 then |c| - 1 else m - 1, if m == |c| - 1 then 0 else m + 1;
    if m > 0 { assert LinkOf(f)(c[m - 1], c[m]); }
    if m < |c| - 1 { assert LinkOf(f)(c[m], c[m + 1]); }
    LinksAreSymmetric(f);
    assert TreeLink(f, c[m], c[prev]) && TreeLink(f, c[m], c[next]);
    LaterHangs(adj, f, root, Position(f, c[m]), Position(f, c[prev]));
    LaterHangs(adj, f, root, Position(f, c[m]), Position(f, c[next]));
    assert c[prev] == c[next] && prev != next;
  }

  /** If every edge is a link, there is no cycle. */
  lemma ForestHasNoCycle(adj: Adj, f: Forest, root: nat)
    requires WellFormed(adj) && IsForest(adj, f, root)
    requires forall v :: 0 <= v < |adj| ==> v in f.found
    requires forall u: nat, v: nat :: Edge(adj, u, v) ==> TreeLink(f, u, v)
    ensures !HasCycle(adj)
  {
    forall u: nat | u < |adj| ensures !Edge(adj, u, u) {
      var k := Position(f, u);
      assert RootedAt(adj, f, k);
      assert forall x :: 0 <= x < |f.found| && x != k ==> !LinkAt(f, x, u, u);
    }
    forall c | |c| >= 3 && Linked(EdgeOf(adj), c) && Edge(adj, c[|c| - 1], c[0]) ensures !Distinct(c) {
      forall i | 0 <= i < |c| - 1 ensures LinkOf(f)(c[i], c[i + 1]) && c[i] < |adj| {
        assert EdgeOf(adj)(c[i], c[i + 1]);
      }
      LinkedRoundRepeats(adj, f, root, c);
    }
  }

  // ---------------------------------------------------------------- the state of the search

  /** A pending pair is a vertex of the last tree with its parent. */
  ghost predicate IsEntry(f: Forest, root: nat, e: Pending) {
    |f.parent| == |f.found| &&
    exists k :: root <= k < |f.found| && f.found[k] == e.node && f.parent[k] == e.parent
  }

  ghost predicate OnStack(stack: seq<Pending>, v: nat) {
    exists x :: 0 <= x < |stack| && stack[x].node == v
  }

  /** Every marked vertex is done, pending or `extra`, and no two of these. */
  ghost predicate Sorted(f: Forest, root: nat, done: set<nat>, stack: seq<Pending>, extra: set<nat>) {
    && (forall x :: 0 <= x < |stack| ==> IsEntry(f, root, stack[x]))
    && (forall x, y :: 0 <= x < y < |stack| ==> stack[x].node != stack[y].node)
    && (forall x :: 0 <= x < |stack| ==> stack[x].node !in done && stack[x].node !in extra)
    && (forall v :: v in f.found <==> v in done || OnStack(stack, v) || v in extra)
    && done !! extra
  }

  /** All edges of finished vertices are links. */
  ghost predicate AllLinks(adj: Adj, f: Forest, done: set<nat>) {
    forall u: nat, v: nat :: u in done && Edge(adj, u, v) ==> TreeLink(f, u, v)
  }

  /** Only finished vertices, and `u` up to its neighbour `i`, have children. */
  ghost predicate ChildAt(adj: Adj, f: Forest, done: set<nat>, u: nat, i: nat, k: nat) {
    k < |f.parent| == |f.found| && (
      f.parent[k] < 0 || f.parent[k] in done
      || (f.parent[k] == u < |adj| && 0 < i <= |adj[u]| && f.found[k] <= adj[u][i - 1]))
  }

  /** Between two pops. */
  ghost predicate Resting(adj: Adj, f: Forest, root: nat, done: set<nat>, stack: seq<Pending>) {
    && IsForest(adj, f, root) && AllLinks(adj, f, done) && Sorted(f, root, done, stack, {})
    && forall k :: 0 <= k < |f.found| ==> ChildAt(adj, f, done, |adj|, 0, k)
  }

  /** Before neighbour `i` of the popped vertex `u`. */
  ghost predicate Popped(adj: Adj, f: Forest, root: nat, done: set<nat>, stack: seq<Pending>, e: Pending, i: nat) {
    && IsForest(adj, f, root) && AllLinks(adj, f, done) && Sorted(f, root, done, stack, {e.node})
    && e.node < |adj| && i <= |adj[e.node]| && IsEntry(f, root, e)
    && (forall x :: 0 <= x < i ==> TreeLink(f, e.node, adj[e.node][x]))
    && forall k :: 0 <= k < |f.found| ==> ChildAt(adj, f, done, e.node, i, k)
  }

  lemma PopKeeps(adj: Adj, f: Forest, root: nat, done: set<nat>, stack: seq<Pending>)
    requires Resting(adj, f, root, done, stack) && stack != []
    ensures Popped(adj, f, root, done, stack[1..], stack[0], 0)
  {
    var e, rest := stack[0], stack[1..];
    assert IsEntry(f, root, e);
    forall v ensures OnStack(stack, v) <==> OnStack(rest, v) || v == e.node {
      if OnStack(stack, v) && v != e.node {
        var x :| 0 <= x < |stack| && stack[x].node == v;
        assert rest[x - 1].node == v;
      }
      if OnStack(rest, v) {
        var x :| 0 <= x < |rest| && rest[x].node == v;
        assert stack[x + 1].node == v;
      }
      if v == e.node { assert stack[0].node == v; }
    }
    forall k | 0 <= k < |f.found| ensures ChildAt(adj, f, done, e.node, 0, k) {
      assert ChildAt(adj, f, done, |adj|, 0, k);
    }
  }

  lemma DoneKeeps(adj: Adj, f: Forest, root: nat, done: set<nat>, stack: seq<Pending>, e: Pending)
    requires e.node < |adj| && Popped(adj, f, root, done, stack, e, |adj[e.node]|)
    ensures Resting(adj, f, root, done + {e.node}, stack)
  {
    forall v: nat | Edge(adj, e.node, v) ensures TreeLink(f, e.node, v) {
      var x :| 0 <= x < |adj[e.node]| && adj[e.node][x] == v;
    }
    forall k | 0 <= k < |f.found| ensures ChildAt(adj, f, done + {e.node}, |adj|, 0, k) {
      assert ChildAt(adj, f, done, e.node, |adj[e.node]|, k);
    }
  }

  // ---------------------------------------------------------------- one neighbour

  ghost function Pushed(f: Forest, v: nat, u: nat): Forest {
    Forest(f.found + [v], f.parent + [u])
  }

  lemma TreeLinkStays(f: Forest, v: nat, u: nat, a: nat, b: nat)
    requires TreeLink(f, a, b)
    ensures TreeLink(Pushed(f, v, u), a, b)
  {
    var k :| 0 <= k < |f.found| && LinkAt(f, k, a, b);
    assert LinkAt(Pushed(f, v, u), k, a, b);
  }

  lemma HangsStays(adj: Adj, f: Forest, v: nat, u: nat, k: nat, lo: nat)
    requires HangsAt(adj, f, k, lo)
    ensures HangsAt(adj, Pushed(f, v, u), k, lo)
  {
    var q :| lo <= q < k && f.parent[k] == f.found[q] && Edge(adj, f.found[q], f.found[k]);
    assert Pushed(f, v, u).found[q] == f.found[q];
  }

  lemma EntryStays(f: Forest, v: nat, u: nat, root: nat, e: Pending)
    requires IsEntry(f, root, e)
    ensures IsEntry(Pushed(f, v, u), root, e)
  {
    var k :| root <= k < |f.found| && f.found[k] == e.node && f.parent[k] == e.parent;
    assert Pushed(f, v, u).found[k] == e.node;
  }

  lemma PushKeepsForest(adj: Adj, f: Forest, root: nat, e: Pending, v: nat, f': Forest)
    requires IsForest(adj, f, root) && IsEntry(f, root, e) && v !in f.found && v < |adj| && Edge(adj, e.node, v)
    requires f' == Pushed(f, v, e.node)
    ensures IsForest(adj, f', root)
  {
    var n := |f.found|;
    var q :| root <= q < n && f.found[q] == e.node && f.parent[q] == e.parent;
    assert f'.found[q] == e.node && f'.parent[n] == e.node && f'.found[n] == v;
    forall k | 0 <= k < n + 1 ensures RootedAt(adj, f', k) {
      if k < n {
        assert RootedAt(adj, f, k);
        if f.parent[k] != -1 { HangsStays(adj, f, v, e.node, k, 0); }
      }
    }
    forall k | root < k < n + 1 ensures HangsAt(adj, f', k, root) {
      if k < n { HangsStays(adj, f, v, e.node, k, root); }
    }
  }

  lemma OnStackPushed(stack: seq<Pending>, e: Pending, y: nat)
    ensures OnStack([e] + stack, y) <==> OnStack(stack, y) || y == e.node
  {
    var more := [e] + stack;
    if OnStack(stack, y) {
      var x :| 0 <= x < |stack| && stack[x].node == y;
      assert more[x + 1].node == y;
    }
    if y == e.node { assert more[0].node == y; }
    if OnStack(more, y) && y != e.node {
      var x :| 0 <= x < |more| && more[x].node == y;
      assert stack[x - 1].node == y;
    }
  }

  lemma PushKeepsSorted(f: Forest, root: nat, done: set<nat>, stack: seq<Pending>, e: Pending, v: nat, f': Forest)
    requires Sorted(f, root, done, stack, {e.node}) && v !in f.found && |f.parent| == |f.found| && root <= |f.found|
    requires f' == Pushed(f, v, e.node)
    ensures Sorted(f', root, done, [Pending(v, e.node)] + stack, {e.node})
  {
    var pushed := Pending(v, e.node);
    var more := [pushed] + stack;
    assert f'.found[|f.found|] == v && f'.parent[|f.found|] == e.node;
    assert v !in done && v != e.node && !OnStack(stack, v);
    forall x | 0 <= x < |more| ensures IsEntry(f', root, more[x]) {
      if x > 0 { EntryStays(f, v, e.node, root, stack[x - 1]); }
    }
    forall y ensures y in f'.found <==> y in done || OnStack(more, y) || y in {e.node} {
      assert y in f'.found <==> y in f.found || y == v;
      OnStackPushed(stack, pushed, y);
    }
  }

  lemma PushKeeps(adj: Adj, f: Forest, root: nat, done: set<nat>, stack: seq<Pending>, e: Pending, i: nat, f': Forest)
    requires WellFormed(adj) && Popped(adj, f, root, done, stack, e, i) && i < |adj[e.node]|
    requires adj[e.node][i] !in f.found && f' == Pushed(f, adj[e.node][i], e.node)
    ensures Popped(adj, f', root, done, [Pending(adj[e.node][i], e.node)] + stack, e, i + 1)
  {
    var u, v, n := e.node, adj[e.node][i], |f.found|;
    assert Edge(adj, u, v);
    PushKeepsForest(adj, f, root, e, v, f');
    PushKeepsSorted(f, root, done, stack, e, v, f');
    EntryStays(f, v, u, root, e);
    forall a: nat, b: nat | a in done && Edge(adj, a, b) ensures TreeLink(f', a, b) {
      TreeLinkStays(f, v, u, a, b);
    }
    forall x | 0 <= x < i + 1 ensures TreeLink(f', u, adj[u][x]) {
      if x < i {
        TreeLinkStays(f, v, u, u, adj[u][x]);
      } else {
        assert LinkAt(f', n, u, v);
      }
    }
    var i' := i + 1;
    forall k | 0 <= k < n + 1 ensures ChildAt(adj, f', done, u, i', k) {
      if k < n { ChildStays(adj, f, done, u, i, k); }
    }
  }

  lemma ChildStays(adj: Adj, f: Forest, done: set<nat>, u: nat, i: nat, k: nat)
    requires WellFormed(adj) && ChildAt(adj, f, done, u, i, k) && u < |adj| && i < |adj[u]|
    ensures ChildAt(adj, f, done, u, i + 1, k)
  {
    if i > 0 { assert adj[u][i - 1] < adj[u][i]; }
  }

  /** A marked neighbour is the parent, or closes a cycle. */
  lemma MarkedNeighbour(adj: Adj, f: Forest, root: nat, done: set<nat>, stack: seq<Pending>, e: Pending, i: nat)
    requires WellFormed(adj) && Popped(adj, f, root, done, stack, e, i) && i < |adj[e.node]|
    requires adj[e.node][i] in f.found
    ensures if adj[e.node][i] == e.parent then Popped(adj, f, root, done, stack, e, i + 1) else HasCycle(adj)
  {
    var u, v := e.node, adj[e.node][i];
    assert Edge(adj, u, v) && Edge(adj, v, u);
    var ku :| root <= ku < |f.found| && f.found[ku] == u && f.parent[ku] == e.parent;
    if v == e.parent {
      assert LinkAt(f, ku, u, v);
      var i' := i + 1;
      forall k | 0 <= k < |f.found| ensures ChildAt(adj, f, done, u, i', k) {
        ChildStays(adj, f, done, u, i, k);
      }
    } else if v != u {
      NotLinked(adj, f, root, done, stack, e, i, ku);
      LinksAreSymmetric(f);
      assert v !in done;
      var x :| 0 <= x < |stack| && stack[x].node == v;
      assert IsEntry(f, root, stack[x]);
      var kv :| root <= kv < |f.found| && f.found[kv] == v && f.parent[kv] == stack[x].parent;
      ExtraEdgeClosesCycle(adj, f, root, ku, kv);
    }
  }

  lemma NotLinked(adj: Adj, f: Forest, root: nat, done: set<nat>, stack: seq<Pending>, e: Pending, i: nat, ku: nat)
    requires WellFormed(adj) && Popped(adj, f, root, done, stack, e, i) && i < |adj[e.node]|
    requires adj[e.node][i] != e.parent && ku < |f.found| && f.found[ku] == e.node && f.parent[ku] == e.parent
    ensures !TreeLink(f, e.node, adj[e.node][i])
  {
    var u, v := e.node, adj[e.node][i];
    forall k | 0 <= k < |f.found| ensures !LinkAt(f, k, u, v) {
      assert ChildAt(adj, f, done, u, i, k);
      if i > 0 { assert adj[u][i - 1] < v; }
    }
  }

  // ---------------------------------------------------------------- the loops

  /** The neighbours of a popped vertex: each is pushed, is its parent, or closes a cycle. */
  method Scan(adj: Adj, seen: array<bool>, e: Pending, stack0: seq<Pending>,
              ghost f0: Forest, ghost root: nat, ghost done: set<nat>)
    returns (cycle: bool, stack: seq<Pending>, ghost f: Forest)
    requires WellFormed(adj) && Popped(adj, f0, root, done, stack0, e, 0)
    requires seen.Length == |adj| && forall v :: 0 <= v < |adj| ==> (seen[v] <==> v in f0.found)
    modifies seen
    ensures cycle ==> HasCycle(adj)
    ensures !cycle ==> Resting(adj, f, root, done + {e.node}, stack)
    ensures !cycle ==> |f.found| - |f0.found| == |stack| - |stack0| && |f.found| >= |f0.found|
    ensures !cycle ==> forall v :: v in f0.found ==> v in f.found
    ensures !cycle ==> forall v :: 0 <= v < |adj| ==> (seen[v] <==> v in f.found)
  {
    stack, f := stack0, f0;
    for i := 0 to |adj[e.node]|
      invariant Popped(adj, f, root, done, stack, e, i)
      invariant |f.found| - |f0.found| == |stack| - |stack0| && |f.found| >= |f0.found|
      invariant forall v :: v in f0.found ==> v in f.found
      invariant forall v :: 0 <= v < |adj| ==> (seen[v] <==> v in f.found)
    {
      var v := adj[e.node][i];
      assert Edge(adj, e.node, v);
      if !seen[v] {
        ghost var f' := Pushed(f, v, e.node);
        PushKeeps(adj, f, root, done, stack, e, i, f');
        seen[v] := true;
        stack := [Pending(v, e.node)] + stack;
        f := f';
      } else {
        MarkedNeighbour(adj, f, root, done, stack, e, i);
        if v != e.parent { return true, stack, f; }
      }
    }
    DoneKeeps(adj, f, root, done, stack, e);
    return false, stack, f;
  }

  lemma RootKeeps(adj: Adj, f: Forest, root: nat, done: set<nat>, s: nat, f': Forest)
    requires Resting(adj, f, root, done, []) && s !in f.found && s < |adj|
    requires f' == Forest(f.found + [s], f.parent + [-1])
    ensures Resting(adj, f', |f.found|, done, [Pending(s, -1)])
  {
    var n, stack := |f.found|, [Pending(s, -1)];
    assert f'.found[n] == s && f'.parent[n] == -1;
    forall k | 0 <= k < n + 1 ensures RootedAt(adj, f', k) && ChildAt(adj, f', done, |adj|, 0, k) {
      if k < n {
        assert RootedAt(adj, f, k) && ChildAt(adj, f, done, |adj|, 0, k);
        if f.parent[k] != -1 {
          var q :| 0 <= q < k && f.parent[k] == f.found[q] && Edge(adj, f.found[q], f.found[k]);
          assert f'.found[q] == f.found[q];
        }
      }
    }
    forall a: nat, b: nat | a in done && Edge(adj, a, b) ensures TreeLink(f', a, b) {
      var k :| 0 <= k < n && LinkAt(f, k, a, b);
      assert LinkAt(f', k, a, b);
    }
    assert forall v :: OnStack(stack, v) <==> v == s by {
      assert stack[0].node == s;
    }
  }

  /** The search of one tree, from a root that is marked and pending. */
  method SearchTree(adj: Adj, seen: array<bool>, s: nat, ghost f0: Forest, ghost root: nat, ghost done0: set<nat>)
    returns (cycle: bool, ghost f: Forest, ghost done: set<nat>)
    requires WellFormed(adj) && Resting(adj, f0, root, done0, [Pending(s, -1)])
    requires seen.Length == |adj| && forall v :: 0 <= v < |adj| ==> (seen[v] <==> v in f0.found)
    modifies seen
    ensures cycle ==> HasCycle(adj)
    ensures !cycle ==> Resting(adj, f, root, done, []) && forall v :: v in f0.found ==> v in f.found
    ensures !cycle ==> forall v :: 0 <= v < |adj| ==> (seen[v] <==> v in f.found)
  {
    f, done := f0, done0;
    var stack := [Pending(s, -1)];
    while stack != []
      invariant Resting(adj, f, root, done, stack)
      invariant forall v :: v in f0.found ==> v in f.found
      invariant forall v :: 0 <= v < |adj| ==> (seen[v] <==> v in f.found)
      decreases |adj| - |f.found| + |stack|
    {
      DistinctFits(f.found, |adj|);
      PopKeeps(adj, f, root, done, stack);
      var e, rest := stack[0], stack[1..];
      ghost var f';
      cycle, stack, f' := Scan(adj, seen, e, rest, f, root, done);
      if cycle { return true, f, done; }
      DistinctFits(f'.found, |adj|);
      done, f := done + {e.node}, f';
    }
    return false, f, done;
  }

  /** True exactly when the graph has a self-loop or a cycle through three or more vertices. */
  method DetectCycle(adj: Adj) returns (cycle: bool)
    requires WellFormed(adj)
    ensures cycle <==> HasCycle(adj)
  {
    var seen := new bool[|adj|](_ => false);
    ghost var f: Forest, root: nat, done: set<nat> := Forest([], []), 0, {};
    for s := 0 to |adj|
      invariant Resting(adj, f, root, done, [])
      invariant forall v :: 0 <= v < |adj| ==> (seen[v] <==> v in f.found)
      invariant forall v :: 0 <= v < s ==> v in f.found
    {
      if !seen[s] {
        ghost var f' := Forest(f.found + [s], f.parent + [-1]);
        RootKeeps(adj, f, root, done, s, f');
        root := |f.found|;
        seen[s] := true;
        assert f'.found[root] == s;
        cycle, f, done := SearchTree(adj, seen, s, f', root, done);
        if cycle { return true; }
      }
    }
    ForestHasNoCycle(adj, f, root);
    return false;
  }
}
