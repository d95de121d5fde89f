/** Undirected graphs as vectors of ordered neighbour sets, and walks in them. */
module Adjacency {
  import opened FiniteSets

  /** `adj[u]` is the neighbour set of `u` in iteration order. */
  type Adj = seq<seq<nat>>

  predicate Edge(adj: Adj, u: nat, v: nat) {
    u < |adj| && v in adj[u]
  }

  predicate Ascending(s: seq<nat>) {
    forall i, j :: 0 <= i < j < |s| ==> s[i] < s[j]
  }

  /** Neighbours are vertices, each is listed once and in order, and edges go both ways. */
  ghost predicate WellFormed(adj: Adj) {
    && (forall u :: 0 <= u < |adj| ==> Ascending(adj[u]))
    && (forall u: nat, v: nat :: Edge(adj, u, v) ==> v < |adj| && Edge(adj, v, u))
  }

  ghost predicate Distinct(s: seq<nat>) {
    forall i, j :: 0 <= i < j < |s| ==> s[i] != s[j]
  }

  /** The vertices of a walk are linked one after the other by `link`. */
  ghost predicate Linked(link: (nat, nat) -> bool, w: seq<nat>) {
    forall i :: 0 <= i < |w| - 1 ==> link(w[i], w[i + 1])
  }

  ghost function EdgeOf(adj: Adj): (nat, nat) -> bool {
    (u: nat, v: nat) => Edge(adj, u, v)
  }

  ghost predicate WalkFrom(link: (nat, nat) -> bool, s: nat, v: nat, w: seq<nat>) {
    w != [] && w[0] == s && w[|w| - 1] == v && Linked(link, w)
  }

  /** There is a walk of `k` edges from `s` to `v`. */
  ghost predicate Walk(adj: Adj, s: nat, v: nat, k: nat) {
    exists w: seq<nat> :: |w| == k + 1 && WalkFrom(EdgeOf(adj), s, v, w)
  }

  ghost predicate Reaches(adj: Adj, s: nat, v: nat) {
    exists k: nat :: Walk(adj, s, v, k)
  }

  /** `k` is the length of a shortest walk from `s` to `v`. */
  ghost predicate Shortest(adj: Adj, s: nat, v: nat, k: nat) {
    Walk(adj, s, v, k) && forall j: nat :: Walk(adj, s, v, j) ==> k <= j
  }

  lemma WalkStart(adj: Adj, s: nat)
    ensures Walk(adj, s, s, 0)
    ensures forall v :: Walk(adj, s, v, 0) ==> v == s
  {
    assert WalkFrom(EdgeOf(adj), s, s, [s]);
  }

  lemma WalkExtend(adj: Adj, s: nat, u: nat, v: nat, k: nat)
    requires Walk(adj, s, u, k) && Edge(adj, u, v)
    ensures Walk(adj, s, v, k + 1)
  {
    var w :| |w| == k + 1 && WalkFrom(EdgeOf(adj), s, u, w);
    var w' := w + [v];
    assert WalkFrom(EdgeOf(adj), s, v, w');
  }

  lemma WalkLast(adj: Adj, s: nat, v: nat, k: nat) returns (u: nat)
    requires Walk(adj, s, v, k + 1)
    ensures Walk(adj, s, u, k) && Edge(adj, u, v)
  {
    var w :| |w| == k + 2 && WalkFrom(EdgeOf(adj), s, v, w);
    u := w[k];
    var w' := w[..k + 1];
    assert EdgeOf(adj)(w[k], w[k + 1]);
    assert WalkFrom(EdgeOf(adj), s, u, w');
  }

  lemma {:induction false} WalksStayInside(adj: Adj, s: nat, v: nat, k: nat, inside: set<nat>)
    requires Walk(adj, s, v, k) && s in inside
    requires forall x, y :: x in inside && Edge(adj, x, y) ==> y in inside
    ensures v in inside
    decreases k
  {
    if k == 0 {
      WalkStart(adj, s);
    } else {
      var u := WalkLast(adj, s, v, k - 1);
      WalksStayInside(adj, s, u, k - 1, inside);
    }
  }

  // ---------------------------------------------------------------- walks of any symmetric link

  lemma WalkJoin(link: (nat, nat) -> bool, a: nat, b: nat, c: nat, w: seq<nat>, z: seq<nat>)
    requires WalkFrom(link, a, b, w) && WalkFrom(link, b, c, z)
    ensures WalkFrom(link, a, c, w + z[1..])
  {
    var x := w + z[1..];
    forall i | 0 <= i < |x| - 1 ensures link(x[i], x[i + 1]) {
      if i < |w| - 1 {
      } else {
        var j := i - (|w| - 1);
        assert x[i] == z[j] && x[i + 1] == z[j + 1];
      }
    }
  }

  ghost function Reversed(w: seq<nat>): (r: seq<nat>)
    ensures |r| == |w|
  {
    seq(|w|, i requires 0 <= i < |w| => w[|w| - 1 - i])
  }

  lemma WalkBack(link: (nat, nat) -> bool, a: nat, b: nat, w: seq<nat>)
    requires WalkFrom(link, a, b, w) && forall x, y :: link(x, y) ==> link(y, x)
    ensures WalkFrom(link, b, a, Reversed(w))
  {
    var r := Reversed(w);
    forall i | 0 <= i < |r| - 1 ensures link(r[i], r[i + 1]) {
      var j := |w| - 2 - i;
      assert link(w[j], w[j + 1]);
    }
  }

  /** Cutting the detours out of a walk leaves a path that meets no vertex twice. */
  lemma {:induction false} SimplePath(link: (nat, nat) -> bool, a: nat, b: nat, w: seq<nat>) returns (p: seq<nat>)
    requires WalkFrom(link, a, b, w)
    ensures WalkFrom(link, a, b, p) && Distinct(p)
    decreases |w|
  {
    if Distinct(w) {
      p := w;
    } else {
      var i, j :| 0 <= i < j < |w| && w[i] == w[j];
      CutDetour(link, a, b, w, i, j);
      p := SimplePath(link, a, b, w[..i] + w[j..]);
    }
  }

  lemma CutDetour(link: (nat, nat) -> bool, a: nat, b: nat, w: seq<nat>, i: nat, j: nat)
    requires WalkFrom(link, a, b, w) && i < j < |w| && w[i] == w[j]
    ensures WalkFrom(link, a, b, w[..i] + w[j..])
  {
    var x := w[..i] + w[j..];
    forall k | 0 <= k < |x| - 1 ensures link(x[k], x[k + 1]) {
      if k < i {
        assert x[k] == w[k] && x[k + 1] == w[k + 1];
      } else {
        assert x[k] == w[k - i + j] && x[k + 1] == w[k - i + j + 1];
      }
    }
  }

  // ---------------------------------------------------------------- counting vertices

  lemma {:induction false} DistinctFits(w: seq<nat>, n: nat)
    requires Distinct(w) && forall k :: 0 <= k < |w| ==> w[k] < n
    ensures |w| <= n
  {
    var members := set k | 0 <= k < |w| :: w[k];
    MembersOfDistinct(w);
    assert members <= Below(n);
    SubsetSmaller(members, Below(n));
  }

  ghost function Below(n: nat): (all: set<nat>)
    ensures |all| == n && forall v: nat :: v in all <==> v < n
  {
    if n == 0 then {} else Below(n - 1) + {n - 1}
  }

  lemma {:induction false} MembersOfDistinct(w: seq<nat>)
    requires Distinct(w)
    ensures |set k | 0 <= k < |w| :: w[k]| == |w|
    decreases |w|
  {
    if w != [] {
      var n := |w| - 1;
      MembersOfDistinct(w[..n]);
      var inner := set k | 0 <= k < n :: w[..n][k];
      assert (set k | 0 <= k < |w| :: w[k]) == inner + {w[n]};
    }
  }

  // ---------------------------------------------------------------- cycles

  /** A cycle through at least three different vertices. */
  ghost predicate SimpleCycle(adj: Adj, c: seq<nat>) {
    |c| >= 3 && Distinct(c) && Linked(EdgeOf(adj), c) && Edge(adj, c[|c| - 1], c[0])
  }

  ghost predicate HasCycle(adj: Adj) {
    (exists u :: 0 <= u < |adj| && Edge(adj, u, u)) || exists c :: SimpleCycle(adj, c)
  }
}
