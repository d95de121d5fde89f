/** The implicit binary heap under any strict weak order, and the heapsort that works in place. */
module BinaryHeap {
  import opened Options

  /** `lt` is asymmetric and its negation is transitive. */
  ghost predicate StrictWeakOrder<T(!new)>(lt: (T, T) -> bool) {
    && (forall a, b :: lt(a, b) ==> !lt(b, a))
    && (forall a, b, c :: !lt(a, b) && !lt(b, c) ==> !lt(a, c))
  }

  function Parent(i: nat): (p: nat)
    requires i > 0
    ensures p < i
  {
    (i - 1) / 2
  }

  /** The parent of `c` does not sort below `c`. */
  ghost predicate LinkAt<T>(lt: (T, T) -> bool, h: seq<T>, c: nat)
    requires 0 < c < |h|
  {
    !lt(h[Parent(c)], h[c])
  }

  /** Heap order in the first `n` elements, below parents from `lo` on. */
  ghost predicate HeapFrom<T>(lt: (T, T) -> bool, h: seq<T>, lo: nat, n: nat)
    requires n <= |h|
  {
    forall c: nat :: 0 < c < n && lo <= Parent(c) ==> LinkAt(lt, h, c)
  }

  ghost predicate IsHeap<T>(lt: (T, T) -> bool, h: seq<T>) {
    HeapFrom(lt, h, 0, |h|)
  }

  /** The grandchild `c` through `i` does not sort above the parent of `i`. */
  ghost predicate SkipAt<T>(lt: (T, T) -> bool, h: seq<T>, lo: nat, i: nat, c: nat)
    requires i < |h| && c < |h|
  {
    i > 0 && lo <= Parent(i) ==> !lt(h[Parent(i)], h[c])
  }

  /** Heap order except perhaps between `i` and its children. */
  ghost predicate Sinking<T>(lt: (T, T) -> bool, h: seq<T>, lo: nat, n: nat, i: nat)
    requires n <= |h|
  {
    && i < n
    && (forall c: nat :: 0 < c < n && lo <= Parent(c) && Parent(c) != i ==> LinkAt(lt, h, c))
    && (forall c: nat :: 0 < c < n && Parent(c) == i ==> SkipAt(lt, h, lo, i, c))
  }

  /** Heap order except perhaps above `j`, and below `j` while it still is at `home`. */
  ghost predicate Rising<T>(lt: (T, T) -> bool, h: seq<T>, j: nat, home: nat) {
    && j < |h| && home < |h|
    && (forall c: nat :: 0 < c < |h| && c != j && (Parent(c) != home || j != home) ==> LinkAt(lt, h, c))
    && (forall c: nat :: 0 < c < |h| && Parent(c) == j ==> SkipAt(lt, h, 0, j, c))
  }

  function Swap<T>(h: seq<T>, i: nat, j: nat): (s: seq<T>)
    requires i < |h| && j < |h|
    ensures |s| == |h| && s[i] == h[j] && s[j] == h[i]
    ensures forall k :: 0 <= k < |h| && k != i && k != j ==> s[k] == h[k]
  {
    h[i := h[j]][j := h[i]]
  }

  // ---------------------------------------------------------------- steps

  /** Sinking below the higher child keeps everything else in order. */
  lemma SinkStep<T(!new)>(lt: (T, T) -> bool, h: seq<T>, lo: nat, n: nat, i: nat, b: nat, h': seq<T>)
    requires StrictWeakOrder(lt) && n <= |h| && Sinking(lt, h, lo, n, i) && lo <= i
    requires 0 < b < n && Parent(b) == i && lt(h[i], h[b]) && h' == Swap(h, i, b)
    requires forall c: nat :: 0 < c < n && Parent(c) == i ==> !lt(h[b], h[c])
    ensures Sinking(lt, h', lo, n, b)
  {
    forall c: nat | 0 < c < n && lo <= Parent(c) && Parent(c) != b ensures LinkAt(lt, h', c) {
      if c == i {
        assert SkipAt(lt, h, lo, i, b);
      } else if Parent(c) != i {
        assert LinkAt(lt, h, c);
      }
    }
    forall c: nat | 0 < c < n && Parent(c) == b ensures SkipAt(lt, h', lo, b, c) {
      assert LinkAt(lt, h, c);
    }
  }

  lemma SunkIsHeap<T>(lt: (T, T) -> bool, h: seq<T>, lo: nat, n: nat, i: nat)
    requires n <= |h| && Sinking(lt, h, lo, n, i)
    requires forall c: nat :: 0 < c < n && Parent(c) == i ==> !lt(h[i], h[c])
    ensures HeapFrom(lt, h, lo, n)
  {
    forall c: nat | 0 < c < n && lo <= Parent(c) ensures LinkAt(lt, h, c) {
      if Parent(c) == i { assert !lt(h[i], h[c]); }
    }
  }

  /** Rising above a lower parent keeps everything else in order, and mends the place left. */
  lemma RiseStep<T(!new)>(lt: (T, T) -> bool, h: seq<T>, j: nat, home: nat, h': seq<T>)
    requires StrictWeakOrder(lt) && Rising(lt, h, j, home) && j <= home
    requires j > 0 && lt(h[Parent(j)], h[j]) && h' == Swap(h, j, Parent(j))
    ensures Rising(lt, h', Parent(j), home)
  {
    var p := Parent(j);
    forall c: nat | 0 < c < |h| && c != p ensures LinkAt(lt, h', c) {
      if c == j {
      } else if Parent(c) == j {
        assert SkipAt(lt, h, 0, j, c);
      } else {
        assert LinkAt(lt, h, c);
      }
    }
    forall c: nat | 0 < c < |h| && Parent(c) == p ensures SkipAt(lt, h', 0, p, c) {
      if p > 0 {
        assert LinkAt(lt, h, p);
        if c != j { assert LinkAt(lt, h, c); }
      }
    }
  }

  /** Where rising stops, the place it started from is ready to sink. */
  lemma RisenSinks<T(!new)>(lt: (T, T) -> bool, h: seq<T>, j: nat, home: nat)
    requires StrictWeakOrder(lt) && Rising(lt, h, j, home) && (j == 0 || !lt(h[Parent(j)], h[j]))
    ensures Sinking(lt, h, 0, |h|, home)
  {
    forall c: nat | 0 < c < |h| && Parent(c) != home ensures LinkAt(lt, h, c) {
    }
    forall c: nat | 0 < c < |h| && Parent(c) == home ensures SkipAt(lt, h, 0, home, c) {
      if j == home {
        assert SkipAt(lt, h, 0, j, c);
      } else if home > 0 {
        assert LinkAt(lt, h, c) && LinkAt(lt, h, home);
      }
    }
  }

  /** In heap order nothing sorts above the top. */
  lemma {:induction false} TopIsHighest<T(!new)>(lt: (T, T) -> bool, h: seq<T>, n: nat, i: nat)
    requires StrictWeakOrder(lt) && n <= |h| && HeapFrom(lt, h, 0, n) && i < n
    ensures !lt(h[0], h[i])
    decreases i
  {
    if i > 0 {
      TopIsHighest(lt, h, n, Parent(i));
      assert LinkAt(lt, h, i);
    }
  }

  /** An element in the place of another is ready to rise, and then to sink. */
  lemma ReplacedRises<T(!new)>(lt: (T, T) -> bool, h: seq<T>, i: nat, x: T)
    requires StrictWeakOrder(lt) && IsHeap(lt, h) && i < |h|
    ensures Rising(lt, h[i := x], i, i)
  {
    var h' := h[i := x];
    forall c: nat | 0 < c < |h| && c != i && Parent(c) != i ensures LinkAt(lt, h', c) {
      assert LinkAt(lt, h, c);
    }
    forall c: nat | 0 < c < |h| && Parent(c) == i ensures SkipAt(lt, h', 0, i, c) {
      if i > 0 { assert LinkAt(lt, h, c) && LinkAt(lt, h, i); }
    }
  }

  lemma HeapPrefix<T>(lt: (T, T) -> bool, h: seq<T>, n: nat)
    requires n <= |h| && HeapFrom(lt, h, 0, n)
    ensures IsHeap(lt, h[..n])
  {
    forall c: nat | 0 < c < n ensures LinkAt(lt, h[..n], c) {
      assert LinkAt(lt, h, c);
    }
  }

  lemma SwapPermutes<T>(h: seq<T>, i: nat, j: nat)
    requires i < |h| && j < |h|
    ensures multiset(Swap(h, i, j)) == multiset(h)
  {
  }

  lemma UpdateExchanges<T>(h: seq<T>, i: nat, x: T)
    requires i < |h|
    ensures multiset(h[i := x]) == multiset(h) - multiset{h[i]} + multiset{x}
  {
  }

  /** Swapping with the last element and dropping it removes just the one. */
  lemma DropSwapped<T>(h: seq<T>, i: nat)
    requires i < |h|
    ensures var n := |h| - 1;
      && Swap(h, i, n)[..n] == (if i < n then h[..n][i := h[n]] else h[..n])
      && multiset(Swap(h, i, n)[..n]) == multiset(h) - multiset{h[i]}
  {
    var n := |h| - 1;
    var s := Swap(h, i, n);
    SwapPermutes(h, i, n);
    assert s == s[..n] + [s[n]];
    assert multiset(s) == multiset(s[..n]) + multiset{s[n]};
  }

  /** The last element in the place of another: one less, and ready to rise. */
  lemma LastInPlace<T(!new)>(lt: (T, T) -> bool, h: seq<T>, i: nat)
    requires StrictWeakOrder(lt) && IsHeap(lt, h) && i < |h|
    ensures var s := Swap(h, i, |h| - 1)[..|h| - 1];
      && (if i < |s| then Rising(lt, s, i, i) else IsHeap(lt, s))
      && multiset(s) == multiset(h) - multiset{h[i]}
  {
    var n := |h| - 1;
    DropSwapped(h, i);
    HeapPrefix(lt, h, n);
    if i < n { ReplacedRises(lt, h[..n], i, h[n]); }
  }

  /** The choice the code makes among `i` and its children. */
  method Highest<T(!new)>(lt: (T, T) -> bool, h: seq<T>, i: nat, n: nat) returns (best: nat)
    requires StrictWeakOrder(lt) && i < n <= |h|
    ensures best < n && (best != i ==> best > 0 && Parent(best) == i && lt(h[i], h[best]))
    ensures forall c: nat :: 0 < c < n && Parent(c) == i ==> !lt(h[best], h[c])
  {
    best := i;
    var l, r := 2 * i + 1, 2 * i + 2;
    if l < n && lt(h[best], h[l]) { best := l; }
    if r < n && lt(h[best], h[r]) { best := r; }
    forall c: nat | 0 < c < n && Parent(c) == i ensures !lt(h[best], h[c]) {
      assert c == l || c == r;
    }
  }

  class Heap<T(!new)> {
    const lt: (T, T) -> bool
    var heap: seq<T>

    ghost predicate Valid()
      reads this
    {
      StrictWeakOrder(lt) && IsHeap(lt, heap)
    }

    /** Builds the heap bottom-up, sinking every inner node. */
    constructor (lt: (T, T) -> bool, values: seq<T>)
      requires StrictWeakOrder(lt)
      ensures Valid() && this.lt == lt && multiset(heap) == multiset(values)
    {
      this.lt := lt;
      heap := values;
      new;
      var i: nat := |heap| / 2;
      while i > 0
        invariant i <= |heap| && HeapFrom(lt, heap, i, |heap|)
        invariant multiset(heap) == multiset(values)
      {
        i := i - 1;
        SiftDown(i, i);
      }
    }

    /** The element at `i` sinks while a child sorts above it. */
    method SiftDown(i0: nat, ghost lo: nat)
      requires StrictWeakOrder(lt) && Sinking(lt, heap, lo, |heap|, i0) && lo <= i0
      modifies this
      ensures HeapFrom(lt, heap, lo, |heap|) && multiset(heap) == multiset(old(heap)) && |heap| == old(|heap|)
    {
      var i := i0;
      while true
        invariant |heap| == old(|heap|) && Sinking(lt, heap, lo, |heap|, i) && lo <= i
        invariant multiset(heap) == multiset(old(heap))
        decreases |heap| - i
      {
        var best := Highest(lt, heap, i, |heap|);
        if best == i {
          SunkIsHeap(lt, heap, lo, |heap|, i);
          return;
        }
        SinkStep(lt, heap, lo, |heap|, i, best, Swap(heap, i, best));
        SwapPermutes(heap, i, best);
        heap, i := Swap(heap, i, best), best;
      }
    }

    /** The element at `i` climbs while its parent sorts below it. */
    method SiftUp(i0: nat)
      requires StrictWeakOrder(lt) && Rising(lt, heap, i0, i0)
      modifies this
      ensures Sinking(lt, heap, 0, |heap|, i0) && multiset(heap) == multiset(old(heap)) && |heap| == old(|heap|)
    {
      var i: nat := i0;
      while i > 0
        invariant |heap| == old(|heap|) && i <= i0 && Rising(lt, heap, i, i0)
        invariant multiset(heap) == multiset(old(heap))
      {
        var p := Parent(i);
        if !lt(heap[p], heap[i]) { break; }
        RiseStep(lt, heap, i, i0, Swap(heap, i, p));
        SwapPermutes(heap, i, p);
        heap, i := Swap(heap, i, p), p;
      }
      RisenSinks(lt, heap, i, i0);
    }

    method Push(value: T)
      requires Valid()
      modifies this
      ensures Valid() && multiset(heap) == multiset(old(heap)) + multiset{value}
    {
      PushedRises(lt, heap, value);
      heap := heap + [value];
      SiftUp(|heap| - 1);
      SunkIsHeap(lt, heap, 0, |heap|, |heap| - 1);
    }

    /** `None` where the code throws; otherwise an element that nothing sorts above. */
    method Top() returns (top: Option<T>)
      requires Valid()
      ensures top.None? <==> heap == []
      ensures top.Some? ==> heap != [] && top.value == heap[0] && forall x :: x in heap ==> !lt(top.value, x)
    {
      if heap == [] { return None; }
      forall i | 0 <= i < |heap| ensures !lt(heap[0], heap[i]) {
        TopIsHighest(lt, heap, |heap|, i);
      }
      return Some(heap[0]);
    }

    /** False where the code throws. */
    method Pop() returns (ok: bool)
      requires Valid()
      modifies this
      ensures Valid() && (ok <==> old(heap) != [])
      ensures multiset(heap) == if ok then multiset(old(heap)) - multiset{old(heap)[0]} else multiset(old(heap))
    {
      if heap == [] { return false; }
      var n := |heap| - 1;
      LastInPlace(lt, heap, 0);
      heap := Swap(heap, 0, n)[..n];
      if heap != [] {
        RisenSinks(lt, heap, 0, 0);
        SiftDown(0, 0);
      }
      return true;
    }

    /** Removes the element at any index; false where the code throws. */
    method EraseAt(i: nat) returns (ok: bool)
      requires Valid()
      modifies this
      ensures Valid() && (ok <==> i < |old(heap)|)
      ensures multiset(heap) == if ok then multiset(old(heap)) - multiset{old(heap)[i]} else multiset(old(heap))
    {
      if i >= |heap| { return false; }
      var n := |heap| - 1;
      LastInPlace(lt, heap, i);
      heap := Swap(heap, i, n)[..n];
      if i < n {
        SiftUp(i);
        SiftDown(i, 0);
      }
      return true;
    }

    method Replace(value: T)
      requires Valid()
      modifies this
      ensures Valid()
      ensures multiset(heap) ==
        (if old(heap) == [] then multiset{} else multiset(old(heap)) - multiset{old(heap)[0]}) + multiset{value}
    {
      if heap == [] {
        Push(value);
        return;
      }
      ReplacedRises(lt, heap, 0, value);
      UpdateExchanges(heap, 0, value);
      heap := heap[0 := value];
      RisenSinks(lt, heap, 0, 0);
      SiftDown(0, 0);
    }
  }

  lemma PushedRises<T(!new)>(lt: (T, T) -> bool, h: seq<T>, value: T)
    requires IsHeap(lt, h)
    ensures Rising(lt, h + [value], |h|, |h|)
  {
    forall c: nat | 0 < c < |h| ensures LinkAt(lt, h + [value], c) {
      assert LinkAt(lt, h, c);
    }
  }

  // ---------------------------------------------------------------- heapsort

  ghost predicate SortedFrom<T>(lt: (T, T) -> bool, s: seq<T>, from: nat) {
    forall i, j :: 0 <= i < j < |s| && from <= j ==> !lt(s[j], s[i])
  }

  /** The local sift of the sort, in the first `stop` elements. */
  method SiftDownPrefix<T(!new)>(lt: (T, T) -> bool, values: array<T>, i0: nat, stop: nat, ghost lo: nat)
    requires StrictWeakOrder(lt) && stop <= values.Length && Sinking(lt, values[..], lo, stop, i0) && lo <= i0
    modifies values
    ensures HeapFrom(lt, values[..], lo, stop)
    ensures multiset(values[..stop]) == multiset(old(values[..stop])) && values[stop..] == old(values[stop..])
  {
    var i := i0;
    while true
      invariant Sinking(lt, values[..], lo, stop, i) && lo <= i
      invariant multiset(values[..stop]) == multiset(old(values[..stop])) && values[stop..] == old(values[stop..])
      decreases stop - i
    {
      var best := Highest(lt, values[..], i, stop);
      if best == i {
        SunkIsHeap(lt, values[..], lo, stop, i);
        return;
      }
      ghost var h := values[..];
      SinkStep(lt, h, lo, stop, i, best, Swap(h, i, best));
      SwapPermutes(h[..stop], i, best);
      values[i], values[best] := values[best], values[i];
      assert values[..] == Swap(h, i, best);
      assert values[..stop] == Swap(h[..stop], i, best);
      i := best;
    }
  }

  /** Every element of a permuted prefix was in it before. */
  lemma PermutedStaysBelow<T>(lt: (T, T) -> bool, before: seq<T>, after: seq<T>, n: nat)
    requires n <= |before| == |after| && before[n..] == after[n..]
    requires multiset(before[..n]) == multiset(after[..n]) && SortedFrom(lt, before, n)
    ensures SortedFrom(lt, after, n)
  {
    forall i, j | 0 <= i < j < |after| && n <= j ensures !lt(after[j], after[i]) {
      assert after[j] == after[n..][j - n] == before[n..][j - n] == before[j];
      if i < n {
        assert after[..n][i] in multiset(before[..n]);
        var k :| 0 <= k < n && before[..n][k] == after[i];
        assert !lt(before[j], before[k]);
      } else {
        assert after[i] == after[n..][i - n] == before[n..][i - n] == before[i];
      }
    }
  }

  lemma MultisetOfParts<T>(s: seq<T>, n: nat)
    requires n <= |s|
    ensures multiset(s) == multiset(s[..n]) + multiset(s[n..])
  {
    assert s == s[..n] + s[n..];
  }

  method SortStep<T(!new)>(lt: (T, T) -> bool, values: array<T>, end: nat)
    requires StrictWeakOrder(lt) && 0 < end < values.Length
    requires HeapFrom(lt, values[..], 0, end + 1) && SortedFrom(lt, values[..], end + 1)
    modifies values
    ensures HeapFrom(lt, values[..], 0, end) && SortedFrom(lt, values[..], end)
    ensures multiset(values[..]) == multiset(old(values[..]))
  {
    ghost var h := values[..];
    values[0], values[end] := values[end], values[0];
    ghost var s := values[..];
    assert s == Swap(h, 0, end);
    SwapPermutes(h, 0, end);
    SwappedTopSinks(lt, h, end, s);
    SiftDownPrefix(lt, values, 0, end, 0);
    PermutedStaysBelow(lt, s, values[..], end);
    MultisetOfParts(s, end);
    MultisetOfParts(values[..], end);
  }

  /** The top goes behind the prefix, where it belongs, and what comes to the top is ready to sink. */
  lemma SwappedTopSinks<T(!new)>(lt: (T, T) -> bool, h: seq<T>, end: nat, s: seq<T>)
    requires StrictWeakOrder(lt) && 0 < end < |h| && HeapFrom(lt, h, 0, end + 1) && SortedFrom(lt, h, end + 1)
    requires s == Swap(h, 0, end)
    ensures Sinking(lt, s, 0, end, 0) && SortedFrom(lt, s, end)
  {
    forall c: nat | 0 < c < end && Parent(c) != 0 ensures LinkAt(lt, s, c) {
      assert LinkAt(lt, h, c);
    }
    forall i, j | 0 <= i < j < |s| && end <= j ensures !lt(s[j], s[i]) {
      if j == end {
        TopIsHighest(lt, h, end + 1, if i == 0 then end else i);
      } else {
        assert !lt(h[j], if i == 0 then h[end] else if i == end then h[0] else h[i]);
      }
    }
  }

  /** In place: a sorted permutation. */
  method Heapsort<T(!new)>(lt: (T, T) -> bool, values: array<T>)
    requires StrictWeakOrder(lt)
    modifies values
    ensures SortedFrom(lt, values[..], 0)
    ensures multiset(values[..]) == multiset(old(values[..]))
  {
    var n := values.Length;
    if n < 2 { return; }
    var i: nat := n / 2;
    while i > 0
      invariant i <= n / 2 && HeapFrom(lt, values[..], i, n)
      invariant multiset(values[..]) == multiset(old(values[..]))
    {
      i := i - 1;
      assert values[..n] == values[..];
      SiftDownPrefix(lt, values, i, n, i);
      assert values[..n] == values[..];
    }
    var end := n - 1;
    while end > 0
      invariant end < n && HeapFrom(lt, values[..], 0, end + 1) && SortedFrom(lt, values[..], end + 1)
      invariant multiset(values[..]) == multiset(old(values[..]))
    {
      SortStep(lt, values, end);
      end := end - 1;
    }
  }
}
