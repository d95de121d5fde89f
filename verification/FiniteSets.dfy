/** Sizes of finite sets, and sums over finite maps. */
module FiniteSets {
  lemma SubsetSmaller<T>(a: set<T>, b: set<T>)
    requires a <= b
    ensures |a| <= |b|
    ensures |a| == |b| ==> a == b
  {
    assert b == a + (b - a);
  }

  ghost function AtLeast(rank: map<nat, nat>, k: nat): set<nat> {
    set t | t in rank && rank[t] >= k
  }

  /** The sum of the numbers in the map, each counted up to `top`: how many reach 1, plus how many reach 2, and so on. */
  ghost function Sum(rank: map<nat, nat>, top: nat): nat {
    if top == 0 then 0 else |AtLeast(rank, top)| + Sum(rank, top - 1)
  }

  function Min(a: nat, b: nat): nat {
    if a <= b then a else b
  }

  lemma {:induction false} SumAfter(rank: map<nat, nat>, t: nat, r: nat, top: nat)
    requires t in rank && r <= rank[t]
    ensures Sum(rank[t := r], top) + Min(rank[t], top) == Sum(rank, top) + Min(r, top)
  {
    if top > 0 {
      SumAfter(rank, t, r, top - 1);
      var before, after := AtLeast(rank, top), AtLeast(rank[t := r], top);
      if r < top <= rank[t] {
        assert after == before - {t};
      } else {
        assert after == before;
      }
    }
  }

  lemma {:induction false} SumBound(rank: map<nat, nat>, top: nat)
    ensures Sum(rank, top) <= top * |rank|
  {
    if top > 0 {
      SumBound(rank, top - 1);
      SubsetSmaller(AtLeast(rank, top), rank.Keys);
      assert |rank.Keys| == |rank|;
      assert top * |rank| == (top - 1) * |rank| + |rank|;
    }
  }

  /** A sum in which nothing counts. */
  lemma {:induction false} SumZero(rank: map<nat, nat>, top: nat)
    requires forall t :: t in rank ==> rank[t] == 0
    ensures Sum(rank, top) == 0
  {
    if top > 0 {
      SumZero(rank, top - 1);
      assert AtLeast(rank, top) == {};
    }
  }
}
