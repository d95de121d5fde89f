/**
 What the barrier does for its callers in the end: once every participant has called wait k times, all
 of them return from their k-th call.
 */
module BarrierProgress {
  import opened FiniteSets
  import opened SpinBarrier

  /** How many accesses of its own a thread inside wait needs at most. */
  function WaitRank(pc: Pc): nat {
    match pc
    case Outside => 0
    case Load => 4
    case Arrive(_) => 3
    case Reset(_) => 2
    case Advance(_) => 1
    case Spin(_) => 1
  }

  ghost function WaitRanks(thread: map<Tid, Thread>): map<Tid, nat> {
    map t | t in thread :: WaitRank(thread[t].pc)
  }

  /** The ranks of all threads, taken together. */
  ghost function Remaining(thread: map<Tid, Thread>, top: nat): nat {
    Sum(WaitRanks(thread), top)
  }

  lemma RemainingFalls(thread: map<Tid, Thread>, t: Tid, th: Thread, top: nat)
    requires t in thread && WaitRank(th.pc) < WaitRank(thread[t].pc) && top >= 4
    ensures Remaining(thread[t := th], top) < Remaining(thread, top)
  {
    assert WaitRanks(thread[t := th]) == WaitRanks(thread)[t := WaitRank(th.pc)];
    SumAfter(WaitRanks(thread), t, WaitRank(th.pc), top);
  }

  lemma RemainingBound(thread: map<Tid, Thread>, top: nat)
    ensures Remaining(thread, top) <= top * |thread|
  {
    SumBound(WaitRanks(thread), top);
    assert WaitRanks(thread).Keys == thread.Keys;
    assert |WaitRanks(thread).Keys| == |WaitRanks(thread)| && |thread.Keys| == |thread|;
  }

  /** A change by a thread inside wait: nobody calls again. */
  ghost predicate Progress(s: State, s': State) {
    exists t :: t in s.thread && s.thread[t].pc != Outside && s' == Step(s, t) && s' != s
  }

  lemma WaitActs(s: State, t: Tid)
    requires t in s.thread && s.thread[t].pc != Outside
    ensures var s' := Step(s, t);
      && t in s'.thread && s'.thread == s.thread[t := s'.thread[t]] && s'.thread[t].calls == s.thread[t].calls
      && (s' != s ==> WaitRank(s'.thread[t].pc) < WaitRank(s.thread[t].pc))
  {
  }

  ghost predicate SameCalls(s: State, s': State) {
    s'.thread.Keys == s.thread.Keys && forall t :: t in s.thread ==> s'.thread[t].calls == s.thread[t].calls
  }

  lemma StepFalls(s: State, t: Tid, s': State, top: nat)
    requires t in s.thread && s.thread[t].pc != Outside && s' == Step(s, t) && s' != s && top >= 4
    ensures SameCalls(s, s') && Remaining(s'.thread, top) < Remaining(s.thread, top)
  {
    WaitActs(s, t);
    RemainingFalls(s.thread, t, s'.thread[t], top);
  }

  lemma ProgressFalls(s: State, s': State, top: nat)
    requires Inv(s) && Progress(s, s') && top >= 4
    ensures Inv(s') && SameCalls(s, s') && Remaining(s'.thread, top) < Remaining(s.thread, top)
  {
    var t :| t in s.thread && s.thread[t].pc != Outside && s' == Step(s, t) && s' != s;
    InvStep(s, t);
    StepFalls(s, t, s', top);
  }

  /** Successive changes of this kind. */
  ghost predicate Proceeds(run: seq<State>) {
    |run| > 0 && forall i :: 0 <= i < |run| - 1 ==> Progress(run[i], run[i + 1])
  }

  lemma {:induction false} ProceedsBound(run: seq<State>, i: nat, top: nat)
    requires Proceeds(run) && Inv(run[0]) && i < |run| && top >= 4
    ensures Inv(run[i]) && i + Remaining(run[i].thread, top) <= Remaining(run[0].thread, top)
    ensures SameCalls(run[0], run[i])
    decreases i
  {
    if i > 0 {
      ProceedsBound(run, i - 1, top);
      assert Progress(run[i - 1], run[i - 1 + 1]);
      ProgressFalls(run[i - 1], run[i], top);
    }
  }

  /** A thread inside wait that is not waiting for the others can move. */
  lemma MovesUnlessWaiting(s: State, t: Tid)
    requires Inv(s) && t in s.thread && s.thread[t].pc != Outside
    ensures Step(s, t) != s || t in Waiting(s)
  {
    assert ThreadInv(s, s.thread[t]);
    assert Step(s, t) == s ==> Step(s, t).thread[t] == s.thread[t];
  }

  /** At a standstill some thread is outside, and has called exactly as often as there are completed rounds. */
  lemma SomebodyOutside(s: State) returns (t: Tid)
    requires Inv(s) && forall s' :: !Progress(s, s')
    ensures t in s.thread && s.thread[t].pc == Outside && s.thread[t].calls == s.generation
    ensures forall u :: u in s.thread ==> s.thread[u].passes == s.generation
  {
    forall u | u in s.thread
      ensures s.thread[u].pc == Outside || u in Waiting(s)
      ensures s.thread[u].passes == s.generation && !IsLast(s.thread[u].pc)
    {
      assert ThreadInv(s, s.thread[u]);
      if s.thread[u].pc != Outside {
        MovesUnlessWaiting(s, u);
        assert !Progress(s, Step(s, u));
      }
    }
    t := SomebodyNotWaiting(s);
    assert ThreadInv(s, s.thread[t]);
  }

  /**
   The barrier opens: threads inside wait can change something at most four times each, and when they
   cannot any more, every thread has returned from its k-th wait, for every k that all have called.
   */
  lemma BarrierOpens(run: seq<State>, k: nat)
    requires Proceeds(run) && Reachable(run[0])
    requires forall t :: t in run[0].thread ==> run[0].thread[t].calls >= k
    ensures |run| - 1 <= 4 * run[0].n
    ensures var last := run[|run| - 1];
      last.thread.Keys == run[0].thread.Keys
      && ((forall s' :: !Progress(last, s')) ==> forall t :: t in last.thread ==> last.thread[t].passes >= k)
  {
    ReachableInv(run[0]);
    ProceedsBound(run, |run| - 1, 4);
    RemainingBound(run[0].thread, 4);
    var last := run[|run| - 1];
    if forall s' :: !Progress(last, s') {
      var t := SomebodyOutside(last);
      assert last.thread[t].calls == run[0].thread[t].calls;
    }
  }

  /** A thread outside that calls wait is inside, and nobody else is affected. */
  lemma CallsEnter(s: State, t: Tid)
    requires t in s.thread && s.thread[t].pc == Outside
    ensures var s' := Step(s, t);
      && t in s'.thread && s'.thread[t].pc != Outside && s'.thread[t].calls == s.thread[t].calls + 1
      && s'.count == s.count && s'.generation == s.generation && s'.thread == s.thread[t := s'.thread[t]]
  {
  }
}
