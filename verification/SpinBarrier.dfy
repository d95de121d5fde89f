/**
 The reusable spin barrier on two counters. One call of `Step` is one atomic access by one of the `n`
 participating threads; every interleaving is allowed, in particular in the gap between the last
 arriver's reset of `count_` and its store to `generation_`.
 */
module SpinBarrier {
  import opened FiniteSets
  import Runs

  type Tid = nat

  datatype Pc =
    | Outside
    | Load                 // round = generation_
    | Arrive(round: nat)   // arrived = count_.fetch_add(1) + 1
    | Reset(round: nat)    // count_ = 0, by the last arriver
    | Advance(round: nat)  // generation_ = round + 1, by the last arriver
    | Spin(round: nat)     // while (generation_ == round)

  /** A participant with its history: how often it has called wait, arrived, and returned from wait (passed). */
  datatype Thread = Thread(pc: Pc, calls: nat, arrivals: nat, passes: nat)

  datatype State = State(n: nat, count: nat, generation: nat, thread: map<Tid, Thread>)

  /** The constructor rejects `n == 0`; exactly `n` threads take part. */
  ghost predicate Init(s: State) {
    && s.n > 0 && |s.thread| == s.n && s.count == 0 && s.generation == 0
    && forall t :: t in s.thread ==> s.thread[t] == Thread(Outside, 0, 0, 0)
  }

  function Put(s: State, t: Tid, th: Thread): State {
    s.(thread := s.thread[t := th])
  }

  function Step(s: State, t: Tid): State
    requires t in s.thread
  {
    var th := s.thread[t];
    match th.pc
    case Outside => Put(s, t, th.(pc := Load, calls := th.calls + 1))
    case Load => Put(s, t, th.(pc := Arrive(s.generation)))
    case Arrive(round) =>
      Put(s.(count := s.count + 1), t,
          th.(pc := if s.count + 1 == s.n then Reset(round) else Spin(round), arrivals := th.arrivals + 1))
    case Reset(round) => Put(s.(count := 0), t, th.(pc := Advance(round)))
    case Advance(round) => Put(s.(generation := round + 1), t, th.(pc := Outside, passes := th.passes + 1))
    case Spin(round) =>
      if s.generation == round then s else Put(s, t, th.(pc := Outside, passes := th.passes + 1))
  }

  ghost predicate Next(s: State, s': State) {
    exists t :: t in s.thread && s' == Step(s, t)
  }

  // ---------------------------------------------------------------- invariant

  /** The threads that have arrived in the current round and wait for it to end. */
  ghost function Waiting(s: State): set<Tid> {
    set t | t in s.thread && s.thread[t].pc == Spin(s.generation)
  }

  predicate IsLast(pc: Pc) {
    pc.Reset? || pc.Advance?
  }

  ghost predicate ThreadInv(s: State, th: Thread) {
    && (th.pc.Outside? ==> th.calls == th.arrivals == th.passes == s.generation)
    && (th.pc.Load? || th.pc.Arrive? ==> th.calls == s.generation + 1 && th.arrivals == th.passes == s.generation)
    && (th.pc.Arrive? ==> th.pc.round == s.generation)
    && (IsLast(th.pc) || th.pc.Spin? ==> th.calls == th.arrivals == th.pc.round + 1 && th.passes == th.pc.round)
    && (IsLast(th.pc) ==> th.pc.round == s.generation)
    && (th.pc.Spin? ==> th.pc.round <= s.generation <= th.pc.round + 1)
  }

  /** While the last arriver is at work, everybody else waits; otherwise `count_` counts those who wait. */
  ghost predicate PhaseInv(s: State) {
    && (forall t :: t in s.thread && IsLast(s.thread[t].pc) ==>
          && s.count == (if s.thread[t].pc.Reset? then s.n else 0)
          && forall u :: u in s.thread && u != t ==> s.thread[u].pc == Spin(s.generation))
    && ((forall t :: t in s.thread ==> !IsLast(s.thread[t].pc)) ==> s.count == |Waiting(s)| < s.n)
  }

  ghost predicate Inv(s: State) {
    && s.n > 0 && |s.thread| == s.n
    && (forall t :: t in s.thread ==> ThreadInv(s, s.thread[t]))
    && PhaseInv(s)
  }

  lemma InvInit(s: State)
    requires Init(s)
    ensures Inv(s)
  {
    assert Waiting(s) == {};
  }

  lemma SameParticipants(s: State, t: Tid)
    requires t in s.thread
    ensures |Step(s, t).thread| == |s.thread|
  {
    var s' := Step(s, t);
    assert s'.thread.Keys == s.thread.Keys;
    assert |s'.thread| == |s'.thread.Keys| && |s.thread| == |s.thread.Keys|;
  }

  lemma ThreadsAfter(s: State, t: Tid)
    requires Inv(s) && t in s.thread && !s.thread[t].pc.Advance?
    ensures forall u :: u in s.thread ==> ThreadInv(Step(s, t), Step(s, t).thread[u])
  {
    assert ThreadInv(s, s.thread[t]);
    var s' := Step(s, t);
    forall u | u in s.thread ensures ThreadInv(s', s'.thread[u]) { assert ThreadInv(s, s.thread[u]); }
  }

  /** Steps by which no thread becomes, or stops being, the last arriver. */
  lemma OrdinaryStep(s: State, t: Tid)
    requires Inv(s) && t in s.thread && !IsLast(s.thread[t].pc)
    requires !(s.thread[t].pc.Arrive? && s.count + 1 == s.n)
    ensures PhaseInv(Step(s, t))
  {
    var s' := Step(s, t);
    if forall u :: u in s.thread ==> !IsLast(s.thread[u].pc) {
      if s.thread[t].pc.Arrive? {
        assert Waiting(s') == Waiting(s) + {t};
      } else {
        assert Waiting(s') == Waiting(s);
      }
    }
  }

  /** The last arriver finds everybody else waiting. */
  lemma LastArrival(s: State, t: Tid)
    requires Inv(s) && t in s.thread && s.thread[t].pc.Arrive? && s.count + 1 == s.n
    ensures PhaseInv(Step(s, t))
  {
    var s' := Step(s, t);
    assert forall u :: u in s.thread ==> !IsLast(s.thread[u].pc);
    var others := s.thread.Keys - {t};
    assert |s.thread| == |s.thread.Keys|;
    SubsetSmaller(Waiting(s), others);
    assert Waiting(s) == others;
    assert t in s'.thread && IsLast(s'.thread[t].pc);
    forall u | u in s'.thread && u != t ensures s'.thread[u].pc == Spin(s'.generation) {
      assert u in others;
    }
  }

  lemma LastReset(s: State, t: Tid)
    requires Inv(s) && t in s.thread && s.thread[t].pc.Reset?
    ensures PhaseInv(Step(s, t))
  {
    var s' := Step(s, t);
    assert t in s'.thread && IsLast(s'.thread[t].pc);
  }

  /** The last arriver ends the round: whoever waited in it waits no more. */
  lemma LastAdvance(s: State, t: Tid)
    requires Inv(s) && t in s.thread && s.thread[t].pc.Advance?
    ensures Inv(Step(s, t))
  {
    var s' := Step(s, t);
    SameParticipants(s, t);
    assert Waiting(s') == {};
    forall u | u in s'.thread ensures ThreadInv(s', s'.thread[u]) && !IsLast(s'.thread[u].pc) {
      assert u in s.thread && ThreadInv(s, s.thread[u]);
    }
  }

  lemma InvStep(s: State, t: Tid)
    requires Inv(s) && t in s.thread
    ensures Inv(Step(s, t))
  {
    if s.thread[t].pc.Advance? {
      LastAdvance(s, t);
    } else {
      SameParticipants(s, t);
      ThreadsAfter(s, t);
      if s.thread[t].pc.Reset? {
        LastReset(s, t);
      } else if s.thread[t].pc.Arrive? && s.count + 1 == s.n {
        LastArrival(s, t);
      } else {
        OrdinaryStep(s, t);
      }
    }
  }

  // ---------------------------------------------------------------- what the barrier promises

  ghost predicate Reachable(s: State) {
    Runs.Reachable(Init, Next, s)
  }

  lemma ReachableInv(s: State)
    requires Reachable(s)
    ensures Inv(s)
  {
    forall s | Init(s) ensures Inv(s) { InvInit(s); }
    forall s, s' | Inv(s) && Next(s, s') ensures Inv(s') {
      var t :| t in s.thread && s' == Step(s, t);
      InvStep(s, t);
    }
    Runs.InvariantOfReachable(Init, Next, Inv, s);
  }

  /** No thread returns from its k-th wait before all threads have arrived in their k-th. */
  lemma NobodyPassesEarly(s: State, t: Tid, u: Tid)
    requires Reachable(s) && t in s.thread && u in s.thread
    ensures s.thread[t].passes <= s.thread[u].arrivals <= s.thread[u].calls
  {
    ReachableInv(s);
    assert ThreadInv(s, s.thread[t]) && ThreadInv(s, s.thread[u]);
  }

  /** Completed rounds of any two threads differ by at most one. */
  lemma NobodyLaps(s: State, t: Tid, u: Tid)
    requires Reachable(s) && t in s.thread && u in s.thread
    ensures s.thread[t].passes <= s.thread[u].passes + 1
  {
    ReachableInv(s);
    assert ThreadInv(s, s.thread[t]) && ThreadInv(s, s.thread[u]);
  }

  /**
   `generation_` counts the completed rounds: every thread has arrived in that many, none has returned
   from more, and all have arrived in one more exactly while the last arriver has yet to publish it.
   */
  lemma GenerationCountsRounds(s: State)
    requires Reachable(s)
    ensures forall t :: t in s.thread ==> s.thread[t].passes <= s.generation <= s.thread[t].arrivals
    ensures (forall t :: t in s.thread ==> s.thread[t].arrivals == s.generation + 1)
            <==> (exists t :: t in s.thread && IsLast(s.thread[t].pc))
  {
    ReachableInv(s);
    forall t | t in s.thread
      ensures s.thread[t].passes <= s.generation <= s.thread[t].arrivals
      ensures s.thread[t].arrivals == s.generation + 1 <==> IsLast(s.thread[t].pc) || t in Waiting(s)
    {
      assert ThreadInv(s, s.thread[t]);
    }
    if forall t :: t in s.thread ==> !IsLast(s.thread[t].pc) {
      var t := SomebodyNotWaiting(s);
    }
  }

  /** Between rounds' ends the arrivals counted fall short of `n`. */
  lemma SomebodyNotWaiting(s: State) returns (t: Tid)
    requires Inv(s) && forall u :: u in s.thread ==> !IsLast(s.thread[u].pc)
    ensures t in s.thread && t !in Waiting(s)
  {
    var rest := s.thread.Keys - Waiting(s);
    assert |s.thread| == |s.thread.Keys|;
    assert s.thread.Keys == rest + Waiting(s);
    t :| t in rest;
  }

  /** The barrier cannot hang: when all participants are inside wait, one of them can take a step that changes something. */
  lemma SomebodyMoves(s: State) returns (t: Tid)
    requires Reachable(s) && forall u :: u in s.thread ==> !s.thread[u].pc.Outside?
    ensures t in s.thread && Step(s, t) != s
  {
    ReachableInv(s);
    if u :| u in s.thread && IsLast(s.thread[u].pc) {
      t := u;
    } else {
      t := SomebodyNotWaiting(s);
    }
    assert ThreadInv(s, s.thread[t]);
    assert Step(s, t).thread[t] != s.thread[t];
  }
}
