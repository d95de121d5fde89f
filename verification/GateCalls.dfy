/**
 The calls of the risk gate as their callers see them. The record of calls is kept beside the state
 machine: the order a thread reserves or the reservation it gives back, the word it has read last,
 and how often its accesses have changed anything.
 */
module GateCalls {
  import opened RiskGate
  import Runs

  /**
   Of the thread's latest call: `order` or `giving` is the argument, `seen` the word that its latest
   access met, `changes` counts its accesses that changed the word or the reservations. `reserved`
   lists the orders of the successful reservations.
   */
  datatype Logged = Logged(
    s: State, order: map<Tid, Order>, giving: map<Tid, nat>, seen: map<Tid, Word>, changes: map<Tid, nat>,
    reserved: seq<Order>)

  ghost predicate LogInit(x: Logged) {
    Init(x.s) && x.reserved == []
  }

  /** What an order is worth: bought counts up, sold counts down, and both cost. */
  ghost predicate WorthOf(o: Order, d: Delta) {
    && (o.side == Buy ==> d.position == o.qty)
    && (o.side == Sell ==> d.position == -o.qty)
    && d.notional == o.price * o.qty
  }

  ghost function Log(x: Logged, t: Tid, e: Event): Logged
    requires t in x.s.pc
  {
    var s' := Step(x.s, t, e);
    var changed := s'.word != x.s.word || s'.grants != x.s.grants;
    if x.s.pc[t] == Idle then
      if e.Reserve? then x.(s := s', order := x.order[t := e.o], changes := x.changes[t := 0])
      else if e.Release? then x.(s := s', giving := x.giving[t := e.grant], changes := x.changes[t := 0])
      else x.(s := s')
    else
      x.(s := s', seen := x.seen[t := x.s.word],
         changes := x.changes[t := (if t in x.changes then x.changes[t] else 0) + (if changed then 1 else 0)],
         reserved := if |s'.grants| > |x.s.grants| && t in x.order then x.reserved + [x.order[t]] else x.reserved)
  }

  ghost predicate LogNext(x: Logged, x': Logged) {
    exists t, e: Event :: t in x.s.pc && x' == Log(x, t, e)
  }

  /** A call under way has changed nothing yet, and stands by its argument and by the word it has read last. */
  ghost predicate CallInv(x: Logged, t: Tid)
    requires t in x.s.pc
  {
    var pc := x.s.pc[t];
    && (pc != Idle ==> t in x.changes && x.changes[t] == 0)
    && (IsReserve(pc) ==> t in x.order && WorthOf(x.order[t], pc.d))
    && (IsRelease(pc) ==> t in x.giving && pc.grant == x.giving[t])
    && (pc.ReserveTry? || pc.ReleaseTry? ==> t in x.seen && pc.cur == x.seen[t])
  }

  ghost predicate ReservedInv(x: Logged) {
    && |x.reserved| == |x.s.grants|
    && forall i :: 0 <= i < |x.reserved| ==> WorthOf(x.reserved[i], x.s.grants[i].delta)
  }

  ghost predicate LogInv(x: Logged) {
    (forall t :: t in x.s.pc ==> CallInv(x, t)) && ReservedInv(x) && ReleaseInv(x.s)
  }

  lemma OthersStay(s: State, t: Tid, e: Event)
    requires t in s.pc
    ensures Step(s, t, e).pc == s.pc[t := Step(s, t, e).pc[t]]
  {
    assert s.pc[t := s.pc[t]] == s.pc;
  }

  /** As long as a call goes on, its accesses change nothing. */
  lemma GoesOnUnchanged(s: State, t: Tid, e: Event)
    requires t in s.pc && s.pc[t] != Idle
    ensures var s' := Step(s, t, e);
      s'.pc[t] != Idle ==>
        && s'.word == s.word && s'.grants == s.grants && IsReserve(s'.pc[t]) == IsReserve(s.pc[t])
        && (IsReserve(s.pc[t]) ==> s'.pc[t] == ReserveTry(s.pc[t].d, s.word))
        && (IsRelease(s.pc[t]) ==> s'.pc[t] == ReleaseTry(s.pc[t].grant, s.word))
  {
  }

  lemma GrantsAfter(s: State, t: Tid, e: Event)
    requires t in s.pc
    ensures var s' := Step(s, t, e);
      && (|s'.grants| > |s.grants| ==> IsReserve(s.pc[t]) && s'.grants == s.grants + [Grant(s.pc[t].d, Outstanding)])
      && (|s'.grants| <= |s.grants| ==>
            |s'.grants| == |s.grants| && forall i :: 0 <= i < |s.grants| ==> s'.grants[i].delta == s.grants[i].delta)
  {
  }

  lemma OwnCallStep(x: Logged, t: Tid, e: Event)
    requires LogInv(x) && t in x.s.pc
    ensures var x' := Log(x, t, e); t in x'.s.pc && CallInv(x', t)
  {
    OthersStay(x.s, t, e);
    assert CallInv(x, t);
    if x.s.pc[t] != Idle { GoesOnUnchanged(x.s, t, e); }
  }

  lemma LogStep(x: Logged, t: Tid, e: Event)
    requires LogInv(x) && t in x.s.pc
    ensures LogInv(Log(x, t, e))
  {
    var x' := Log(x, t, e);
    OthersStay(x.s, t, e);
    OwnCallStep(x, t, e);
    OneReleaser(x.s, t, e);
    ReleaserStays(x.s, t, e);
    GrantsAfter(x.s, t, e);
    forall u | u in x'.s.pc ensures CallInv(x', u) {
      if u != t { assert CallInv(x, u) && x'.s.pc[u] == x.s.pc[u]; }
    }
    assert CallInv(x, t);
  }

  lemma ReachableLog(x: Logged)
    requires Runs.Reachable(LogInit, LogNext, x)
    ensures LogInv(x)
  {
    forall x, x' | LogInv(x) && LogNext(x, x') ensures LogInv(x') {
      var t, e: Event :| t in x.s.pc && x' == Log(x, t, e);
      LogStep(x, t, e);
    }
    Runs.InvariantOfReachable(LogInit, LogNext, LogInv, x);
  }

  /** The position and the notional after adding an order to what a word records. */
  ghost predicate AddsUp(o: Order, word: Word, position: int, notional: int) {
    && (o.side == Buy ==> position == Position(word) + o.qty)
    && (o.side == Sell ==> position == Position(word) - o.qty)
    && notional == Notional(word) + o.price * o.qty
  }

  ghost predicate Admissible(s: State, position: int, notional: int) {
    position <= s.maxPosition && -s.maxPosition <= position && notional <= s.maxNotional && notional >= 0
  }

  /**
   When check_and_reserve(o) returns, the word its latest access had read decides: the order has been
   added to it, and to nothing else, exactly when that keeps within both limits; otherwise nothing
   has changed. No earlier access of the call has changed anything.
   */
  lemma ReserveReturns(x: Logged, t: Tid, e: Event, position: int, notional: int)
    requires Runs.Reachable(LogInit, LogNext, x) && t in x.s.pc && IsReserve(x.s.pc[t])
    requires Step(x.s, t, e).pc[t] == Idle
    requires t in x.order && t in x.seen && AddsUp(x.order[t], x.seen[t], position, notional)
    ensures t in x.changes && x.changes[t] == 0
    ensures var s, s' := x.s, Step(x.s, t, e);
      if Admissible(s, position, notional) then
        s.word == x.seen[t] && s'.word == Pack(position, notional)
        && |s'.grants| == |s.grants| + 1 && WorthOf(x.order[t], s'.grants[|s.grants|].delta)
        && s'.grants[..|s.grants|] == s.grants && s'.grants[|s.grants|].status == Outstanding
        && (FieldsHoldLimits(s) ==> Position(s'.word) == position && Notional(s'.word) == notional)
      else
        s'.word == s.word && s'.grants == s.grants
  {
    ReachableLog(x);
    assert CallInv(x, t);
    if FieldsHoldLimits(x.s) && Admissible(x.s, position, notional) {
      PackExact(Pack(position, notional), position, notional);
    }
  }

  /** A word has been read before check_and_reserve returns. */
  lemma ReserveHasRead(x: Logged, t: Tid, e: Event)
    requires Runs.Reachable(LogInit, LogNext, x) && t in x.s.pc && IsReserve(x.s.pc[t])
    requires Step(x.s, t, e).pc[t] == Idle
    ensures t in x.order && t in x.seen
  {
    ReachableLog(x);
    assert CallInv(x, t);
  }

  /**
   When release returns, it has taken the order of its reservation back out of the word, once, and the
   reservation counts as released; no earlier access of the call has changed anything.
   */
  lemma ReleaseReturns(x: Logged, t: Tid, e: Event)
    requires Runs.Reachable(LogInit, LogNext, x) && t in x.s.pc && IsRelease(x.s.pc[t])
    requires Step(x.s, t, e).pc[t] == Idle
    ensures t in x.changes && x.changes[t] == 0 && t in x.giving && x.giving[t] < |x.reserved| == |x.s.grants|
    ensures var s, s', o := x.s, Step(x.s, t, e), x.reserved[x.giving[t]];
      && |s'.grants| == |s.grants| && s'.grants[x.giving[t]].status == Released
      && (forall i :: 0 <= i < |s.grants| && i != x.giving[t] ==> s'.grants[i] == s.grants[i])
      && s'.word == Pack(Position(s.word) + (if o.side == Buy then -o.qty else o.qty),
                         if Notional(s.word) >= o.price * o.qty then Notional(s.word) - o.price * o.qty else 0)
  {
    ReachableLog(x);
    assert CallInv(x, t);
    assert WorthOf(x.reserved[x.giving[t]], x.s.grants[x.giving[t]].delta);
  }

  /** The state after `n` accesses of `t` alone. */
  function Alone(s: State, t: Tid, n: nat): State
    requires t in s.pc
    decreases n
  {
    if n == 0 then s else Alone(Step(s, t, Proceed), t, n - 1)
  }

  lemma ReturnsSoon(s: State, t: Tid)
    requires t in s.pc && s.pc[t] != Idle && (IsRelease(s.pc[t]) ==> s.pc[t].grant < |s.grants|)
    ensures var s' := Step(s, t, Proceed);
      s'.pc[t] == Idle || Step(s', t, Proceed).pc[t] == Idle
  {
  }

  /** Undisturbed, every call returns after at most two accesses. */
  lemma CallsReturn(x: Logged, t: Tid)
    requires Runs.Reachable(LogInit, LogNext, x) && t in x.s.pc && x.s.pc[t] != Idle
    ensures Alone(x.s, t, 1).pc[t] == Idle || Alone(x.s, t, 2).pc[t] == Idle
  {
    ReachableLog(x);
    ReturnsSoon(x.s, t);
    var s1 := Step(x.s, t, Proceed);
    var s2 := Step(s1, t, Proceed);
    assert Alone(x.s, t, 1) == Alone(s1, t, 0) == s1;
    assert Alone(x.s, t, 2) == Alone(s1, t, 1) == Alone(s2, t, 0) == s2;
  }

  /** An idle thread that calls is inside the call; a release begins on an outstanding reservation. */
  lemma CallsBegin(s: State, t: Tid, o: Order, grant: nat)
    requires t in s.pc && s.pc[t] == Idle
    ensures IsReserve(Step(s, t, Reserve(o)).pc[t]) && WorthOf(o, Step(s, t, Reserve(o)).pc[t].d)
    ensures grant < |s.grants| && s.grants[grant].status == Outstanding ==>
      IsRelease(Step(s, t, Release(grant)).pc[t]) && Step(s, t, Release(grant)).pc[t].grant == grant
  {
  }
}
