/**
 The calls of the bounded queue as their callers see them. The record of calls is kept beside the
 state machine: it looks only at who is inside a call, at the argument of the call, and at what each
 access does to the abstract queue.
 */
module QueueCalls {
  import opened Arithmetic
  import opened Calls
  import opened MpmcQueue
  import opened Options
  import Runs

  datatype Logged = Logged(s: State, calls: map<Tid, Call>)

  ghost predicate LogInit(x: Logged) {
    Init(x.s) && x.calls == map[]
  }

  ghost function Contents(s: State): seq<Value> {
    if s.head <= s.tail <= |s.sent| then Queue(s) else []
  }

  /** What an access has done to the queue, seen from outside. */
  function Effects(q: seq<Value>, q': seq<Value>): seq<Effect> {
    if |q'| > |q| then [Put(q'[|q'| - 1])]
    else if |q'| < |q| then [Took(q[0])]
    else []
  }

  ghost function Log(x: Logged, t: Tid, e: Event): Logged
    requires WellFormed(x.s) && t in x.s.pc
  {
    var s' := Step(x.s, t, e);
    if x.s.pc[t] == Idle then
      if e.CallPush? then Logged(s', x.calls[t := Call(Push(e.v), [])])
      else if e.CallPop? then Logged(s', x.calls[t := Call(Pop, [])])
      else x.(s := s')
    else if t in x.calls then
      var call := x.calls[t];
      Logged(s', x.calls[t := call.(effects := call.effects + Effects(Contents(x.s), Contents(s')))])
    else x.(s := s')
  }

  ghost predicate LogNext(x: Logged, x': Logged) {
    && WellFormed(x.s)
    && exists t: Tid, e: Event :: t in x.s.pc && x' == Log(x, t, e)
  }

  /** What try_pop hands out when its next access returns; push and an empty-handed try_pop hand out nothing. */
  function HandsOut(pc: Pc): Option<Value> {
    if pc.PopRelease? then Some(pc.out) else None
  }

  /** Where a thread stands inside its call tells what the call has done so far. */
  ghost predicate CallInv(s: State, pc: Pc, call: Call) {
    match pc
    case Idle => true
    case EnqLoadTail(v) => call == Call(Push(v), [])
    case EnqLoadSeq(v, _) => call == Call(Push(v), [])
    case EnqClaim(v, _) => call == Call(Push(v), [])
    case EnqFull(v) => call == Call(Push(v), [])
    case EnqWrite(v, _) => call == Call(Push(v), [Put(v)])
    case EnqPublish(v, _) => call == Call(Push(v), [Put(v)])
    case PopRead(pos) => pos < |s.sent| && call == Call(Pop, [Took(s.sent[pos])])
    case PopRelease(_, out) => call == Call(Pop, [Took(out)])
    case _ => call == Call(Pop, [])
  }

  ghost predicate CallsInv(x: Logged) {
    forall t :: t in x.s.pc && x.s.pc[t] != Idle ==> t in x.calls && CallInv(x.s, x.s.pc[t], x.calls[t])
  }

  ghost predicate LogInv(x: Logged) {
    Inv(x.s) && CallsInv(x)
  }

  /** The claims, and nothing else, have an effect on the queue. */
  lemma EffectsOf(s: State, t: Tid, e: Event)
    requires Inv(s) && t in s.pc
    ensures s.pc[t].PopClaim? && Step(s, t, e).pc[t].PopRead? ==> s.head < |s.sent| && Step(s, t, e).pc[t].pos == s.head
    ensures var s' := Step(s, t, e);
      Effects(Contents(s), Contents(s')) ==
        if s.pc[t].EnqClaim? && s'.pc[t].EnqWrite? then [Put(s.pc[t].v)]
        else if s.pc[t].PopClaim? && s'.pc[t].PopRead? then [Took(s.sent[s.head])]
        else []
  {
    StepRefinesFifo(s, t, e);
    ClaimsMove(s, t, e);
    if s.pc[t].PopClaim? && Step(s, t, e).pc[t].PopRead? { ClaimHead(s, t, e); }
  }

  lemma OwnCallStep(x: Logged, t: Tid, e: Event)
    requires LogInv(x) && t in x.s.pc
    ensures var x' := Log(x, t, e);
      x'.s.pc[t] != Idle ==> t in x'.calls && CallInv(x'.s, x'.s.pc[t], x'.calls[t])
  {
    EffectsOf(x.s, t, e);
    assert ThreadInv(x.s, x.s.pc[t]);
    ClaimsMove(x.s, t, e);
    if x.s.pc[t] != Idle {
      assert CallInv(x.s, x.s.pc[t], x.calls[t]);
      var call := x.calls[t];
      assert call.effects + [] == call.effects;
    }
  }

  lemma LogStep(x: Logged, t: Tid, e: Event)
    requires LogInv(x) && t in x.s.pc
    ensures LogInv(Log(x, t, e))
  {
    InvStep(x.s, t, e);
    StepExtends(x.s, t, e);
    OwnCallStep(x, t, e);
    var x' := Log(x, t, e);
    assert x'.s == Step(x.s, t, e);
    forall u | u in x'.s.pc && x'.s.pc[u] != Idle ensures u in x'.calls && CallInv(x'.s, x'.s.pc[u], x'.calls[u]) {
      if u != t { assert x'.s.pc[u] == x.s.pc[u] && CallInv(x.s, x.s.pc[u], x.calls[u]); }
    }
  }

  lemma LogKeepsCapacity(x: Logged, t: Tid, e: Event)
    requires WellFormed(x.s) && t in x.s.pc
    ensures Log(x, t, e).s.capacity == x.s.capacity
  {
  }

  lemma ReachableLog(x: Logged)
    requires Runs.Reachable(LogInit, LogNext, x) && x.s.capacity >= 2
    ensures LogInv(x)
  {
    var inv := (x: Logged) => x.s.capacity >= 2 ==> LogInv(x);
    forall x | LogInit(x) ensures inv(x) {
      if x.s.capacity >= 2 { InvInit(x.s); }
    }
    forall x, x' | inv(x) && LogNext(x, x') ensures inv(x') {
      var t: Tid, e: Event :| t in x.s.pc && x' == Log(x, t, e);
      LogKeepsCapacity(x, t, e);
      if x'.s.capacity >= 2 { LogStep(x, t, e); }
    }
    Runs.InvariantOfReachable(LogInit, LogNext, inv, x);
  }

  /**
   When push(v) returns, its thread has appended to the queue once since the call, and what it appended
   is v. When try_pop returns a value, its thread has taken the oldest element once since the call, and
   that is the value; when it returns false, it has taken nothing.
   */
  lemma CallsReturn(x: Logged, t: Tid, e: Event)
    requires Runs.Reachable(LogInit, LogNext, x) && x.s.capacity >= 2 && t in x.s.pc
    requires WellFormed(x.s) && x.s.pc[t] != Idle && Step(x.s, t, e).pc[t] == Idle
    ensures t in x.calls && t in Log(x, t, e).calls
    ensures Log(x, t, e).calls[t].op == x.calls[t].op && Answers(Log(x, t, e).calls[t], HandsOut(x.s.pc[t]))
  {
    ReachableLog(x);
    EffectsOf(x.s, t, e);
    assert CallInv(x.s, x.s.pc[t], x.calls[t]);
    assert x.calls[t].effects + [] == x.calls[t].effects;
  }

  // ---------------------------------------------------------------- calls that nobody disturbs

  /** The state after `n` accesses of `t` alone. */
  ghost function Alone(s: State, t: Tid, n: nat): State
    decreases n
  {
    if n == 0 || !(WellFormed(s) && t in s.pc) then s else Alone(Step(s, t, Proceed), t, n - 1)
  }

  predicate Claimed(pc: Pc) {
    pc.EnqWrite? || pc.EnqPublish?
  }

  predicate Enqueuing(pc: Pc) {
    pc.EnqLoadTail? || pc.EnqLoadSeq? || pc.EnqClaim? || pc.EnqFull? || Claimed(pc)
  }

  /** The slot of the next ticket is free: not all are taken, and no consumer still holds that one. */
  ghost predicate Room(s: State) {
    |Contents(s)| < s.capacity && !(s.tail >= s.capacity && Consumer(s, s.tail - s.capacity))
  }

  /** How many accesses of its own a push needs at most. */
  function PushRank(s: State, pc: Pc): nat {
    match pc
    case EnqFull(_) => 6
    case EnqLoadSeq(_, pos) => if pos == s.tail then 4 else 6
    case EnqLoadTail(_) => 5
    case EnqClaim(_, pos) => if pos == s.tail then 3 else 5
    case EnqWrite(_, _) => 2
    case EnqPublish(_, _) => 1
    case _ => 0
  }

  /** One access of a push that has not claimed yet: with room it gets nearer, without it stays what it is. */
  lemma SearchingStep(s: State, t: Tid)
    requires Inv(s) && t in s.pc && Enqueuing(s.pc[t]) && !Claimed(s.pc[t])
    ensures var s' := Step(s, t, Proceed); var pc := s'.pc[t];
      && Enqueuing(pc) && pc.v == s.pc[t].v
      && (if Claimed(pc) then s'.sent == s.sent + [pc.v] else s' == Goto(s, t, pc))
      && (Room(s) ==> PushRank(s', pc) < PushRank(s, s.pc[t]))
      && (!Room(s) ==> !Claimed(pc))
  {
    assert ThreadInv(s, s.pc[t]);
    assert s.tail < s.head + s.capacity ==> FreeTicket(s, s.tail);
    if s.pc[t].EnqLoadSeq? { FullLook(s, t, Proceed); }
    if s.pc[t].EnqClaim? && s.pc[t].pos == s.tail {
      RoomAtTail(s);
      TailSlotTaken(s);
    }
  }

  /** The looks of a push at the queue change nothing about the room in it. */
  lemma RoomStays(s: State, t: Tid, pc: Pc)
    requires t in s.pc && Enqueuing(s.pc[t]) && Enqueuing(pc)
    ensures Room(Goto(s, t, pc)) <==> Room(s)
  {
    var s' := Goto(s, t, pc);
    forall p: nat ensures Consumer(s', p) <==> Consumer(s, p) {
      if Consumer(s, p) {
        var u :| u in s.pc && Consuming(s.pc[u], p);
        assert u in s'.pc && Consuming(s'.pc[u], p);
      }
      if Consumer(s', p) {
        var u :| u in s'.pc && Consuming(s'.pc[u], p);
        assert u in s.pc && Consuming(s.pc[u], p);
      }
    }
  }

  lemma ClaimedStep(s: State, t: Tid)
    requires Inv(s) && t in s.pc && Claimed(s.pc[t])
    ensures var s' := Step(s, t, Proceed); var pc := s'.pc[t];
      && (Claimed(pc) || pc == Idle) && s'.sent == s.sent
      && (Claimed(pc) ==> PushRank(s', pc) < PushRank(s, s.pc[t]))
      && (pc == Idle <==> s.pc[t].EnqPublish?)
  {
  }

  lemma {:induction false} PushFinishes(s: State, t: Tid) returns (n: nat)
    requires Inv(s) && t in s.pc && Enqueuing(s.pc[t]) && (Claimed(s.pc[t]) || Room(s))
    ensures n <= PushRank(s, s.pc[t])
    ensures var s' := Alone(s, t, n);
      && t in s'.pc && s'.pc[t] == Idle
      && s'.sent == s.sent + (if Claimed(s.pc[t]) then [] else [s.pc[t].v])
    decreases PushRank(s, s.pc[t])
  {
    var s' := Step(s, t, Proceed);
    InvStep(s, t, Proceed);
    if Claimed(s.pc[t]) { ClaimedStep(s, t); } else { SearchingStep(s, t); }
    if s'.pc[t] == Idle {
      n := 1;
      assert Alone(s, t, 1) == Alone(s', t, 0) == s';
    } else {
      if !Claimed(s'.pc[t]) { RoomStays(s, t, s'.pc[t]); }
      var n' := PushFinishes(s', t);
      n := n' + 1;
    }
  }

  lemma {:induction false} PushKeepsWaiting(s: State, t: Tid, n: nat)
    requires Inv(s) && t in s.pc && Enqueuing(s.pc[t]) && !Claimed(s.pc[t]) && !Room(s)
    ensures t in Alone(s, t, n).pc && Alone(s, t, n).pc[t] != Idle && Alone(s, t, n).sent == s.sent
    decreases n
  {
    if n > 0 {
      var s' := Step(s, t, Proceed);
      InvStep(s, t, Proceed);
      SearchingStep(s, t);
      RoomStays(s, t, s'.pc[t]);
      PushKeepsWaiting(s', t, n - 1);
    }
  }

  /**
   push blocks exactly as long as there is no room: running alone, it returns if and only if it has
   claimed its ticket or the slot of the next ticket is free, and then after at most six accesses.
   */
  lemma PushReturnsIff(s: State, t: Tid)
    requires Inv(s) && t in s.pc && Enqueuing(s.pc[t])
    ensures (exists n: nat :: t in Alone(s, t, n).pc && Alone(s, t, n).pc[t] == Idle) <==> Claimed(s.pc[t]) || Room(s)
    ensures Claimed(s.pc[t]) || Room(s) ==>
      exists n: nat :: n <= 6 && t in Alone(s, t, n).pc && Alone(s, t, n).pc[t] == Idle
        && Alone(s, t, n).sent == s.sent + (if Claimed(s.pc[t]) then [] else [s.pc[t].v])
  {
    if Claimed(s.pc[t]) || Room(s) {
      var n := PushFinishes(s, t);
      assert n <= 6;
    } else {
      forall n: nat ensures t in Alone(s, t, n).pc && Alone(s, t, n).pc[t] != Idle {
        PushKeepsWaiting(s, t, n);
      }
    }
  }

  predicate HasTaken(pc: Pc) {
    pc.PopRead? || pc.PopRelease?
  }

  predicate Dequeuing(pc: Pc) {
    pc.PopLoadHead? || pc.PopLoadSeq? || pc.PopClaim? || pc.PopEmpty? || HasTaken(pc)
  }

  /** The oldest element is there and published. */
  ghost predicate Ready(s: State) {
    Contents(s) != [] && !Producer(s, s.head)
  }

  function PopRank(s: State, pc: Pc): nat {
    match pc
    case PopLoadSeq(pos) => if pos == s.head then 4 else 6
    case PopLoadHead => 5
    case PopClaim(pos) => if pos == s.head then 3 else 5
    case PopRead(_) => 2
    case PopRelease(_, _) => 1
    case PopEmpty => 1
    case _ => 0
  }

  predicate Looking(pc: Pc) {
    Dequeuing(pc) && !HasTaken(pc) && !pc.PopEmpty?
  }

  lemma PublishedIsDone(s: State, p: nat)
    requires Inv(s) && Cell(s, p).seqno == p + 1
    ensures !Producer(s, p)
  {
    forall u | u in s.pc ensures !Producing(s.pc[u], p) { assert ThreadInv(s, s.pc[u]); }
  }

  lemma LookingStep(s: State, t: Tid)
    requires Inv(s) && t in s.pc && Looking(s.pc[t])
    ensures var s' := Step(s, t, Proceed); var pc := s'.pc[t];
      && Dequeuing(pc) && PopRank(s', pc) < PopRank(s, s.pc[t])
      && (if HasTaken(pc) then s'.head == s.head + 1 && Ready(s) else s' == Goto(s, t, pc))
      && (pc == PopEmpty ==> !Ready(s))
  {
    assert ThreadInv(s, s.pc[t]);
    assert if s.head < s.tail then FullTicket(s, s.head) else FreeTicket(s, s.head);
    if s.pc[t].PopLoadSeq? { EmptyLook(s, t, Proceed); }
    if s.pc[t].PopClaim? && s.pc[t].pos == s.head {
      ClaimHead(s, t, Proceed);
      PublishedIsDone(s, s.head);
    }
  }

  lemma ReadinessStays(s: State, t: Tid, pc: Pc)
    requires t in s.pc && Dequeuing(s.pc[t]) && Dequeuing(pc)
    ensures Ready(Goto(s, t, pc)) <==> Ready(s)
  {
    var s' := Goto(s, t, pc);
    if Producer(s, s.head) {
      var u :| u in s.pc && Producing(s.pc[u], s.head);
      assert u in s'.pc && Producing(s'.pc[u], s.head);
    }
    if Producer(s', s.head) {
      var u :| u in s'.pc && Producing(s'.pc[u], s.head);
      assert u in s.pc && Producing(s.pc[u], s.head);
    }
  }

  lemma DecidedStep(s: State, t: Tid)
    requires Inv(s) && t in s.pc && (HasTaken(s.pc[t]) || s.pc[t].PopEmpty?)
    ensures var s' := Step(s, t, Proceed); var pc := s'.pc[t];
      && s'.head == s.head && (pc == Idle || HasTaken(pc))
      && (pc != Idle ==> PopRank(s', pc) < PopRank(s, s.pc[t]))
  {
  }

  /**
   try_pop never blocks: running alone, it returns after at most six accesses, and it takes an element
   exactly when the oldest one is there and published -- unless it had decided before.
   */
  lemma {:induction false} PopReturns(s: State, t: Tid) returns (n: nat)
    requires Inv(s) && t in s.pc && Dequeuing(s.pc[t])
    ensures n <= PopRank(s, s.pc[t]) <= 6
    ensures var s' := Alone(s, t, n);
      && t in s'.pc && s'.pc[t] == Idle
      && s'.head == s.head + (if Looking(s.pc[t]) && Ready(s) then 1 else 0)
    decreases PopRank(s, s.pc[t])
  {
    var s' := Step(s, t, Proceed);
    InvStep(s, t, Proceed);
    if Looking(s.pc[t]) { LookingStep(s, t); } else { DecidedStep(s, t); }
    if s'.pc[t] == Idle {
      n := 1;
      assert Alone(s, t, 1) == Alone(s', t, 0) == s';
    } else {
      if Looking(s'.pc[t]) { ReadinessStays(s, t, s'.pc[t]); }
      var n' := PopReturns(s', t);
      n := n' + 1;
    }
  }

  /** An idle thread that calls is inside the call, with its argument. */
  lemma CallsBegin(s: State, t: Tid, v: Value)
    requires Inv(s) && t in s.pc && s.pc[t] == Idle
    ensures Enqueuing(Step(s, t, CallPush(v)).pc[t]) && Step(s, t, CallPush(v)).pc[t].v == v
    ensures Looking(Step(s, t, CallPop).pc[t])
  {
  }
}
