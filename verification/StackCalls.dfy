/**
 The calls of the Treiber stack as their callers see them. The record of calls is kept beside the
 state machine: it looks only at who is inside a call, at the argument and the address of its node,
 and at what each access does to the abstract stack.
 */
module StackCalls {
  import opened Calls
  import opened LockFreeStack
  import opened Options
  import Runs

  /** `made` is the argument of the push that allocated each node. */
  datatype Logged = Logged(s: State, calls: map<Tid, Call>, made: map<Ptr, Value>)

  ghost predicate LogInit(x: Logged) {
    Init(x.s) && x.calls == map[] && x.made == map[]
  }

  /** What an access has done to the stack, seen from outside. */
  function Effects(q: seq<Value>, q': seq<Value>): seq<Effect> {
    if |q'| > |q| then [Put(q'[|q'| - 1])]
    else if |q'| < |q| then [Took(q[|q| - 1])]
    else []
  }

  ghost function Log(x: Logged, t: Tid, e: Event): Logged
    requires t in x.s.m.pc && Dereferences(x.s.m, x.s.m.pc[t])
  {
    var s' := Step(x.s, t, e);
    if x.s.m.pc[t] == Idle then
      if e.CallPush? && e.at !in x.s.m.nodes then
        Logged(s', x.calls[t := Call(Push(e.v), [])], x.made[e.at := e.v])
      else if e.CallPop? then x.(s := s', calls := x.calls[t := Call(Pop, [])])
      else x.(s := s')
    else if t in x.calls then
      var call := x.calls[t];
      x.(s := s', calls := x.calls[t := call.(effects := call.effects + Effects(Stack(x.s), Stack(s')))])
    else x.(s := s')
  }

  ghost predicate LogNext(x: Logged, x': Logged) {
    exists t, e :: t in x.s.m.pc && Dereferences(x.s.m, x.s.m.pc[t]) && x' == Log(x, t, e)
  }

  /** What try_pop hands out when its next access returns; push and an empty-handed try_pop hand out nothing. */
  function HandsOut(pc: Pc): Option<Value> {
    if pc.RetireCas? then Some(pc.out) else None
  }

  /** Where a thread stands inside its call tells what the call has done so far. */
  ghost predicate CallInv(m: Memory, pc: Pc, call: Call) {
    if pc.Idle? then true
    else if Pushing(pc) then call == Call(Push(ValueOf(m, pc.n)), [])
    else if pc.PopTake? then call == Call(Pop, [Took(ValueOf(m, pc.n))])
    else if Retiring(pc) then call == Call(Pop, [Took(pc.out)])
    else call == Call(Pop, [])
  }

  ghost predicate CallsInv(x: Logged) {
    forall t :: t in x.s.m.pc && x.s.m.pc[t] != Idle ==> t in x.calls && CallInv(x.s.m, x.s.m.pc[t], x.calls[t])
  }

  ghost predicate MadeInv(x: Logged) {
    forall p :: p in x.s.m.nodes ==> p in x.made && x.made[p] == x.s.m.nodes[p].value
  }

  ghost predicate LogInv(x: Logged) {
    Inv(x.s) && CallsInv(x) && MadeInv(x)
  }

  /** The successful compare-and-swaps of the head, and nothing else, have an effect on the stack. */
  lemma EffectsOf(s: State, t: Tid, e: Event)
    requires Inv(s) && t in s.m.pc && Dereferences(s.m, s.m.pc[t])
    ensures var s' := Step(s, t, e);
      t in s'.m.pc && Effects(Stack(s), Stack(s')) == EffectAt(s.m, s.m.pc[t], s'.m.pc[t])
  {
    StepRefinesLifo(s, t, e);
  }

  /** What an access does to the program counter, seen from the call: it begins it, goes on with it, or ends it. */
  ghost predicate Follows(m: Memory, pc: Pc, e: Event, pc': Pc) {
    if pc.Idle? then
      if e.CallPush? && e.at !in m.nodes then pc' == PushLoad(e.at)
      else if e.CallPop? then pc' == PopLoad
      else pc' == Idle
    else if Pushing(pc) then (Pushing(pc') && pc'.n == pc.n) || (pc.PushCas? && pc' == Idle)
    else if pc.PopTake? then pc'.RetireNew? && pc.n in m.nodes && pc'.out == m.nodes[pc.n].value
    else if Retiring(pc) then (Retiring(pc') && !pc'.PopTake? && pc'.out == pc.out) || (pc.RetireCas? && pc' == Idle)
    else if pc.PopEmpty? then pc' == Idle
    else
      || pc'.PopLoad? || pc'.PopNext? || pc'.PopCas? || pc'.PopEmpty?
      || (pc.PopCas? && pc'.PopTake?)
  }

  lemma ActFollows(m: Memory, t: Tid, e: Event)
    requires t in m.pc && Dereferences(m, m.pc[t])
    ensures var m' := Act(m, t, e);
      t in m'.pc && m'.pc == m.pc[t := m'.pc[t]] && Follows(m, m.pc[t], e, m'.pc[t])
  {
  }

  lemma ActMakesNodes(m: Memory, t: Tid, e: Event)
    requires t in m.pc && Dereferences(m, m.pc[t])
    ensures forall p :: p in Act(m, t, e).nodes && p !in m.nodes ==>
      m.pc[t].Idle? && e.CallPush? && e.at == p && Act(m, t, e).nodes[p].value == e.v
    ensures m.pc[t].Idle? && e.CallPush? && e.at !in m.nodes ==>
      e.at in Act(m, t, e).nodes && Act(m, t, e).nodes[e.at].value == e.v
  {
  }

  /** The effect of an access on the stack, by where it leads. */
  ghost function EffectAt(m: Memory, pc: Pc, pc': Pc): seq<Effect> {
    if pc.PushCas? && pc'.Idle? then [Put(ValueOf(m, pc.n))]
    else if pc.PopCas? && pc'.PopTake? then [Took(ValueOf(m, pc'.n))]
    else []
  }

  ghost predicate KeepsValues(m: Memory, m': Memory) {
    forall p :: p in m.nodes ==> p in m'.nodes && m'.nodes[p].value == m.nodes[p].value
  }

  lemma CallGoesOn(m: Memory, m': Memory, pc: Pc, e: Event, pc': Pc, call: Call)
    requires Follows(m, pc, e, pc') && KeepsValues(m, m') && CallInv(m, pc, call) && !pc.Idle?
    requires Pushing(pc) || Retiring(pc) ==> pc.n in m.nodes
    requires pc'.PopTake? ==> pc'.n in m.nodes
    ensures CallInv(m', pc', call.(effects := call.effects + EffectAt(m, pc, pc')))
  {
    assert call.effects + [] == call.effects;
  }

  lemma CallBegins(x: Logged, t: Tid, e: Event)
    requires LogInv(x) && t in x.s.m.pc && x.s.m.pc[t] == Idle
    ensures var x' := Log(x, t, e);
      t in x'.s.m.pc && (x'.s.m.pc[t] != Idle ==> t in x'.calls && CallInv(x'.s.m, x'.s.m.pc[t], x'.calls[t]))
  {
    StepActs(x.s, t, e);
    ActFollows(x.s.m, t, e);
    ActMakesNodes(x.s.m, t, e);
  }

  lemma CallContinues(x: Logged, t: Tid, e: Event)
    requires LogInv(x) && t in x.s.m.pc && Dereferences(x.s.m, x.s.m.pc[t]) && x.s.m.pc[t] != Idle
    ensures var m' := Act(x.s.m, t, e); var pc, pc' := x.s.m.pc[t], m'.pc[t];
      t in x.calls && CallInv(m', pc', x.calls[t].(effects := x.calls[t].effects + EffectAt(x.s.m, pc, pc')))
  {
    ActFollows(x.s.m, t, e);
    ActKeepsNodes(x.s.m, t, e);
    assert ThreadInv(x.s, t) && CallInv(x.s.m, x.s.m.pc[t], x.calls[t]);
    CallGoesOn(x.s.m, Act(x.s.m, t, e), x.s.m.pc[t], e, Act(x.s.m, t, e).pc[t], x.calls[t]);
  }

  lemma OwnCallStep(x: Logged, t: Tid, e: Event)
    requires LogInv(x) && t in x.s.m.pc && Dereferences(x.s.m, x.s.m.pc[t])
    ensures var x' := Log(x, t, e);
      t in x'.s.m.pc && (x'.s.m.pc[t] != Idle ==> t in x'.calls && CallInv(x'.s.m, x'.s.m.pc[t], x'.calls[t]))
  {
    if x.s.m.pc[t] == Idle {
      CallBegins(x, t, e);
    } else {
      StepActs(x.s, t, e);
      EffectsOf(x.s, t, e);
      CallContinues(x, t, e);
    }
  }

  lemma OtherCalls(x: Logged, t: Tid, e: Event, u: Tid)
    requires LogInv(x) && t in x.s.m.pc && Dereferences(x.s.m, x.s.m.pc[t]) && u in x.s.m.pc && u != t
    requires x.s.m.pc[u] != Idle
    ensures var x' := Log(x, t, e);
      u in x'.s.m.pc && x'.s.m.pc[u] == x.s.m.pc[u] && u in x'.calls && CallInv(x'.s.m, x.s.m.pc[u], x'.calls[u])
  {
    StepActs(x.s, t, e);
    ActFollows(x.s.m, t, e);
    ActKeepsNodes(x.s.m, t, e);
    assert ThreadInv(x.s, u) && CallInv(x.s.m, x.s.m.pc[u], x.calls[u]);
  }

  lemma MadeStep(x: Logged, t: Tid, e: Event)
    requires LogInv(x) && t in x.s.m.pc && Dereferences(x.s.m, x.s.m.pc[t])
    ensures MadeInv(Log(x, t, e))
  {
    StepActs(x.s, t, e);
    ActMakesNodes(x.s.m, t, e);
    ActKeepsNodes(x.s.m, t, e);
  }

  lemma LogStep(x: Logged, t: Tid, e: Event)
    requires LogInv(x) && t in x.s.m.pc && Dereferences(x.s.m, x.s.m.pc[t])
    ensures LogInv(Log(x, t, e))
  {
    InvStep(x.s, t, e);
    MadeStep(x, t, e);
    OwnCallStep(x, t, e);
    StepActs(x.s, t, e);
    ActFollows(x.s.m, t, e);
    var x' := Log(x, t, e);
    forall u | u in x'.s.m.pc && x'.s.m.pc[u] != Idle
      ensures u in x'.calls && CallInv(x'.s.m, x'.s.m.pc[u], x'.calls[u])
    {
      if u != t { OtherCalls(x, t, e, u); }
    }
  }

  lemma ReachableLog(x: Logged)
    requires Runs.Reachable(LogInit, LogNext, x)
    ensures LogInv(x)
  {
    forall x | LogInit(x) ensures LogInv(x) { InvInit(x.s); }
    forall x, x' | LogInv(x) && LogNext(x, x') ensures LogInv(x') {
      var t, e :| t in x.s.m.pc && Dereferences(x.s.m, x.s.m.pc[t]) && x' == Log(x, t, e);
      LogStep(x, t, e);
    }
    Runs.InvariantOfReachable(LogInit, LogNext, LogInv, x);
  }

  /**
   When push(v) returns, its thread has put something on top of the stack once since the call, and it is
   v. When try_pop returns a value, its thread has taken the top once since the call, and that is the
   value; when it returns false, it has taken nothing.
   */
  lemma CallsReturn(x: Logged, t: Tid, e: Event)
    requires Runs.Reachable(LogInit, LogNext, x) && t in x.s.m.pc && Dereferences(x.s.m, x.s.m.pc[t])
    requires x.s.m.pc[t] != Idle && t in Act(x.s.m, t, e).pc && Act(x.s.m, t, e).pc[t] == Idle
    ensures t in x.calls && t in Log(x, t, e).calls
    ensures Log(x, t, e).calls[t].op == x.calls[t].op && Answers(Log(x, t, e).calls[t], HandsOut(x.s.m.pc[t]))
  {
    ReachableLog(x);
    EffectsOf(x.s, t, e);
    StepActs(x.s, t, e);
    ActFollows(x.s.m, t, e);
    assert CallInv(x.s.m, x.s.m.pc[t], x.calls[t]);
    assert x.calls[t].effects + [] == x.calls[t].effects;
  }

  /** What a pop hands out is the argument of the push that made its node. */
  lemma PopHandsOutArgument(x: Logged, t: Tid)
    requires Runs.Reachable(LogInit, LogNext, x) && t in x.s.m.pc
    requires x.s.m.pc[t].RetireNew? || HasCell(x.s.m.pc[t])
    ensures x.s.m.pc[t].n in x.made && x.s.m.pc[t].out == x.made[x.s.m.pc[t].n]
  {
    ReachableLog(x);
    assert ThreadInv(x.s, t);
  }

  /** The stack holds the arguments of the pushes that made its nodes. */
  lemma StackHoldsArguments(x: Logged, i: nat)
    requires Runs.Reachable(LogInit, LogNext, x) && i < |x.s.live|
    ensures x.s.live[i] in x.made && Stack(x.s)[i] == x.made[x.s.live[i]]
  {
    ReachableLog(x);
    assert LiveAt(x.s, i);
  }

  // ---------------------------------------------------------------- calls that nobody disturbs

  /** What the environment decides in favour of a thread that runs alone: `at` is the address its allocation returns. */
  function Undisturbed(pc: Pc, at: Ptr): Event {
    if pc.RetireNew? then Allocate(at) else Proceed
  }

  ghost predicate AloneStep(s: State, t: Tid, at: Ptr, s': State) {
    && t in s.m.pc && s.m.pc[t] != Idle && Dereferences(s.m, s.m.pc[t])
    && s' == Step(s, t, Undisturbed(s.m.pc[t], at))
  }

  /** Successive accesses of `t` alone, from inside a call. */
  ghost predicate Alone(t: Tid, at: Ptr, run: seq<State>) {
    |run| > 0 && forall i :: 0 <= i < |run| - 1 ==> AloneStep(run[i], t, at, run[i + 1])
  }

  lemma AloneCons(s: State, t: Tid, at: Ptr, run: seq<State>)
    requires Alone(t, at, run) && AloneStep(s, t, at, run[0])
    ensures Alone(t, at, [s] + run)
  {
    forall i | 0 <= i < |run| ensures AloneStep(([s] + run)[i], t, at, ([s] + run)[i + 1]) {
      if i > 0 { assert AloneStep(run[i - 1], t, at, run[i - 1 + 1]); }
    }
  }

  /** How many accesses of its own a call needs at most, if nobody disturbs it. */
  function RankOf(m: Memory, pc: Pc): nat {
    match pc
    case Idle => 0
    case PushLoad(_) => 3
    case PushLink(_, cur) => if cur == m.head then 2 else 4
    case PushCas(_, cur) => if cur == m.head then 1 else 3
    case PopLoad => 9
    case PopNext(top) => if m.head == Some(top) then 8 else 10
    case PopCas(top, _) => if m.head == Some(top) then 7 else 9
    case PopTake(_) => 6
    case PopEmpty => 1
    case RetireNew(_, _) => 5
    case RetireLoad(_, _, _) => 3
    case RetireLink(_, _, cur, _) => if cur == m.retired then 2 else 4
    case RetireCas(_, _, cur, _) => if cur == m.retired then 1 else 3
  }

  lemma AloneFalls(m: Memory, t: Tid, at: Ptr)
    requires t in m.pc && Dereferences(m, m.pc[t]) && m.pc[t] != Idle
    requires m.pc[t].RetireNew? ==> at !in m.cells
    ensures var m' := Act(m, t, Undisturbed(m.pc[t], at));
      && t in m'.pc && RankOf(m', m'.pc[t]) < RankOf(m, m.pc[t]) <= 10
      && (!m.pc[t].RetireNew? ==> m'.cells.Keys == m.cells.Keys || m.pc[t].RetireLink?)
      && (m'.pc[t].RetireNew? ==> m'.cells == m.cells)
  {
  }

  /** What a call that has not yet taken effect will do to the stack if it runs alone. */
  ghost function Due(s: State, pc: Pc): seq<Value> {
    if Pushing(pc) then Stack(s) + [ValueOf(s.m, pc.n)]
    else if (pc.PopLoad? || pc.PopNext? || pc.PopCas?) && Stack(s) != [] then Stack(s)[..|Stack(s)| - 1]
    else Stack(s)
  }

  lemma DueByRefinement(s: State, t: Tid, s': State, e: Event)
    requires t in s.m.pc && RefinesLifo(s, t, s') && KeepsValues(s.m, s'.m)
    requires Follows(s.m, s.m.pc[t], e, s'.m.pc[t]) && s.m.pc[t] != Idle
    requires Pushing(s.m.pc[t]) ==> s.m.pc[t].n in s.m.nodes
    requires s'.m.pc[t].PopEmpty? ==> Stack(s) == []
    ensures Due(s', s'.m.pc[t]) == Due(s, s.m.pc[t])
  {
  }

  lemma DueStays(s: State, t: Tid, e: Event)
    requires Inv(s) && t in s.m.pc && Dereferences(s.m, s.m.pc[t]) && s.m.pc[t] != Idle
    ensures var s' := Step(s, t, e);
      t in s'.m.pc && Due(s', s'.m.pc[t]) == Due(s, s.m.pc[t])
  {
    StepRefinesLifo(s, t, e);
    StepActs(s, t, e);
    ActFollows(s.m, t, e);
    ActKeepsNodes(s.m, t, e);
    assert ThreadInv(s, t);
    if Act(s.m, t, e).pc[t].PopEmpty? { EmptyVerdict(s, t, e); }
    DueByRefinement(s, t, Step(s, t, e), e);
  }

  /**
   Undisturbed, every call returns, after at most ten accesses: a push with its value on top, a pop
   with the top taken if there is one -- unless the call had taken effect before.
   */
  lemma {:induction false} CallReturns(s: State, t: Tid, at: Ptr) returns (run: seq<State>)
    requires Inv(s) && t in s.m.pc && (at !in s.m.cells || HasCell(s.m.pc[t]) || s.m.pc[t] == Idle)
    ensures Alone(t, at, run) && run[0] == s && |run| - 1 <= RankOf(s.m, s.m.pc[t]) <= 10
    ensures var s' := run[|run| - 1];
      t in s'.m.pc && s'.m.pc[t] == Idle && Stack(s') == Due(s, s.m.pc[t])
    decreases RankOf(s.m, s.m.pc[t])
  {
    if s.m.pc[t] == Idle {
      run := [s];
    } else {
      var s' := NextAlone(s, t, at);
      var rest := CallReturns(s', t, at);
      AloneCons(s, t, at, rest);
      run := [s] + rest;
    }
  }

  lemma NextAlone(s: State, t: Tid, at: Ptr) returns (s': State)
    requires Inv(s) && t in s.m.pc && (at !in s.m.cells || HasCell(s.m.pc[t])) && s.m.pc[t] != Idle
    ensures Inv(s') && t in s'.m.pc && (at !in s'.m.cells || HasCell(s'.m.pc[t]) || s'.m.pc[t] == Idle)
    ensures RankOf(s'.m, s'.m.pc[t]) < RankOf(s.m, s.m.pc[t]) <= 10 && Due(s', s'.m.pc[t]) == Due(s, s.m.pc[t])
    ensures AloneStep(s, t, at, s')
  {
    var e := Undisturbed(s.m.pc[t], at);
    InvStep(s, t, e);
    StepActs(s, t, e);
    AloneFalls(s.m, t, at);
    DueStays(s, t, e);
    ActFollows(s.m, t, e);
    s' := Step(s, t, e);
  }

  /** An idle thread that calls is inside the call: a push with its argument due on top, a pop with the top due to go. */
  lemma CallsBegin(s: State, t: Tid, v: Value, at: Ptr)
    requires Inv(s) && t in s.m.pc && s.m.pc[t] == Idle && at !in s.m.nodes
    ensures var s' := Step(s, t, CallPush(v, at));
      t in s'.m.pc && s'.m.pc[t] != Idle && Due(s', s'.m.pc[t]) == Stack(s) + [v]
    ensures var s' := Step(s, t, CallPop);
      t in s'.m.pc && s'.m.pc[t] != Idle
      && Due(s', s'.m.pc[t]) == if Stack(s) == [] then [] else Stack(s)[..|Stack(s)| - 1]
  {
    StepRefinesLifo(s, t, CallPush(v, at));
    ActMakesNodes(s.m, t, CallPush(v, at));
    StepRefinesLifo(s, t, CallPop);
  }
}
