/**
 The MCS queue lock: waiters form an implicit queue through their `next_` fields and `tail_`, and each
 spins on its own `locked_` flag. One call of `Step` is one atomic access by the thread that uses
 waiter `w`; every interleaving, any number of waiters and any number of rounds per waiter are allowed.
 */
module McsLock {
  import Runs
  import opened Options

  type Node = nat

  datatype Pc =
    | Idle
    | ClearNext          // lock: w.next_ = nullptr
    | ArmFlag            // lock: w.locked_ = true
    | Exchange           // lock: prev = tail_.exchange(&w)
    | Link(prev: Node)   // lock: prev->next_ = &w (half-linked until this store lands)
    | Spin               // lock: while (w.locked_)
    | Critical           // lock has returned, unlock is not yet called
    | LoadNext           // unlock: w.next_ == nullptr?
    | TryEmpty           // unlock: compare_exchange_weak(tail_, &w, nullptr)
    | AwaitNext          // unlock: while (w.next_ == nullptr)
    | LoadSuccessor      // unlock: w.next_.load()
    | Wake(succ: Node)   // unlock: succ->locked_ = false

  /** The caller's node, with the place its thread has reached. */
  datatype Waiter = Waiter(next: Option<Node>, locked: bool, pc: Pc)

  /** The shared memory: the lock's `tail_` and the callers' nodes. */
  datatype Memory = Memory(tail: Option<Node>, node: map<Node, Waiter>)

  function Put(m: Memory, w: Node, waiter: Waiter): Memory {
    m.(node := m.node[w := waiter])
  }

  function Goto(m: Memory, w: Node, pc: Pc): Memory
    requires w in m.node
  {
    Put(m, w, m.node[w].(pc := pc))
  }

  /** The pointer that the next step of `w` dereferences designates a waiter. */
  ghost predicate Dereferences(m: Memory, w: Node)
    requires w in m.node
  {
    && (m.node[w].pc.Link? ==> m.node[w].pc.prev in m.node)
    && (m.node[w].pc.Wake? ==> m.node[w].pc.succ in m.node)
  }

  /** One atomic access. */
  function Act(m: Memory, w: Node, spurious: bool): Memory
    requires w in m.node && Dereferences(m, w)
  {
    var me := m.node[w];
    match me.pc
    case Idle => Goto(m, w, ClearNext)
    case ClearNext => Put(m, w, me.(next := None, pc := ArmFlag))
    case ArmFlag => Put(m, w, me.(locked := true, pc := Exchange))
    case Exchange => Goto(m, w, if m.tail == None then Critical else Link(m.tail.value)).(tail := Some(w))
    case Link(prev) => Goto(Put(m, prev, m.node[prev].(next := Some(w))), w, Spin)
    case Spin => if me.locked then m else Goto(m, w, Critical)
    case Critical => Goto(m, w, LoadNext)
    case LoadNext => Goto(m, w, if me.next == None then TryEmpty else LoadSuccessor)
    case TryEmpty =>
      if m.tail == Some(w) && !spurious then Goto(m, w, Idle).(tail := None) else Goto(m, w, AwaitNext)
    case AwaitNext => if me.next == None then m else Goto(m, w, LoadSuccessor)
    case LoadSuccessor => if me.next == None then m else Goto(m, w, Wake(me.next.value))
    case Wake(succ) => Goto(Put(m, succ, m.node[succ].(locked := false)), w, Idle)
  }

  /** Between lock returning and unlock giving the lock up. */
  predicate Holds(pc: Pc) {
    pc.Critical? || pc.LoadNext? || pc.TryEmpty? || pc.AwaitNext? || pc.LoadSuccessor? || pc.Wake?
  }

  /**
   The memory with its history: `arrivals` are the waiters in the order of their exchanges, `grants` in
   the order lock returned to them, and `released` counts the unlocks that have given up the lock.
   */
  datatype State = State(m: Memory, arrivals: seq<Node>, grants: seq<Node>, released: nat)

  ghost predicate Init(s: State) {
    && s.m.tail == None && s.arrivals == [] && s.grants == [] && s.released == 0
    && forall w :: w in s.m.node ==> s.m.node[w].pc == Idle
  }

  ghost function Step(s: State, w: Node, spurious: bool): State
    requires w in s.m.node && Dereferences(s.m, w)
  {
    var m' := Act(s.m, w, spurious);
    var pc, pc' := s.m.node[w].pc, m'.node[w].pc;
    State(m',
      if pc.Exchange? then s.arrivals + [w] else s.arrivals,
      if !Holds(pc) && Holds(pc') then s.grants + [w] else s.grants,
      if Holds(pc) && !Holds(pc') then s.released + 1 else s.released)
  }

  ghost predicate Next(s: State, s': State) {
    exists w, spurious :: w in s.m.node && Dereferences(s.m, w) && s' == Step(s, w, spurious)
  }

  /** As `Next`, with a compare-and-swap that never fails spuriously. */
  ghost predicate NextStrong(s: State, s': State) {
    exists w :: w in s.m.node && Dereferences(s.m, w) && s' == Step(s, w, false)
  }

  // ---------------------------------------------------------------- invariant

  /** From the exchange to the end of unlock. */
  predicate Queued(pc: Pc) {
    Holds(pc) || pc.Link? || pc.Spin?
  }

  /** The queue is `a[k..]`: each waiter between exchange and release stands in it, once. */
  ghost predicate Members(m: Memory, a: seq<Node>, k: nat) {
    && k <= |a|
    && (forall i, j :: k <= i < j < |a| ==> a[i] != a[j])
    && (forall i :: k <= i < |a| ==> a[i] in m.node && Queued(m.node[a[i]].pc))
    && (forall w :: w in m.node && Queued(m.node[w].pc) ==> Stands(a, k, w))
  }

  ghost predicate Stands(a: seq<Node>, k: nat, w: Node) {
    exists i :: k <= i < |a| && a[i] == w
  }

  /** The waiter at `i`, behind another, still waits: half-linked, or linked and spinning. */
  ghost predicate WaitingAt(m: Memory, a: seq<Node>, k: nat, i: nat)
    requires Members(m, a, k) && k < i < |a|
  {
    && m.node[a[i]].locked
    && (m.node[a[i]].pc == Link(a[i - 1]) || m.node[a[i]].pc == Spin)
    && m.node[a[i - 1]].next == (if m.node[a[i]].pc.Link? then None else Some(a[i]))
  }

  /** `tail_` points at the last of the queue, and every neighbouring pair is linked or being linked. */
  ghost predicate Links(m: Memory, a: seq<Node>, k: nat)
    requires Members(m, a, k)
  {
    && m.tail == (if k == |a| then None else Some(a[|a| - 1]))
    && (k < |a| ==> m.node[a[|a| - 1]].next == None)
    && (forall i :: k < i < |a| ==> WaitingAt(m, a, k, i))
  }

  /** The head of the queue holds the lock, or has been woken and is about to. */
  ghost predicate HeadInv(m: Memory, a: seq<Node>, k: nat)
    requires Members(m, a, k)
  {
    k < |a| ==>
      var head := m.node[a[k]];
      && (Holds(head.pc) || (head.pc == Spin && !head.locked))
      && (head.pc.LoadSuccessor? ==> head.next != None)
      && (head.pc.Wake? ==> head.next == Some(head.pc.succ))
  }

  ghost predicate PrivateInv(m: Memory) {
    forall w :: w in m.node ==>
      && (m.node[w].pc.ArmFlag? || m.node[w].pc.Exchange? ==> m.node[w].next == None)
      && (m.node[w].pc.Exchange? ==> m.node[w].locked)
  }

  /** The whole shape of the implicit queue. */
  ghost predicate Ordered(m: Memory, a: seq<Node>, k: nat) {
    Members(m, a, k) && Links(m, a, k) && HeadInv(m, a, k) && PrivateInv(m)
  }

  ghost predicate HeadHolds(m: Memory, a: seq<Node>, k: nat) {
    k < |a| && a[k] in m.node && Holds(m.node[a[k]].pc)
  }

  /** What an access of `w` does to the queue, and to whether the head of the queue holds the lock. */
  ghost predicate QueueMoves(m: Memory, a: seq<Node>, k: nat, w: Node, m': Memory, a': seq<Node>, k': nat)
    requires w in m.node && w in m'.node
  {
    var pc, pc', held, held' := m.node[w].pc, m'.node[w].pc, HeadHolds(m, a, k), HeadHolds(m', a', k');
    if pc.Exchange? then
      a' == a + [w] && k' == k <= |a| && (Holds(pc') <==> k == |a|) && (held' <==> held || k == |a|)
    else if !Holds(pc) && Holds(pc') then
      a' == a && k' == k < |a| && a[k] == w && !held && held'
    else if Holds(pc) && !Holds(pc') then
      a' == a && k' == k + 1 <= |a| && held && !held'
    else
      a' == a && k' == k && held == held'
  }

  /** lock has returned to exactly the first arrivals, in their order. */
  ghost predicate Inv(s: State) {
    && Ordered(s.m, s.arrivals, s.released)
    && s.grants == s.arrivals[..s.released + (if HeadHolds(s.m, s.arrivals, s.released) then 1 else 0)]
  }

  lemma InvInit(s: State)
    requires Init(s)
    ensures Inv(s)
  {
  }

  /** Where a queued waiter stands in the queue. */
  lemma Position(m: Memory, a: seq<Node>, k: nat, w: Node) returns (i: nat)
    requires Ordered(m, a, k) && w in m.node && Queued(m.node[w].pc)
    ensures k <= i < |a| && a[i] == w
    ensures Holds(m.node[w].pc) || !m.node[w].locked ==> i == k
    ensures m.node[w].pc.Link? ==> i > k && m.node[w].pc.prev == a[i - 1]
  {
    assert Stands(a, k, w);
    i :| k <= i < |a| && a[i] == w;
    assert i > k ==> WaitingAt(m, a, k, i);
  }

  /** Steps of a waiter outside the queue touch nothing the queue depends on. */
  lemma PrivateStep(m: Memory, a: seq<Node>, k: nat, w: Node, waiter: Waiter)
    requires Ordered(m, a, k) && w in m.node && !Queued(m.node[w].pc) && !Queued(waiter.pc)
    requires waiter.pc.ArmFlag? || waiter.pc.Exchange? ==> waiter.next == None
    requires waiter.pc.Exchange? ==> waiter.locked
    requires !m.node[w].pc.Exchange?
    ensures Ordered(Put(m, w, waiter), a, k)
    ensures QueueMoves(m, a, k, w, Put(m, w, waiter), a, k)
  {
    var m' := Put(m, w, waiter);
    assert Members(m', a, k);
    forall i | k < i < |a| ensures WaitingAt(m', a, k, i) { assert WaitingAt(m, a, k, i); }
  }

  lemma ExchangeStep(m: Memory, a: seq<Node>, k: nat, w: Node, spurious: bool)
    requires Ordered(m, a, k) && w in m.node && m.node[w].pc.Exchange?
    ensures Ordered(Act(m, w, spurious), a + [w], k)
    ensures QueueMoves(m, a, k, w, Act(m, w, spurious), a + [w], k)
  {
    var a', m' := a + [w], Act(m, w, spurious);
    assert Members(m', a', k) by {
      forall u | u in m'.node && Queued(m'.node[u].pc) ensures Stands(a', k, u) {
        if u == w {
          assert a'[|a|] == u;
        } else {
          var i := Position(m, a, k, u);
          assert a'[i] == u;
        }
      }
    }
    forall i | k < i < |a'| ensures WaitingAt(m', a', k, i) {
      if i < |a| { assert WaitingAt(m, a, k, i); }
    }
  }

  lemma LinkStep(m: Memory, a: seq<Node>, k: nat, w: Node, spurious: bool)
    requires Ordered(m, a, k) && w in m.node && m.node[w].pc.Link?
    ensures Dereferences(m, w) && Ordered(Act(m, w, spurious), a, k)
    ensures QueueMoves(m, a, k, w, Act(m, w, spurious), a, k)
  {
    var at := Position(m, a, k, w);
    var m' := Act(m, w, spurious);
    assert WaitingAt(m, a, k, at);
    assert Members(m', a, k);
    forall i | k < i < |a| ensures WaitingAt(m', a, k, i) { assert WaitingAt(m, a, k, i); }
  }

  /** A step at the head of the queue that keeps or takes the lock. */
  lemma HeadStep(m: Memory, a: seq<Node>, k: nat, w: Node, pc: Pc)
    requires Ordered(m, a, k) && w in m.node && Holds(pc)
    requires Holds(m.node[w].pc) || (m.node[w].pc.Spin? && !m.node[w].locked)
    requires pc.LoadSuccessor? ==> m.node[w].next != None
    requires pc.Wake? ==> m.node[w].next == Some(pc.succ)
    ensures Ordered(Goto(m, w, pc), a, k)
    ensures QueueMoves(m, a, k, w, Goto(m, w, pc), a, k)
  {
    var m' := Goto(m, w, pc);
    var at := Position(m, a, k, w);
    assert Members(m', a, k);
    forall i | k < i < |a| ensures WaitingAt(m', a, k, i) { assert WaitingAt(m, a, k, i); }
  }

  /** The holder leaves: by emptying the queue, or by waking the successor found in `next_`, the second in it. */
  lemma LeaveQueue(m: Memory, a: seq<Node>, k: nat, w: Node, spurious: bool)
    requires Ordered(m, a, k) && w in m.node
    requires m.node[w].pc.Wake? || (m.node[w].pc.TryEmpty? && m.tail == Some(w) && !spurious)
    ensures k < |a| && a[k] == w && HeadHolds(m, a, k)
    ensures m.node[w].pc.Wake? ==> k + 1 < |a| && a[k + 1] == m.node[w].pc.succ && m.node[a[k + 1]].pc.Spin?
    ensures m.node[w].pc.TryEmpty? ==> k + 1 == |a|
    ensures Dereferences(m, w) && Members(Act(m, w, spurious), a, k + 1)
  {
    var at := Position(m, a, k, w);
    if m.node[w].pc.Wake? { assert k + 1 < |a| && WaitingAt(m, a, k, k + 1); }
    var m', k' := Act(m, w, spurious), k + 1;
    forall u | u in m'.node && Queued(m'.node[u].pc) ensures Stands(a, k', u) {
      var i := Position(m, a, k, u);
    }
  }

  lemma ReleaseStep(m: Memory, a: seq<Node>, k: nat, w: Node, spurious: bool)
    requires Ordered(m, a, k) && w in m.node
    requires m.node[w].pc.Wake? || (m.node[w].pc.TryEmpty? && m.tail == Some(w) && !spurious)
    ensures Dereferences(m, w) && Ordered(Act(m, w, spurious), a, k + 1)
    ensures QueueMoves(m, a, k, w, Act(m, w, spurious), a, k + 1)
  {
    LeaveQueue(m, a, k, w, spurious);
    var m', k' := Act(m, w, spurious), k + 1;
    forall i | k' < i < |a| ensures WaitingAt(m', a, k', i) { assert WaitingAt(m, a, k, i); }
  }

  /** The other accesses: by a waiter outside the queue, or by one that holds the lock or finds it handed over. */
  lemma InPlaceStep(m: Memory, a: seq<Node>, k: nat, w: Node, spurious: bool)
    requires Ordered(m, a, k) && w in m.node && !m.node[w].pc.Exchange? && !m.node[w].pc.Link?
    requires !(m.node[w].pc.Wake? || (m.node[w].pc.TryEmpty? && m.tail == Some(w) && !spurious))
    ensures Ordered(Act(m, w, spurious), a, k)
    ensures QueueMoves(m, a, k, w, Act(m, w, spurious), a, k)
  {
    var m' := Act(m, w, spurious);
    if !Queued(m.node[w].pc) {
      PrivateStep(m, a, k, w, m'.node[w]);
    } else if m' != m {
      HeadStep(m, a, k, w, m'.node[w].pc);
    }
  }

  /** Every access keeps the queue in order, and none dereferences a dangling pointer. */
  lemma ActStep(m: Memory, a: seq<Node>, k: nat, w: Node, spurious: bool) returns (a': seq<Node>, k': nat)
    requires Ordered(m, a, k) && w in m.node
    ensures Dereferences(m, w) && Ordered(Act(m, w, spurious), a', k')
    ensures QueueMoves(m, a, k, w, Act(m, w, spurious), a', k')
  {
    a', k' := a, k;
    var pc := m.node[w].pc;
    if pc.Exchange? {
      ExchangeStep(m, a, k, w, spurious);
      a' := a + [w];
    } else if pc.Link? {
      LinkStep(m, a, k, w, spurious);
    } else if pc.Wake? || (pc.TryEmpty? && m.tail == Some(w) && !spurious) {
      ReleaseStep(m, a, k, w, spurious);
      k' := k + 1;
    } else {
      InPlaceStep(m, a, k, w, spurious);
    }
  }

  lemma InvStep(s: State, w: Node, spurious: bool)
    requires Inv(s) && w in s.m.node
    ensures Dereferences(s.m, w) && Inv(Step(s, w, spurious))
  {
    var a', k' := ActStep(s.m, s.arrivals, s.released, w, spurious);
    var s' := Step(s, w, spurious);
    assert s'.arrivals == a' && s'.released == k';
  }

  // ---------------------------------------------------------------- what the lock promises

  ghost predicate Reachable(s: State) {
    Runs.Reachable(Init, Next, s)
  }

  lemma ReachableInv(s: State)
    requires Reachable(s)
    ensures Inv(s)
  {
    forall s | Init(s) ensures Inv(s) { InvInit(s); }
    forall s, s' | Inv(s) && Next(s, s') ensures Inv(s') {
      var w, spurious :| w in s.m.node && Dereferences(s.m, w) && s' == Step(s, w, spurious);
      InvStep(s, w, spurious);
    }
    Runs.InvariantOfReachable(Init, Next, Inv, s);
  }

  /** At most one thread is between lock returning and unlock giving the lock up. */
  lemma MutualExclusion(s: State, w: Node, u: Node)
    requires Reachable(s) && w in s.m.node && u in s.m.node
    requires Holds(s.m.node[w].pc) && Holds(s.m.node[u].pc)
    ensures w == u
  {
    ReachableInv(s);
    var i := Position(s.m, s.arrivals, s.released, w);
    var j := Position(s.m, s.arrivals, s.released, u);
  }

  /**
   First come, first served: the order in which lock has returned is the order of the exchanges on
   `tail_`, and the waiters still without the lock are exactly the later arrivals.
   */
  lemma FirstComeFirstServed(s: State)
    requires Reachable(s)
    ensures s.grants <= s.arrivals
    ensures forall w :: w in s.m.node ==>
      (s.m.node[w].pc.Link? || s.m.node[w].pc.Spin? <==> Stands(s.arrivals, |s.grants|, w))
  {
    ReachableInv(s);
    var m, a, k, k' := s.m, s.arrivals, s.released, |s.grants|;
    forall w | w in m.node && (m.node[w].pc.Link? || m.node[w].pc.Spin?) ensures Stands(a, k', w) {
      var i := Position(m, a, k, w);
    }
    forall i | k' <= i < |a| ensures m.node[a[i]].pc.Link? || m.node[a[i]].pc.Spin? {
      assert i > k ==> WaitingAt(m, a, k, i);
    }
  }

  /** No access can change anything for the waiters in the queue: all of them spin on what nobody will store. */
  ghost predicate Stalled(m: Memory, a: seq<Node>, k: nat) {
    forall i :: k <= i < |a| && a[i] in m.node && Dereferences(m, a[i]) ==> Act(m, a[i], false) == m
  }

  /** An unlock that lost its compare-and-swap although nobody was behind it, and now waits for a successor. */
  ghost predicate Abandoned(m: Memory, a: seq<Node>, k: nat) {
    k + 1 == |a| && a[k] in m.node && m.node[a[k]].pc.AwaitNext?
  }

  /** A waiter can move, unless it spins on a value that another waiter has still to store. */
  lemma MovesUnless(m: Memory, a: seq<Node>, k: nat, w: Node)
    requires Ordered(m, a, k) && w in m.node && Queued(m.node[w].pc)
    ensures Dereferences(m, w)
    ensures Act(m, w, false) == m ==>
      (m.node[w].pc.Spin? && m.node[w].locked) || (m.node[w].pc.AwaitNext? && m.node[w].next == None)
  {
    var a', k' := ActStep(m, a, k, w, false);
    var m' := Act(m, w, false);
    assert m' == m ==> m'.node[w].pc == m.node[w].pc;
    if m.node[w].pc.LoadSuccessor? { var i := Position(m, a, k, w); }
  }

  lemma StalledIffAbandoned(m: Memory, a: seq<Node>, k: nat)
    requires Ordered(m, a, k) && k < |a|
    ensures Stalled(m, a, k) <==> Abandoned(m, a, k)
  {
    MovesUnless(m, a, k, a[k]);
    if k + 1 < |a| {
      assert WaitingAt(m, a, k, k + 1);
      MovesUnless(m, a, k, a[k + 1]);
    }
  }

  /** The only way a non-empty queue comes to a standstill is an abandoned unlock. */
  lemma StandstillIff(s: State)
    requires Reachable(s) && s.released < |s.arrivals|
    ensures Stalled(s.m, s.arrivals, s.released) <==> Abandoned(s.m, s.arrivals, s.released)
  {
    ReachableInv(s);
    StalledIffAbandoned(s.m, s.arrivals, s.released);
  }

  /** A single thread, using waiter 7, before and after its exchange. */
  ghost function Lone(tail: Option<Node>, pc: Pc): State {
    var history := if tail == None then [] else [7];
    State(Memory(tail, map[7 := Waiter(None, true, pc)]), history, history, 0)
  }

  lemma Take(s: State, w: Node, spurious: bool, s': State)
    requires Reachable(s) && w in s.m.node && Dereferences(s.m, w) && s' == Step(s, w, spurious)
    ensures Reachable(s')
  {
    assert Next(s, s');
    Runs.ReachableStep(Init, Next, s, s');
  }

  lemma LoneTake(tail: Option<Node>, pc: Pc, spurious: bool, tail': Option<Node>, pc': Pc)
    requires Reachable(Lone(tail, pc)) && !pc.Link? && !pc.Wake?
    requires var s, s' := Step(Lone(tail, pc), 7, spurious), Lone(tail', pc');
      && s.(m := s'.m) == s' && s.m.tail == tail'
      && s.m.node.Keys == {7} && s.m.node[7] == Waiter(None, true, pc')
    ensures Reachable(Lone(tail', pc'))
  {
    var s, s' := Lone(tail, pc), Lone(tail', pc');
    assert Act(s.m, 7, spurious) == s'.m;
    Take(s, 7, spurious, s');
  }

  lemma LoneClear()
    ensures Reachable(Lone(None, ClearNext))
  {
    Runs.ReachableInit(Init, Next, Lone(None, Idle));
    LoneTake(None, Idle, false, None, ClearNext);
  }

  lemma LoneArm()
    ensures Reachable(Lone(None, ArmFlag))
  {
    LoneClear();
    LoneTake(None, ClearNext, false, None, ArmFlag);
  }

  lemma LoneArrival()
    ensures Reachable(Lone(None, Exchange))
  {
    LoneArm();
    LoneTake(None, ArmFlag, false, None, Exchange);
  }

  lemma LoneEntry()
    ensures Reachable(Lone(Some(7), Critical))
  {
    LoneArrival();
    LoneTake(None, Exchange, false, Some(7), Critical);
  }

  lemma LoneLoad()
    ensures Reachable(Lone(Some(7), LoadNext))
  {
    LoneEntry();
    LoneTake(Some(7), Critical, false, Some(7), LoadNext);
  }

  lemma LoneUnlock()
    ensures Reachable(Lone(Some(7), TryEmpty))
  {
    LoneLoad();
    LoneTake(Some(7), LoadNext, false, Some(7), TryEmpty);
  }

  /** One thread alone, one spurious failure: its unlock never returns, whatever happens next. */
  lemma SpuriousFailureCanStall() returns (s: State)
    ensures Reachable(s) && s.released < |s.arrivals| && Stalled(s.m, s.arrivals, s.released)
    ensures s.m.node.Keys == {7} && s.m.node[7].pc == AwaitNext && forall s' :: Next(s, s') ==> s' == s
  {
    LoneUnlock();
    s := Lone(Some(7), AwaitNext);
    LoneTake(Some(7), TryEmpty, true, Some(7), AwaitNext);
    StandstillIff(s);
  }

  lemma StrongActNeverAbandons(m: Memory, a: seq<Node>, k: nat, w: Node, a': seq<Node>, k': nat)
    requires Ordered(m, a, k) && w in m.node && Dereferences(m, w) && !Abandoned(m, a, k)
    requires Ordered(Act(m, w, false), a', k') && QueueMoves(m, a, k, w, Act(m, w, false), a', k')
    ensures !Abandoned(Act(m, w, false), a', k')
  {
    if Queued(m.node[w].pc) {
      var i := Position(m, a, k, w);
    }
  }

  ghost predicate InvStrong(s: State) {
    Inv(s) && !Abandoned(s.m, s.arrivals, s.released)
  }

  lemma StrongStep(s: State, s': State)
    requires InvStrong(s) && NextStrong(s, s')
    ensures InvStrong(s')
  {
    var w :| w in s.m.node && Dereferences(s.m, w) && s' == Step(s, w, false);
    var a', k' := ActStep(s.m, s.arrivals, s.released, w, false);
    InvStep(s, w, false);
    StrongActNeverAbandons(s.m, s.arrivals, s.released, w, a', k');
  }

  lemma StrongReachableInv(s: State)
    requires Runs.Reachable(Init, NextStrong, s)
    ensures InvStrong(s)
  {
    forall s | Init(s) ensures InvStrong(s) { InvInit(s); }
    forall s, s' | InvStrong(s) && NextStrong(s, s') ensures InvStrong(s') { StrongStep(s, s'); }
    Runs.InvariantOfReachable(Init, NextStrong, InvStrong, s);
  }

  /** If compare-and-swap never fails spuriously, a non-empty queue always has a thread that can move on. */
  lemma NoStandstillWithoutSpuriousFailure(s: State)
    requires Runs.Reachable(Init, NextStrong, s) && s.released < |s.arrivals|
    ensures !Stalled(s.m, s.arrivals, s.released)
  {
    StrongReachableInv(s);
    StalledIffAbandoned(s.m, s.arrivals, s.released);
  }

  // ---------------------------------------------------------------- the queue drains

  /** How many more of its own accesses a waiter needs at most to leave the queue. */
  function Rank(pc: Pc): nat {
    match pc
    case Link(_) => 9
    case Spin => 8
    case Critical => 7
    case LoadNext => 6
    case TryEmpty => 5
    case AwaitNext => 4
    case LoadSuccessor => 3
    case Wake(_) => 2
    case _ => 0
  }

  /** The ranks of the waiters in the queue, taken together. */
  ghost function QueueRank(m: Memory, a: seq<Node>, k: nat): nat
    decreases |a| - k
  {
    if k >= |a| then 0
    else (if a[k] in m.node then Rank(m.node[a[k]].pc) else 0) + QueueRank(m, a, k + 1)
  }

  lemma {:induction false} RankBound(m: Memory, a: seq<Node>, k: nat)
    requires k <= |a|
    ensures QueueRank(m, a, k) <= 9 * (|a| - k)
    decreases |a| - k
  {
    if k < |a| { RankBound(m, a, k + 1); }
  }

  /** Changing program counters of the waiters from position `k` on, downwards, changes the rank downwards. */
  lemma {:induction false} RankMonotone(m: Memory, m': Memory, a: seq<Node>, k: nat)
    requires k <= |a|
    requires forall i :: k <= i < |a| ==> a[i] in m.node && a[i] in m'.node
    requires forall i :: k <= i < |a| ==> Rank(m'.node[a[i]].pc) <= Rank(m.node[a[i]].pc)
    ensures QueueRank(m', a, k) <= QueueRank(m, a, k)
    ensures (exists i :: k <= i < |a| && Rank(m'.node[a[i]].pc) < Rank(m.node[a[i]].pc)) ==>
      QueueRank(m', a, k) < QueueRank(m, a, k)
    decreases |a| - k
  {
    if k < |a| {
      RankMonotone(m, m', a, k + 1);
    }
  }

  /** A step by a waiter in the queue that changes anything lowers the waiter's own rank, and no other program counter. */
  lemma OwnRankFalls(m: Memory, a: seq<Node>, k: nat, w: Node)
    requires Ordered(m, a, k) && w in m.node && Queued(m.node[w].pc) && Dereferences(m, w)
    ensures var m' := Act(m, w, false);
      && m'.node.Keys == m.node.Keys
      && (forall u :: u in m.node && u != w ==> m'.node[u].pc == m.node[u].pc)
      && (m' != m ==> Rank(m'.node[w].pc) < Rank(m.node[w].pc))
  {
    var i := Position(m, a, k, w);
  }

  /** A step by a waiter in the queue, which changes something. */
  ghost predicate Progress(s: State, s': State) {
    exists w :: w in s.m.node && Queued(s.m.node[w].pc) && Dereferences(s.m, w) && s' == Step(s, w, false) && s' != s
  }

  lemma UnchangedMemoryIsUnchanged(s: State, w: Node)
    requires w in s.m.node && Queued(s.m.node[w].pc) && Dereferences(s.m, w)
    ensures Act(s.m, w, false) == s.m ==> Step(s, w, false) == s
  {
  }

  /** Without arrivals and spurious failures every change brings the queue closer to being empty. */
  lemma RankFalls(s: State, s': State)
    requires Inv(s) && Progress(s, s')
    ensures s'.arrivals == s.arrivals && s.released <= s'.released <= |s'.arrivals|
    ensures QueueRank(s'.m, s'.arrivals, s'.released) < QueueRank(s.m, s.arrivals, s.released)
  {
    var w :| w in s.m.node && Queued(s.m.node[w].pc) && Dereferences(s.m, w) && s' == Step(s, w, false) && s' != s;
    var a, k := s.arrivals, s.released;
    UnchangedMemoryIsUnchanged(s, w);
    OwnRankFalls(s.m, a, k, w);
    InvStep(s, w, false);
    var i := Position(s.m, a, k, w);
    RankMonotone(s.m, s'.m, a, k);
    if s'.released == k + 1 {
      assert QueueRank(s'.m, a, k) >= QueueRank(s'.m, a, k + 1);
    }
  }

  /** Successive changes, by waiters in the queue only. */
  ghost predicate Drains(run: seq<State>) {
    |run| > 0 && forall i :: 0 <= i < |run| - 1 ==> Progress(run[i], run[i + 1])
  }

  lemma ProgressIsStrong(s: State, s': State)
    requires InvStrong(s) && Progress(s, s')
    ensures InvStrong(s')
  {
    assert NextStrong(s, s');
    StrongStep(s, s');
  }

  lemma {:induction false} DrainBound(run: seq<State>, i: nat)
    requires Drains(run) && InvStrong(run[0]) && i < |run|
    ensures InvStrong(run[i])
    ensures i + QueueRank(run[i].m, run[i].arrivals, run[i].released)
            <= QueueRank(run[0].m, run[0].arrivals, run[0].released)
    decreases i
  {
    if i > 0 {
      DrainBound(run, i - 1);
      assert Progress(run[i - 1], run[i - 1 + 1]);
      ProgressIsStrong(run[i - 1], run[i]);
      RankFalls(run[i - 1], run[i]);
    }
  }

  /**
   If compare-and-swap never fails spuriously and nobody arrives, the queue drains: its waiters can
   change something only boundedly often, and when they cannot change anything any more, all have
   come and gone.
   */
  lemma QueueDrains(run: seq<State>)
    requires Drains(run) && Runs.Reachable(Init, NextStrong, run[0])
    ensures |run| - 1 <= QueueRank(run[0].m, run[0].arrivals, run[0].released)
                      <= 9 * (|run[0].arrivals| - run[0].released)
    ensures var last := run[|run| - 1];
      (forall s' :: !Progress(last, s')) ==> last.released == |last.arrivals|
  {
    StrongReachableInv(run[0]);
    RankBound(run[0].m, run[0].arrivals, run[0].released);
    DrainBound(run, |run| - 1);
    var s := run[|run| - 1];
    if s.released < |s.arrivals| {
      StalledIffAbandoned(s.m, s.arrivals, s.released);
      var i :| s.released <= i < |s.arrivals| && s.arrivals[i] in s.m.node && Dereferences(s.m, s.arrivals[i])
        && Act(s.m, s.arrivals[i], false) != s.m;
      assert Progress(s, Step(s, s.arrivals[i], false));
    }
  }
}
