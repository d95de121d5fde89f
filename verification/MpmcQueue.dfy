/**
 The bounded multi-producer multi-consumer queue. Every slot carries a sequence number; a producer
 claims ticket `p` by moving the tail from `p` to `p + 1`, a consumer claims it by moving the head.
 One call of `Step` is one atomic access by one thread; interleavings, the number of threads and
 spurious failures of the weak compare-and-swap are unrestricted.
 */
module MpmcQueue {
  import opened Arithmetic
  import Runs

  type Value = int
  type Tid = nat

  datatype Slot = Slot(value: Value, seqno: nat)

  /** Where a thread stands inside `push` (Enq...) or `try_pop` (Pop...). */
  datatype Pc =
    | Idle
    | EnqLoadTail(v: Value)
    | EnqLoadSeq(v: Value, pos: nat)
    | EnqClaim(v: Value, pos: nat)
    | EnqWrite(v: Value, pos: nat)
    | EnqPublish(v: Value, pos: nat)
    | EnqFull(v: Value)                   // try_enqueue returned false; push yields and calls it again
    | PopLoadHead
    | PopLoadSeq(pos: nat)
    | PopClaim(pos: nat)
    | PopRead(pos: nat)
    | PopRelease(pos: nat, out: Value)
    | PopEmpty                            // try_pop is about to return false

  /** What the environment decides: which call an idle thread makes, whether a weak CAS fails spuriously. */
  datatype Event = CallPush(v: Value) | CallPop | Proceed | SpuriousFailure

  /**
   `sent` and `got` are history: `sent[p]` is the argument of the push that claimed ticket `p`,
   `got[p]` what the consumer of ticket `p` copied out.
   */
  datatype State = State(
    capacity: nat, slots: seq<Slot>, head: nat, tail: nat, pc: map<Tid, Pc>,
    sent: seq<Value>, got: map<nat, Value>)

  ghost predicate WellFormed(s: State) {
    s.capacity >= 1 && |s.slots| == s.capacity
  }

  /** The constructor: slot `i` starts with sequence number `i`. */
  ghost predicate Init(s: State) {
    && WellFormed(s)
    && (forall i :: 0 <= i < s.capacity ==> s.slots[i].seqno == i)
    && s.head == 0 && s.tail == 0
    && (forall t :: t in s.pc ==> s.pc[t] == Idle)
    && s.sent == [] && s.got == map[]
  }

  function Goto(s: State, t: Tid, pc: Pc): State {
    s.(pc := s.pc[t := pc])
  }

  /** Ticket `pos` lives in slot `pos` modulo the capacity (`WrapIsModulo`). */
  function Cell(s: State, pos: nat): Slot
    requires WellFormed(s)
  {
    s.slots[Wrap(pos, s.capacity)]
  }

  function StoreCell(s: State, pos: nat, c: Slot): State
    requires WellFormed(s)
  {
    s.(slots := s.slots[Wrap(pos, s.capacity) := c])
  }

  function Step(s: State, t: Tid, e: Event): State
    requires WellFormed(s) && t in s.pc
  {
    match s.pc[t]
    case Idle =>
      if e.CallPush? then Goto(s, t, EnqLoadTail(e.v)) else if e.CallPop? then Goto(s, t, PopLoadHead) else s
    case EnqLoadTail(v) => Goto(s, t, EnqLoadSeq(v, s.tail))
    case EnqLoadSeq(v, pos) =>
      var dif := Cell(s, pos).seqno - pos;
      Goto(s, t, if dif == 0 then EnqClaim(v, pos) else if dif < 0 then EnqFull(v) else EnqLoadTail(v))
    case EnqClaim(v, pos) =>
      if s.tail == pos && !e.SpuriousFailure?
      then Goto(s.(tail := pos + 1, sent := s.sent + [v]), t, EnqWrite(v, pos))
      else Goto(s, t, EnqLoadSeq(v, s.tail))
    case EnqWrite(v, pos) =>
      Goto(StoreCell(s, pos, Cell(s, pos).(value := v)), t, EnqPublish(v, pos))
    case EnqPublish(v, pos) =>
      Goto(StoreCell(s, pos, Cell(s, pos).(seqno := pos + 1)), t, Idle)
    case EnqFull(v) => Goto(s, t, EnqLoadTail(v))
    case PopLoadHead => Goto(s, t, PopLoadSeq(s.head))
    case PopLoadSeq(pos) =>
      var dif := Cell(s, pos).seqno - (pos + 1);
      Goto(s, t, if dif == 0 then PopClaim(pos) else if dif < 0 then PopEmpty else PopLoadHead)
    case PopClaim(pos) =>
      if s.head == pos && !e.SpuriousFailure?
      then Goto(s.(head := pos + 1), t, PopRead(pos))
      else Goto(s, t, PopLoadSeq(s.head))
    case PopRead(pos) =>
      var out := Cell(s, pos).value;
      Goto(s.(got := s.got[pos := out]), t, PopRelease(pos, out))
    case PopRelease(pos, _) =>
      Goto(StoreCell(s, pos, Cell(s, pos).(seqno := pos + s.capacity)), t, Idle)
    case PopEmpty => Goto(s, t, Idle)
  }

  ghost predicate Next(s: State, s': State) {
    && WellFormed(s)
    && exists t: Tid, e: Event :: t in s.pc && s' == Step(s, t, e)
  }

  // ---------------------------------------------------------------- invariant

  predicate Producing(pc: Pc, p: nat) {
    (pc.EnqWrite? || pc.EnqPublish?) && pc.pos == p
  }

  predicate Consuming(pc: Pc, p: nat) {
    (pc.PopRead? || pc.PopRelease?) && pc.pos == p
  }

  ghost predicate Producer(s: State, p: nat) {
    exists t :: t in s.pc && Producing(s.pc[t], p)
  }

  ghost predicate Consumer(s: State, p: nat) {
    exists t :: t in s.pc && Consuming(s.pc[t], p)
  }

  /** Ticket `p` is claimed but not delivered: its producer is still at work, or its value is published. */
  ghost predicate FullTicket(s: State, p: nat)
    requires WellFormed(s)
  {
    if Cell(s, p).seqno == p then Producer(s, p)
    else Cell(s, p).seqno == p + 1 && p < |s.sent| && Cell(s, p).value == s.sent[p]
  }

  /** Ticket `p` is next to be claimed in its slot: the slot is free, or its previous consumer has still to free it. */
  ghost predicate FreeTicket(s: State, p: nat)
    requires WellFormed(s)
  {
    Cell(s, p).seqno == p
    || (p >= s.capacity && Cell(s, p).seqno == p - s.capacity + 1 && Consumer(s, p - s.capacity))
  }

  /** The slots hold the tickets head, ..., head + capacity - 1, one each. */
  ghost predicate SlotsInv(s: State)
    requires WellFormed(s)
  {
    && (forall p: nat :: s.head <= p < s.tail ==> FullTicket(s, p))
    && (forall p: nat :: s.tail <= p < s.head + s.capacity ==> FreeTicket(s, p))
  }

  ghost predicate ThreadInv(s: State, pc: Pc)
    requires WellFormed(s) && s.head <= s.tail == |s.sent|
  {
    match pc
    case EnqLoadSeq(_, pos) => pos <= s.tail
    case EnqClaim(_, pos) => pos < s.tail || (pos == s.tail && Cell(s, pos).seqno == pos)
    case EnqWrite(v, pos) => s.head <= pos < s.tail && Cell(s, pos).seqno == pos && s.sent[pos] == v
    case EnqPublish(v, pos) => s.head <= pos < s.tail && Cell(s, pos) == Slot(v, pos) && s.sent[pos] == v
    case PopLoadSeq(pos) => pos <= s.head
    case PopClaim(pos) => pos < s.head || (pos == s.head && Cell(s, pos).seqno == pos + 1)
    case PopRead(pos) =>
      && pos < s.head && s.tail <= pos + s.capacity && pos !in s.got
      && Cell(s, pos) == Slot(s.sent[pos], pos + 1)
    case PopRelease(pos, out) =>
      && pos < s.head && s.tail <= pos + s.capacity && pos in s.got
      && Cell(s, pos).seqno == pos + 1 && out == s.sent[pos]
    case _ => true
  }

  ghost predicate ThreadsInv(s: State)
    requires WellFormed(s) && s.head <= s.tail == |s.sent|
  {
    forall t :: t in s.pc ==> ThreadInv(s, s.pc[t])
  }

  /** A ticket is in the hands of at most one producer and at most one consumer. */
  ghost predicate OneOwner(s: State) {
    && (forall t, u, p: nat :: t in s.pc && u in s.pc && Producing(s.pc[t], p) && Producing(s.pc[u], p) ==> t == u)
    && (forall t, u, p: nat :: t in s.pc && u in s.pc && Consuming(s.pc[t], p) && Consuming(s.pc[u], p) ==> t == u)
  }

  /** Nothing is delivered wrongly, and a claimed ticket is delivered or is just being read. */
  ghost predicate HistoryInv(s: State) {
    && s.head <= |s.sent|
    && (forall p :: p in s.got ==> p < s.head && s.got[p] == s.sent[p])
    && (forall p: nat :: p < s.head && p !in s.got ==> Consumer(s, p))
  }

  ghost predicate Inv(s: State) {
    && WellFormed(s) && s.capacity >= 2
    && s.head <= s.tail <= s.head + s.capacity
    && s.tail == |s.sent|
    && SlotsInv(s)
    && ThreadsInv(s)
    && OneOwner(s)
    && HistoryInv(s)
  }

  // ---------------------------------------------------------------- the invariant is kept

  /** Storing into the slot of `pos` leaves the slots of all nearby tickets alone, except pos + capacity's. */
  lemma StoreCellFrame(s: State, pos: nat, c: Slot)
    requires WellFormed(s)
    ensures Cell(StoreCell(s, pos, c), pos) == c
    ensures Cell(s, pos + s.capacity) == Cell(s, pos)
    ensures Cell(StoreCell(s, pos, c), pos + s.capacity) == c
    ensures forall p: nat :: p < pos < p + s.capacity || pos < p < pos + s.capacity
              || pos + s.capacity < p < pos + s.capacity + s.capacity
              ==> Cell(StoreCell(s, pos, c), p) == Cell(s, p)
  {
    WrapOffset(pos, s.capacity, s.capacity);
    forall p: nat | p < pos < p + s.capacity || pos < p < pos + s.capacity
        || pos + s.capacity < p < pos + s.capacity + s.capacity
      ensures Cell(StoreCell(s, pos, c), p) == Cell(s, p)
    {
      if p < pos { WrapOffset(p, pos - p, s.capacity); }
      else if p < pos + s.capacity { WrapOffset(pos, p - pos, s.capacity); }
      else { WrapOffset(pos + s.capacity, p - pos - s.capacity, s.capacity); }
    }
  }

  lemma InvInit(s: State)
    requires Init(s) && s.capacity >= 2
    ensures Inv(s)
  {
    forall p: nat | p < s.capacity ensures Cell(s, p).seqno == p {
      assert Wrap(p, s.capacity) == p;
    }
  }

  /** What thread `t` moving to `pc` does to the owners of tickets. */
  lemma OwnersAfter(s: State, s': State, t: Tid, pc: Pc)
    requires t in s.pc && s'.pc == s.pc[t := pc] && OneOwner(s)
    requires forall p: nat :: Producing(pc, p) ==> Producing(s.pc[t], p) || !Producer(s, p)
    requires forall p: nat :: Consuming(pc, p) ==> Consuming(s.pc[t], p) || !Consumer(s, p)
    ensures OneOwner(s')
    ensures forall p :: Producer(s, p) && !Producing(s.pc[t], p) ==> Producer(s', p)
    ensures forall p :: Consumer(s, p) && !Consuming(s.pc[t], p) ==> Consumer(s', p)
    ensures forall p :: Producing(pc, p) ==> Producer(s', p)
    ensures forall p :: Consuming(pc, p) ==> Consumer(s', p)
  {
    forall p | Producer(s, p) && !Producing(s.pc[t], p) ensures Producer(s', p) {
      var u :| u in s.pc && Producing(s.pc[u], p);
      assert u in s'.pc && Producing(s'.pc[u], p);
    }
    forall p | Consumer(s, p) && !Consuming(s.pc[t], p) ensures Consumer(s', p) {
      var u :| u in s.pc && Consuming(s.pc[u], p);
      assert u in s'.pc && Consuming(s'.pc[u], p);
    }
    assert t in s'.pc && s'.pc[t] == pc;
  }

  /** A step that changes only the thread's own program counter, and neither takes nor gives up a ticket. */
  lemma QuietStep(s: State, t: Tid, pc: Pc)
    requires Inv(s) && t in s.pc && ThreadInv(s, pc)
    requires !(pc.EnqWrite? || pc.EnqPublish? || pc.PopRead? || pc.PopRelease?)
    requires !(s.pc[t].EnqWrite? || s.pc[t].EnqPublish? || s.pc[t].PopRead? || s.pc[t].PopRelease?)
    ensures Inv(Goto(s, t, pc))
  {
    var s' := Goto(s, t, pc);
    OwnersAfter(s, s', t, pc);
    forall p: nat | s.head <= p < s.tail ensures FullTicket(s', p) { assert FullTicket(s, p); }
    forall p: nat | s.tail <= p < s.head + s.capacity ensures FreeTicket(s', p) { assert FreeTicket(s, p); }
  }

  /** With two slots or more, a slot that looks free for ticket `tail` is free. */
  lemma RoomAtTail(s: State)
    requires Inv(s) && Cell(s, s.tail).seqno == s.tail
    ensures s.tail < s.head + s.capacity
  {
    WrapOffset(s.head, s.capacity, s.capacity);
    assert s.tail > s.head ==> FullTicket(s, s.head);
  }

  lemma ClaimTailSlots(s: State, t: Tid, s': State)
    requires Inv(s) && t in s.pc && s.pc[t].EnqClaim? && s.tail == s.pc[t].pos && s.tail < s.head + s.capacity
    requires s' == Goto(s.(tail := s.tail + 1, sent := s.sent + [s.pc[t].v]), t, EnqWrite(s.pc[t].v, s.tail))
    requires FreeTicket(s, s.tail) && Cell(s, s.tail).seqno == s.tail && Producer(s', s.tail)
    requires forall p :: Producer(s, p) ==> Producer(s', p)
    requires forall p :: Consumer(s, p) ==> Consumer(s', p)
    ensures SlotsInv(s')
  {
    forall p: nat | s'.head <= p < s'.tail ensures FullTicket(s', p) {
      if p < s.tail { assert FullTicket(s, p); }
    }
    forall p: nat | s'.tail <= p < s'.head + s.capacity ensures FreeTicket(s', p) { assert FreeTicket(s, p); }
  }

  lemma ClaimTail(s: State, t: Tid, e: Event)
    requires Inv(s) && t in s.pc && s.pc[t].EnqClaim? && s.tail == s.pc[t].pos && !e.SpuriousFailure?
    ensures Inv(Step(s, t, e))
  {
    var s', pos := Step(s, t, e), s.pc[t].pos;
    assert ThreadInv(s, s.pc[t]);
    RoomAtTail(s);
    OwnersAfter(s, s', t, s'.pc[t]);
    assert FreeTicket(s, pos) && Producing(s'.pc[t], pos);
    ClaimTailSlots(s, t, s');
    ClaimTailThreads(s, t, s');
  }

  lemma ClaimTailThreads(s: State, t: Tid, s': State)
    requires Inv(s) && t in s.pc && s.pc[t].EnqClaim? && s.tail == s.pc[t].pos && s.tail < s.head + s.capacity
    requires s' == Goto(s.(tail := s.tail + 1, sent := s.sent + [s.pc[t].v]), t, EnqWrite(s.pc[t].v, s.tail))
    requires Cell(s, s.tail).seqno == s.tail
    ensures ThreadsInv(s')
  {
    forall u | u in s'.pc ensures ThreadInv(s', s'.pc[u]) {
      if u != t {
        assert ThreadInv(s, s.pc[u]);
        if s.pc[u].PopRead? || s.pc[u].PopRelease? { WrapOffset(s.pc[u].pos, s.capacity, s.capacity); }
      }
    }
  }

  lemma ClaimHead(s: State, t: Tid, e: Event)
    requires Inv(s) && t in s.pc && s.pc[t].PopClaim? && s.head == s.pc[t].pos && !e.SpuriousFailure?
    ensures s.head < s.tail
    ensures Inv(Step(s, t, e))
  {
    var s', pos := Step(s, t, e), s.pc[t].pos;
    assert ThreadInv(s, s.pc[t]);
    assert s.head < s.tail by { assert s.tail == s.head ==> FreeTicket(s, s.head); }
    assert FullTicket(s, pos);
    OwnersAfter(s, s', t, s'.pc[t]);
    WrapOffset(pos, s.capacity, s.capacity);
    assert SlotsInv(s') by {
      forall p: nat | s'.head <= p < s'.tail ensures FullTicket(s', p) { assert FullTicket(s, p); }
      forall p: nat | s'.tail <= p < s'.head + s.capacity ensures FreeTicket(s', p) {
        if p < pos + s.capacity { assert FreeTicket(s, p); }
      }
    }
    assert ThreadsInv(s') by {
      forall u | u in s'.pc ensures ThreadInv(s', s'.pc[u]) {
        if u != t { assert ThreadInv(s, s.pc[u]); }
      }
    }
  }

  lemma ProducerStoreSlots(s: State, t: Tid, e: Event)
    requires Inv(s) && t in s.pc && (s.pc[t].EnqWrite? || s.pc[t].EnqPublish?)
    ensures SlotsInv(Step(s, t, e))
  {
    var s', pos := Step(s, t, e), s.pc[t].pos;
    assert ThreadInv(s, s.pc[t]);
    StoreCellFrame(s, pos, Cell(s', pos));
    OwnersAfter(s, s', t, s'.pc[t]);
    forall p: nat | s'.head <= p < s'.tail ensures FullTicket(s', p) { assert FullTicket(s, p); }
    forall p: nat | s'.tail <= p < s'.head + s.capacity ensures FreeTicket(s', p) { assert FreeTicket(s, p); }
  }

  /** The producer of ticket `pos` stores into its slot: the value, or the published sequence number. */
  lemma ProducerStore(s: State, t: Tid, e: Event)
    requires Inv(s) && t in s.pc && (s.pc[t].EnqWrite? || s.pc[t].EnqPublish?)
    ensures Inv(Step(s, t, e))
  {
    var s', pos := Step(s, t, e), s.pc[t].pos;
    assert ThreadInv(s, s.pc[t]);
    ProducerStoreSlots(s, t, e);
    StoreCellFrame(s, pos, Cell(s', pos));
    OwnersAfter(s, s', t, s'.pc[t]);
    assert ThreadsInv(s') by {
      forall u | u in s'.pc ensures ThreadInv(s', s'.pc[u]) {
        if u != t {
          assert ThreadInv(s, s.pc[u]);
          assert Producing(s.pc[t], pos) && !Producing(s.pc[u], pos);
        }
      }
    }
  }

  lemma CopyOut(s: State, t: Tid, e: Event)
    requires Inv(s) && t in s.pc && s.pc[t].PopRead?
    ensures Inv(Step(s, t, e))
  {
    var s', pos := Step(s, t, e), s.pc[t].pos;
    assert ThreadInv(s, s.pc[t]);
    OwnersAfter(s, s', t, s'.pc[t]);
    assert SlotsInv(s') by {
      forall p: nat | s'.head <= p < s'.tail ensures FullTicket(s', p) { assert FullTicket(s, p); }
      forall p: nat | s'.tail <= p < s'.head + s.capacity ensures FreeTicket(s', p) { assert FreeTicket(s, p); }
    }
    assert ThreadsInv(s') by {
      forall u | u in s'.pc ensures ThreadInv(s', s'.pc[u]) {
        if u != t { assert ThreadInv(s, s.pc[u]); }
      }
    }
  }

  lemma ReleaseSlot(s: State, t: Tid, e: Event)
    requires Inv(s) && t in s.pc && s.pc[t].PopRelease?
    ensures Inv(Step(s, t, e))
  {
    var s', pos := Step(s, t, e), s.pc[t].pos;
    assert ThreadInv(s, s.pc[t]);
    StoreCellFrame(s, pos, Cell(s', pos));
    OwnersAfter(s, s', t, s'.pc[t]);
    assert SlotsInv(s') by {
      forall p: nat | s'.head <= p < s'.tail ensures FullTicket(s', p) { assert FullTicket(s, p); }
      forall p: nat | s'.tail <= p < s'.head + s.capacity ensures FreeTicket(s', p) { assert FreeTicket(s, p); }
    }
    assert ThreadsInv(s') by {
      forall u | u in s'.pc ensures ThreadInv(s', s'.pc[u]) {
        if u != t {
          assert ThreadInv(s, s.pc[u]);
          assert Consuming(s.pc[t], pos) && !Consuming(s.pc[u], pos);
        }
      }
    }
  }

  /** Loads, failed claims, and entering or leaving a call. */
  lemma LoadStep(s: State, t: Tid, e: Event)
    requires Inv(s) && t in s.pc
    requires s.pc[t].Idle? || s.pc[t].EnqLoadTail? || s.pc[t].EnqLoadSeq? || s.pc[t].EnqFull? || s.pc[t].PopLoadHead?
      || s.pc[t].PopLoadSeq? || s.pc[t].PopEmpty?
      || (s.pc[t].EnqClaim? && (s.tail != s.pc[t].pos || e.SpuriousFailure?))
      || (s.pc[t].PopClaim? && (s.head != s.pc[t].pos || e.SpuriousFailure?))
    ensures Step(s, t, e) == s || (
      var pc := Step(s, t, e).pc[t];
      Step(s, t, e) == Goto(s, t, pc) && ThreadInv(s, pc)
      && !(pc.EnqWrite? || pc.EnqPublish? || pc.PopRead? || pc.PopRelease?))
  {
    assert ThreadInv(s, s.pc[t]);
  }

  lemma InvStep(s: State, t: Tid, e: Event)
    requires Inv(s) && t in s.pc
    ensures Inv(Step(s, t, e))
  {
    var pc := s.pc[t];
    if pc.EnqClaim? && s.tail == pc.pos && !e.SpuriousFailure? {
      ClaimTail(s, t, e);
    } else if pc.PopClaim? && s.head == pc.pos && !e.SpuriousFailure? {
      ClaimHead(s, t, e);
    } else if pc.EnqWrite? || pc.EnqPublish? {
      ProducerStore(s, t, e);
    } else if pc.PopRead? {
      CopyOut(s, t, e);
    } else if pc.PopRelease? {
      ReleaseSlot(s, t, e);
    } else {
      LoadStep(s, t, e);
      if Step(s, t, e) != s { QuietStep(s, t, Step(s, t, e).pc[t]); }
    }
  }

  // ---------------------------------------------------------------- what the queue promises

  /** The abstract queue: what has been claimed for sending and not yet claimed for receiving. */
  ghost function Queue(s: State): seq<Value>
    requires s.head <= s.tail <= |s.sent|
  {
    s.sent[s.head..s.tail]
  }

  lemma Grown(sent: seq<Value>, head: nat, v: Value)
    requires head <= |sent|
    ensures (sent + [v])[head..|sent| + 1] == sent[head..|sent|] + [v]
  {
  }

  /** Only the two claims move head, tail and the record of what was sent. */
  lemma ClaimsMove(s: State, t: Tid, e: Event)
    requires WellFormed(s) && t in s.pc
    ensures var s' := Step(s, t, e);
      if s.pc[t].EnqClaim? && s'.pc[t].EnqWrite? then
        s.tail == s.pc[t].pos && s'.head == s.head && s'.tail == s.tail + 1 && s'.sent == s.sent + [s.pc[t].v]
      else if s.pc[t].PopClaim? && s'.pc[t].PopRead? then
        s.head == s.pc[t].pos == s'.pc[t].pos && s'.head == s.head + 1 && s'.tail == s.tail && s'.sent == s.sent
      else s'.head == s.head && s'.tail == s.tail && s'.sent == s.sent
  {
  }

  /**
   Every step is invisible or one operation of a bounded FIFO queue: a successful claim of the tail
   appends to a queue that is not full, a successful claim of the head takes the oldest element, and
   what the popping thread later copies out is exactly that element.
   */
  lemma StepRefinesFifo(s: State, t: Tid, e: Event)
    requires Inv(s) && t in s.pc
    ensures Inv(Step(s, t, e))
    ensures var s' := Step(s, t, e);
      if s.pc[t].EnqClaim? && s'.pc[t].EnqWrite? then
        |Queue(s)| < s.capacity && Queue(s') == Queue(s) + [s.pc[t].v]
      else if s.pc[t].PopClaim? && s'.pc[t].PopRead? then
        Queue(s) == [s.sent[s'.pc[t].pos]] + Queue(s')
      else Queue(s') == Queue(s)
    ensures s.pc[t].PopRelease? ==> s.pc[t].out == s.sent[s.pc[t].pos] == s.got[s.pc[t].pos]
  {
    InvStep(s, t, e);
    assert ThreadInv(s, s.pc[t]);
    ClaimsMove(s, t, e);
    if s.pc[t].EnqClaim? && Step(s, t, e).pc[t].EnqWrite? {
      RoomAtTail(s);
      Grown(s.sent, s.head, s.pc[t].v);
    }
    if s.pc[t].PopClaim? && Step(s, t, e).pc[t].PopRead? { ClaimHead(s, t, e); }
  }

  /** A slot whose ticket `pos` is long delivered carries a later sequence number. */
  lemma OldTicket(s: State, pos: nat, p: nat)
    requires Inv(s) && pos + s.capacity <= p < s.head + s.capacity && Cell(s, p) == Cell(s, pos)
    ensures Cell(s, pos).seqno > pos
    decreases s.head + s.capacity - p
  {
    if p >= s.head {
      assert if p < s.tail then FullTicket(s, p) else FreeTicket(s, p);
    } else {
      WrapOffset(p, s.capacity, s.capacity);
      OldTicket(s, pos, p + s.capacity);
    }
  }

  /** try_pop answers "empty" exactly when the oldest ticket is unclaimed or its producer has not published it. */
  lemma EmptyVerdict(s: State, t: Tid, e: Event)
    requires Inv(s) && t in s.pc
    ensures Step(s, t, e).pc[t] == PopEmpty <==>
            s.pc[t].PopLoadSeq? && s.pc[t].pos == s.head && (Queue(s) == [] || Producer(s, s.head))
  {
    if s.pc[t].PopLoadSeq? { EmptyLook(s, t, e); }
  }

  lemma EmptyLook(s: State, t: Tid, e: Event)
    requires Inv(s) && t in s.pc && s.pc[t].PopLoadSeq?
    ensures Step(s, t, e).pc[t] == PopEmpty <==>
            s.pc[t].pos == s.head && (Queue(s) == [] || Producer(s, s.head))
  {
    var pos := s.pc[t].pos;
    assert ThreadInv(s, s.pc[t]);
    if pos < s.head {
      WrapOffset(pos, s.capacity, s.capacity);
      OldTicket(s, pos, pos + s.capacity);
    } else if s.head < s.tail {
      assert FullTicket(s, pos);
      if Producer(s, pos) {
        var u :| u in s.pc && Producing(s.pc[u], pos);
        assert ThreadInv(s, s.pc[u]);
      }
    } else {
      assert FreeTicket(s, pos);
    }
  }

  /** The slot of the next ticket is behind exactly while its previous consumer still holds it. */
  lemma TailSlotTaken(s: State)
    requires Inv(s) && s.tail < s.head + s.capacity
    ensures Cell(s, s.tail).seqno < s.tail <==> s.tail >= s.capacity && Consumer(s, s.tail - s.capacity)
  {
    assert FreeTicket(s, s.tail);
    if s.tail >= s.capacity && Consumer(s, s.tail - s.capacity) {
      var u :| u in s.pc && Consuming(s.pc[u], s.tail - s.capacity);
      assert ThreadInv(s, s.pc[u]);
      WrapOffset(s.tail - s.capacity, s.capacity, s.capacity);
    }
  }

  lemma FullMeansBehind(s: State, t: Tid, e: Event)
    requires WellFormed(s) && t in s.pc && s.pc[t].EnqLoadSeq?
    ensures Step(s, t, e).pc[t].EnqFull? <==> Cell(s, s.pc[t].pos).seqno < s.pc[t].pos
  {
  }

  /** try_enqueue answers "full" exactly when all slots are taken, or the consumer of the next slot still holds it. */
  lemma FullVerdict(s: State, t: Tid, e: Event)
    requires Inv(s) && t in s.pc
    ensures Step(s, t, e).pc[t].EnqFull? <==>
            s.pc[t].EnqLoadSeq? && s.pc[t].pos == s.tail
            && (|Queue(s)| == s.capacity || (s.tail >= s.capacity && Consumer(s, s.tail - s.capacity)))
  {
    if s.pc[t].EnqLoadSeq? { FullLook(s, t, e); }
  }

  lemma FullLook(s: State, t: Tid, e: Event)
    requires Inv(s) && t in s.pc && s.pc[t].EnqLoadSeq?
    ensures Step(s, t, e).pc[t].EnqFull? <==>
            s.pc[t].pos == s.tail
            && (|Queue(s)| == s.capacity || (s.tail >= s.capacity && Consumer(s, s.tail - s.capacity)))
  {
    var pos := s.pc[t].pos;
    FullMeansBehind(s, t, e);
    assert ThreadInv(s, s.pc[t]);
    if pos < s.head {
      WrapOffset(pos, s.capacity, s.capacity);
      OldTicket(s, pos, pos + s.capacity);
    } else if pos < s.tail {
      assert FullTicket(s, pos);
    } else if s.tail < s.head + s.capacity {
      TailSlotTaken(s);
    } else {
      WrapOffset(s.head, s.capacity, s.capacity);
      assert FullTicket(s, s.head);
    }
  }

  /** Nothing is lost: between calls, what was sent is what was received followed by what the slots hold. */
  lemma Conservation(s: State)
    requires Inv(s) && forall t :: t in s.pc ==> s.pc[t] == Idle
    ensures forall p: nat :: p < s.head ==> p in s.got && s.got[p] == s.sent[p]
    ensures forall p: nat :: s.head <= p < s.tail ==> Cell(s, p) == Slot(s.sent[p], p + 1)
  {
    forall p: nat | s.head <= p < s.tail ensures Cell(s, p) == Slot(s.sent[p], p + 1) {
      assert FullTicket(s, p);
    }
  }

  /** A ticket once claimed keeps its value, and what was received stays received. */
  ghost predicate Extends(s: State, s': State) {
    && s.head <= s'.head && s.sent <= s'.sent
    && (forall p :: p in s.got ==> p in s'.got && s'.got[p] == s.got[p])
  }

  lemma StepExtends(s: State, t: Tid, e: Event)
    requires Inv(s) && t in s.pc
    ensures Extends(s, Step(s, t, e))
  {
    assert ThreadInv(s, s.pc[t]);
  }

  lemma NextKeepsInvariant(s: State, s': State)
    requires Inv(s) && Next(s, s')
    ensures Inv(s') && Extends(s, s')
  {
    var t: Tid, e: Event :| t in s.pc && s' == Step(s, t, e);
    StepExtends(s, t, e);
    InvStep(s, t, e);
  }

  lemma RunsKeepInvariant(run: seq<State>)
    requires Runs.IsRun(Init, Next, run) && run[0].capacity >= 2
    ensures forall i :: 0 <= i < |run| ==> Inv(run[i])
  {
    InvInit(run[0]);
    forall s, s' | Inv(s) && Next(s, s') ensures Inv(s') { NextKeepsInvariant(s, s'); }
    Runs.InvariantOfRun(Init, Next, Inv, run);
  }

  /** Along a run the record of sent values only grows: the value of a claimed ticket never changes. */
  lemma RunsExtend(run: seq<State>, i: nat, j: nat)
    requires Runs.IsRun(Init, Next, run) && run[0].capacity >= 2 && i <= j < |run|
    ensures Extends(run[i], run[j])
  {
    RunsKeepInvariant(run);
    forall s, s' | Inv(s) && Next(s, s') ensures Extends(s, s') { NextKeepsInvariant(s, s'); }
    Runs.RelatedAlongRun(Init, Next, Inv, Extends, run, i, j);
  }

  // ---------------------------------------------------------------- which capacities work

  ghost predicate DeliversTrue(s: State) {
    forall p :: p in s.got ==> p < |s.sent| && s.got[p] == s.sent[p]
  }

  ghost predicate Reachable(s: State) {
    Runs.Reachable(Init, Next, s)
  }

  lemma CapacityFixed(run: seq<State>, i: nat)
    requires Runs.IsRun(Init, Next, run) && i < |run|
    ensures run[i].capacity == run[0].capacity
  {
    if i > 0 {
      CapacityFixed(run, i - 1);
      assert Next(run[i - 1], run[i - 1 + 1]);
    }
  }

  lemma Take(s: State, t: Tid, e: Event, s': State)
    requires Reachable(s) && WellFormed(s) && t in s.pc && s' == Step(s, t, e)
    ensures Reachable(s')
  {
    assert Next(s, s');
    Runs.ReachableStep(Init, Next, s, s');
  }

  const ONE_SENT := State(1, [Slot(10, 1)], 0, 1, map[0 := Idle, 1 := Idle], [10], map[])
  const ONE_CLAIMED := State(1, [Slot(10, 1)], 1, 1, map[0 := Idle, 1 := PopRead(0)], [10], map[])
  const ONE_LOOKING :=
    State(1, [Slot(10, 1)], 1, 1, map[0 := EnqLoadSeq(20, 1), 1 := PopRead(0)], [10], map[])
  const ONE_OVERWRITTEN :=
    State(1, [Slot(20, 1)], 1, 2, map[0 := EnqPublish(20, 1), 1 := PopRead(0)], [10, 20], map[])

  lemma OneSlotSend()
    ensures Reachable(ONE_SENT)
  {
    var s0 := State(1, [Slot(0, 0)], 0, 0, map[0 := Idle, 1 := Idle], [], map[]);
    Runs.ReachableInit(Init, Next, s0);
    var s1 := Step(s0, 0, CallPush(10)); Take(s0, 0, CallPush(10), s1);
    var s2 := Step(s1, 0, Proceed);      Take(s1, 0, Proceed, s2);
    var s3 := Step(s2, 0, Proceed);      Take(s2, 0, Proceed, s3);
    var s4 := Step(s3, 0, Proceed);      Take(s3, 0, Proceed, s4);
    var s5 := Step(s4, 0, Proceed);      Take(s4, 0, Proceed, s5);
    Take(s5, 0, Proceed, ONE_SENT);
  }

  lemma OneSlotClaim()
    ensures Reachable(ONE_CLAIMED)
  {
    OneSlotSend();
    var s1 := Step(ONE_SENT, 1, CallPop); Take(ONE_SENT, 1, CallPop, s1);
    var s2 := Step(s1, 1, Proceed);       Take(s1, 1, Proceed, s2);
    var s3 := Step(s2, 1, Proceed);       Take(s2, 1, Proceed, s3);
    Take(s3, 1, Proceed, ONE_CLAIMED);
  }

  lemma OneSlotLook()
    ensures Reachable(ONE_LOOKING)
  {
    OneSlotClaim();
    var s1 := Step(ONE_CLAIMED, 0, CallPush(20)); Take(ONE_CLAIMED, 0, CallPush(20), s1);
    Take(s1, 0, Proceed, ONE_LOOKING);
  }

  lemma OneSlotOverwrite()
    ensures Reachable(ONE_OVERWRITTEN)
  {
    OneSlotLook();
    var s1 := Step(ONE_LOOKING, 0, Proceed); Take(ONE_LOOKING, 0, Proceed, s1);
    var s2 := Step(s1, 0, Proceed);          Take(s1, 0, Proceed, s2);
    Take(s2, 0, Proceed, ONE_OVERWRITTEN);
  }

  /**
   With one slot, "published for ticket 0" and "free for ticket 1" are the same sequence number: a
   second producer overwrites the value between a consumer's claim and its read.
   */
  lemma OneSlotMisdelivers() returns (s: State)
    ensures Reachable(s) && s.capacity == 1 && !DeliversTrue(s)
    ensures 0 in s.got && |s.sent| == 2 && s.got[0] == s.sent[1] != s.sent[0]
  {
    OneSlotOverwrite();
    s := Step(ONE_OVERWRITTEN, 1, Proceed);
    Take(ONE_OVERWRITTEN, 1, Proceed, s);
    assert 0 in s.got && s.got[0] == 20;
  }

  /** Delivery is correct in every reachable state exactly when the queue has at least two slots. */
  lemma DeliveryIffTwoSlots(capacity: nat)
    requires capacity >= 1
    ensures (forall s :: Reachable(s) && s.capacity == capacity ==> DeliversTrue(s)) <==> capacity >= 2
  {
    if capacity >= 2 {
      forall s | Reachable(s) && s.capacity == capacity ensures DeliversTrue(s) {
        var run: seq<State> :| Runs.IsRun(Init, Next, run) && run[|run| - 1] == s;
        CapacityFixed(run, |run| - 1);
        RunsKeepInvariant(run);
      }
    } else {
      var s := OneSlotMisdelivers();
    }
  }
}
