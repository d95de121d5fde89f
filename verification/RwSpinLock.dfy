/**
 The reader-writer spinlock: a reader counts itself in and then re-checks the writer flag; a writer
 claims the flag and then waits for the count to drain. One call of `Step` is one atomic access by
 one thread; every interleaving, any number of threads and spurious failures of the weak
 compare-and-swap are allowed.
 */
module RwSpinLock {
  import Runs

  type Tid = nat

  datatype Pc =
    | Idle
    | ReadWait      // while (writer_)
    | ReadCount     // readers_.fetch_add(1)
    | ReadCheck     // if (!writer_) return
    | ReadBackOut   // readers_.fetch_sub(1), then again
    | Reading       // lock_read has returned
    | ReadLeave     // unlock_read: readers_.fetch_sub(1)
    | WriteClaim    // compare_exchange_weak(writer_, false, true)
    | WriteDrain    // while (readers_ != 0)
    | Writing       // lock_write has returned
    | WriteLeave    // unlock_write: writer_ = false

  datatype Event = CallRead | CallWrite | Proceed | SpuriousFailure

  datatype State = State(readers: int, writer: bool, pc: map<Tid, Pc>)

  ghost predicate Init(s: State) {
    s.readers == 0 && !s.writer && forall t :: t in s.pc ==> s.pc[t] == Idle
  }

  function Goto(s: State, t: Tid, pc: Pc): State {
    s.(pc := s.pc[t := pc])
  }

  function Step(s: State, t: Tid, e: Event): State
    requires t in s.pc
  {
    match s.pc[t]
    case Idle => if e.CallRead? then Goto(s, t, ReadWait) else if e.CallWrite? then Goto(s, t, WriteClaim) else s
    case ReadWait => if s.writer then s else Goto(s, t, ReadCount)
    case ReadCount => Goto(s.(readers := s.readers + 1), t, ReadCheck)
    case ReadCheck => Goto(s, t, if s.writer then ReadBackOut else Reading)
    case ReadBackOut => Goto(s.(readers := s.readers - 1), t, ReadWait)
    case Reading => Goto(s, t, ReadLeave)
    case ReadLeave => Goto(s.(readers := s.readers - 1), t, Idle)
    case WriteClaim => if s.writer || e.SpuriousFailure? then s else Goto(s.(writer := true), t, WriteDrain)
    case WriteDrain => if s.readers != 0 then s else Goto(s, t, Writing)
    case Writing => Goto(s, t, WriteLeave)
    case WriteLeave => Goto(s.(writer := false), t, Idle)
  }

  ghost predicate Next(s: State, s': State) {
    exists t, e :: t in s.pc && s' == Step(s, t, e)
  }

  /** Between its increment and its decrement of `readers_`, backing out included. */
  predicate Counted(pc: Pc) {
    pc.ReadCheck? || pc.ReadBackOut? || pc.Reading? || pc.ReadLeave?
  }

  /** The caller may read: from the return of lock_read to the decrement of unlock_read. */
  predicate HoldsRead(pc: Pc) {
    pc.Reading? || pc.ReadLeave?
  }

  predicate HoldsFlag(pc: Pc) {
    pc.WriteDrain? || HoldsWrite(pc)
  }

  predicate HoldsWrite(pc: Pc) {
    pc.Writing? || pc.WriteLeave?
  }

  ghost function CountedThreads(s: State): set<Tid> {
    set t | t in s.pc && Counted(s.pc[t])
  }

  ghost predicate Inv(s: State) {
    && s.readers == |CountedThreads(s)|
    && (s.writer <==> exists t :: t in s.pc && HoldsFlag(s.pc[t]))
    && (forall t, u :: t in s.pc && u in s.pc && HoldsFlag(s.pc[t]) && HoldsFlag(s.pc[u]) ==> t == u)
    && (forall t, u :: t in s.pc && u in s.pc && HoldsWrite(s.pc[t]) ==> !HoldsRead(s.pc[u]))
  }

  lemma InvInit(s: State)
    requires Init(s)
    ensures Inv(s)
  {
    assert CountedThreads(s) == {};
  }

  lemma CountedAfter(s: State, s': State, t: Tid)
    requires t in s.pc && t in s'.pc && s'.pc == s.pc[t := s'.pc[t]]
    ensures var d := (if Counted(s'.pc[t]) then 1 else 0) - (if Counted(s.pc[t]) then 1 else 0);
      |CountedThreads(s')| == |CountedThreads(s)| + d
  {
    var before, after := Counted(s.pc[t]), Counted(s'.pc[t]);
    if !before && after {
      assert CountedThreads(s') == CountedThreads(s) + {t};
    } else if before && !after {
      assert CountedThreads(s') == CountedThreads(s) - {t};
    } else {
      assert CountedThreads(s') == CountedThreads(s);
    }
  }

  lemma CountStep(s: State, t: Tid, e: Event)
    requires Inv(s) && t in s.pc
    ensures Step(s, t, e).readers == |CountedThreads(Step(s, t, e))|
  {
    var s' := Step(s, t, e);
    assert s'.pc == s.pc[t := s'.pc[t]];
    CountedAfter(s, s', t);
  }

  lemma FlagStep(s: State, t: Tid, e: Event)
    requires Inv(s) && t in s.pc
    ensures var s' := Step(s, t, e);
      s'.writer <==> exists h :: h in s'.pc && HoldsFlag(s'.pc[h])
  {
    var s' := Step(s, t, e);
    if s.writer {
      var h :| h in s.pc && HoldsFlag(s.pc[h]);
      assert h in s'.pc && (s'.writer ==> HoldsFlag(s'.pc[h]));
    }
    assert HoldsFlag(s'.pc[t]) ==> s'.writer;
  }

  lemma OneFlagHolder(s: State, t: Tid, e: Event)
    requires Inv(s) && t in s.pc
    ensures var s' := Step(s, t, e);
      forall u, v :: u in s'.pc && v in s'.pc && HoldsFlag(s'.pc[u]) && HoldsFlag(s'.pc[v]) ==> u == v
  {
    var s' := Step(s, t, e);
    assert HoldsFlag(s'.pc[t]) ==> HoldsFlag(s.pc[t]) || !s.writer;
    assert forall u :: u in s'.pc && HoldsFlag(s'.pc[u]) && u != t ==> HoldsFlag(s.pc[u]) && s.writer;
  }

  /** A drained count means that no reader is inside, and the flag keeps new ones out. */
  lemma ExclusionStep(s: State, t: Tid, e: Event)
    requires Inv(s) && t in s.pc
    ensures var s' := Step(s, t, e);
      forall u, v :: u in s'.pc && v in s'.pc && HoldsWrite(s'.pc[u]) ==> !HoldsRead(s'.pc[v])
  {
    var s' := Step(s, t, e);
    if s.pc[t].WriteDrain? && s.readers == 0 {
      forall u | u in s.pc ensures !Counted(s.pc[u]) { assert u !in CountedThreads(s); }
    }
  }

  lemma InvStep(s: State, t: Tid, e: Event)
    requires Inv(s) && t in s.pc
    ensures Inv(Step(s, t, e))
  {
    CountStep(s, t, e);
    FlagStep(s, t, e);
    OneFlagHolder(s, t, e);
    ExclusionStep(s, t, e);
  }

  ghost predicate Reachable(s: State) {
    Runs.Reachable(Init, Next, s)
  }

  lemma ReachableInv(s: State)
    requires Reachable(s)
    ensures Inv(s)
  {
    forall s | Init(s) ensures Inv(s) { InvInit(s); }
    forall s, s' | Inv(s) && Next(s, s') ensures Inv(s') {
      var t, e :| t in s.pc && s' == Step(s, t, e);
      InvStep(s, t, e);
    }
    Runs.InvariantOfReachable(Init, Next, Inv, s);
  }

  /** A writer excludes all readers and all other writers. */
  lemma WriterExcludesAll(s: State, w: Tid, u: Tid)
    requires Reachable(s) && w in s.pc && u in s.pc && w != u && HoldsWrite(s.pc[w])
    ensures !HoldsWrite(s.pc[u]) && !HoldsRead(s.pc[u])
  {
    ReachableInv(s);
  }

  /** `readers_` counts exactly the threads between increment and decrement, and never goes negative. */
  lemma ReadersAreCounted(s: State)
    requires Reachable(s)
    ensures s.readers == |CountedThreads(s)| >= 0
    ensures s.readers == 0 <==> forall t :: t in s.pc ==> !Counted(s.pc[t])
  {
    ReachableInv(s);
    if s.readers == 0 {
      forall t | t in s.pc ensures !Counted(s.pc[t]) { assert t !in CountedThreads(s); }
    } else {
      var t :| t in CountedThreads(s);
    }
  }

  /** The lock cannot hang: as long as some call is under way or some lock is held, one of the threads concerned can move. */
  lemma SomebodyMoves(s: State, t: Tid) returns (u: Tid)
    requires Reachable(s) && t in s.pc && s.pc[t] != Idle
    ensures u in s.pc && s.pc[u] != Idle && Step(s, u, Proceed) != s
  {
    ReachableInv(s);
    if v :| v in s.pc && Counted(s.pc[v]) {
      u := v;
    } else if w :| w in s.pc && HoldsFlag(s.pc[w]) {
      u := w;
      assert CountedThreads(s) == {};
    } else {
      u := t;
    }
    assert Step(s, u, Proceed).pc[u] != s.pc[u];
  }
}
