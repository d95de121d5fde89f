/**
 What the reader-writer spinlock does for its callers: every call enters the critical section it asked
 for, once; readers get in while no writer holds the flag, the flag holder gets in whatever new readers do,
 and calls that nobody disturbs return.
 */
module RwLockCalls {
  import opened FiniteSets
  import opened RwSpinLock
  import Runs

  // ---------------------------------------------------------------- each call enters once

  datatype Lock = ReadLock | WriteLock

  /** The lock that each thread asked for last, and the critical sections it has entered since. */
  datatype Watched = Watched(s: State, asked: map<Tid, Lock>, entered: map<Tid, seq<Lock>>)

  ghost predicate WatchInit(x: Watched) {
    Init(x.s) && x.asked == map[] && x.entered == map[]
  }

  /** An access after which lock_read, or lock_write, has returned. */
  function Entered(pc: Pc, pc': Pc): seq<Lock> {
    if pc' == Reading && pc != Reading then [ReadLock]
    else if pc' == Writing && pc != Writing then [WriteLock]
    else []
  }

  ghost function Watch(x: Watched, t: Tid, e: Event): Watched
    requires t in x.s.pc
  {
    var s' := Step(x.s, t, e);
    if x.s.pc[t] == Idle then
      if e.CallRead? then Watched(s', x.asked[t := ReadLock], x.entered[t := []])
      else if e.CallWrite? then Watched(s', x.asked[t := WriteLock], x.entered[t := []])
      else x.(s := s')
    else if t in x.entered then
      x.(s := s', entered := x.entered[t := x.entered[t] + Entered(x.s.pc[t], s'.pc[t])])
    else x.(s := s')
  }

  ghost predicate WatchNext(x: Watched, x': Watched) {
    exists t, e :: t in x.s.pc && x' == Watch(x, t, e)
  }

  ghost predicate CallInv(pc: Pc, asked: Lock, entered: seq<Lock>) {
    if pc == Idle then true
    else if EnteringRead(pc) then asked == ReadLock && entered == []
    else if HoldsRead(pc) then asked == ReadLock && entered == [ReadLock]
    else if HoldsWrite(pc) then asked == WriteLock && entered == [WriteLock]
    else asked == WriteLock && entered == []
  }

  ghost predicate WatchInv(x: Watched) {
    forall t :: t in x.s.pc && x.s.pc[t] != Idle ==>
      t in x.asked && t in x.entered && CallInv(x.s.pc[t], x.asked[t], x.entered[t])
  }

  lemma OwnCallStep(x: Watched, t: Tid, e: Event)
    requires WatchInv(x) && t in x.s.pc
    ensures var x' := Watch(x, t, e);
      x'.s.pc[t] != Idle ==>
        t in x'.asked && t in x'.entered && CallInv(x'.s.pc[t], x'.asked[t], x'.entered[t])
  {
    if x.s.pc[t] != Idle { assert x.entered[t] + [] == x.entered[t]; }
  }

  lemma WatchStep(x: Watched, t: Tid, e: Event)
    requires WatchInv(x) && t in x.s.pc
    ensures WatchInv(Watch(x, t, e))
  {
    OwnCallStep(x, t, e);
    var x' := Watch(x, t, e);
    forall u | u in x'.s.pc && x'.s.pc[u] != Idle
      ensures u in x'.asked && u in x'.entered && CallInv(x'.s.pc[u], x'.asked[u], x'.entered[u])
    {
      if u != t { assert x'.s.pc[u] == x.s.pc[u]; }
    }
  }

  /**
   A call of lock_read or lock_write returns inside the critical section it asked for, and the thread is
   idle again only after it has been inside that, once.
   */
  lemma EachCallEntersOnce(x: Watched, t: Tid, e: Event)
    requires Runs.Reachable(WatchInit, WatchNext, x) && t in x.s.pc
    requires x.s.pc[t] != Idle && Step(x.s, t, e).pc[t] == Idle
    ensures t in x.asked && t in x.entered && x.entered[t] == [x.asked[t]]
  {
    forall x, x' | WatchInv(x) && WatchNext(x, x') ensures WatchInv(x') {
      var t, e :| t in x.s.pc && x' == Watch(x, t, e);
      WatchStep(x, t, e);
    }
    Runs.InvariantOfReachable(WatchInit, WatchNext, WatchInv, x);
    assert CallInv(x.s.pc[t], x.asked[t], x.entered[t]);
  }

  // ---------------------------------------------------------------- readers get in

  predicate EnteringRead(pc: Pc) {
    pc.ReadWait? || pc.ReadCount? || pc.ReadCheck? || pc.ReadBackOut?
  }

  /** How many of its own accesses still separate a reader from the lock while the flag is clear. */
  function ReadRank(pc: Pc): nat {
    match pc
    case ReadBackOut => 4
    case ReadWait => 3
    case ReadCount => 2
    case ReadCheck => 1
    case _ => 0
  }

  /** While the flag is clear every access of a reader on its way in brings it nearer, and nobody else's sets it back. */
  lemma ReaderAdvances(s: State, t: Tid, u: Tid, e: Event)
    requires t in s.pc && u in s.pc && EnteringRead(s.pc[t]) && !s.writer
    ensures var pc := Step(s, u, e).pc[t];
      if u != t then pc == s.pc[t]
      else pc == Reading || (EnteringRead(pc) && ReadRank(pc) < ReadRank(s.pc[t]))
  {
  }

  /** A run with the thread that takes each step. */
  ghost predicate Schedule(run: seq<State>, who: seq<Tid>) {
    && |run| == |who| + 1
    && forall i :: 0 <= i < |who| ==> StepAt(run, who, i)
  }

  ghost predicate StepAt(run: seq<State>, who: seq<Tid>, i: nat)
    requires |run| == |who| + 1 && i < |who|
  {
    who[i] in run[i].pc && exists e :: run[i + 1] == Step(run[i], who[i], e)
  }

  /** How many of the first `n` steps are the thread's own. */
  ghost function OwnSteps(who: seq<Tid>, t: Tid, n: nat): nat
    requires n <= |who|
  {
    if n == 0 then 0 else OwnSteps(who, t, n - 1) + (if who[n - 1] == t then 1 else 0)
  }

  lemma {:induction false} ReaderWaits(run: seq<State>, who: seq<Tid>, t: Tid, n: nat)
    requires Schedule(run, who) && n <= |who|
    requires forall i :: 0 <= i < n ==> !run[i].writer
    requires t in run[0].pc && EnteringRead(run[0].pc[t])
    requires forall i :: 0 <= i <= n ==> t in run[i].pc ==> run[i].pc[t] != Reading
    ensures t in run[n].pc && EnteringRead(run[n].pc[t])
    ensures ReadRank(run[n].pc[t]) + OwnSteps(who, t, n) <= ReadRank(run[0].pc[t])
    decreases n
  {
    if n > 0 {
      ReaderWaits(run, who, t, n - 1);
      assert StepAt(run, who, n - 1);
      var e :| run[n - 1 + 1] == Step(run[n - 1], who[n - 1], e);
      ReaderAdvances(run[n - 1], t, who[n - 1], e);
    }
  }

  /**
   As long as no writer holds the flag, a reader is let in after at most four accesses of its own,
   whatever the other threads do in between and however many they are.
   */
  lemma ReadersGetIn(run: seq<State>, who: seq<Tid>, t: Tid)
    requires Schedule(run, who) && forall i :: 0 <= i < |who| ==> !run[i].writer
    requires t in run[0].pc && EnteringRead(run[0].pc[t]) && OwnSteps(who, t, |who|) >= 4
    ensures exists i :: 0 <= i < |run| && t in run[i].pc && run[i].pc[t] == Reading
  {
    if forall i :: 0 <= i < |run| ==> t in run[i].pc ==> run[i].pc[t] != Reading {
      ReaderWaits(run, who, t, |who|);
    }
  }

  // ---------------------------------------------------------------- the flag holder gets in

  /**
   How many accesses of a thread can still keep the flag holder waiting. A reader that waits for the
   flag is not among them, nor is anybody who calls now.
   */
  function DrainRank(pc: Pc): nat {
    match pc
    case ReadCount => 3
    case ReadCheck => 2
    case Reading => 2
    case ReadBackOut => 1
    case ReadLeave => 1
    case WriteDrain => 1
    case _ => 0
  }

  ghost function DrainRanks(pc: map<Tid, Pc>): map<Tid, nat> {
    map t | t in pc :: DrainRank(pc[t])
  }

  ghost function Remaining(pc: map<Tid, Pc>, top: nat): nat {
    Sum(DrainRanks(pc), top)
  }

  /**
   With the flag held, an access of any thread lowers its own rank or leaves it, and lowers it if the
   thread has one and changes anything.
   */
  lemma DrainActs(s: State, t: Tid, e: Event)
    requires t in s.pc && s.writer && !HoldsWrite(s.pc[t])
    ensures var s' := Step(s, t, e);
      && s'.pc == s.pc[t := s'.pc[t]] && DrainRank(s'.pc[t]) <= DrainRank(s.pc[t])
      && (DrainRank(s.pc[t]) > 0 && s' != s ==> DrainRank(s'.pc[t]) < DrainRank(s.pc[t]))
  {
    assert s.pc[t := s.pc[t]] == s.pc;
  }

  lemma RemainingAfter(pc: map<Tid, Pc>, t: Tid, next: Pc, top: nat)
    requires t in pc && DrainRank(next) <= DrainRank(pc[t]) && top >= 3
    ensures Remaining(pc[t := next], top) == Remaining(pc, top) - DrainRank(pc[t]) + DrainRank(next)
  {
    assert DrainRanks(pc[t := next]) == DrainRanks(pc)[t := DrainRank(next)];
    SumAfter(DrainRanks(pc), t, DrainRank(next), top);
  }

  lemma RemainingBound(pc: map<Tid, Pc>, top: nat)
    ensures Remaining(pc, top) <= top * |pc|
  {
    SumBound(DrainRanks(pc), top);
    assert DrainRanks(pc).Keys == pc.Keys;
    assert |DrainRanks(pc).Keys| == |DrainRanks(pc)| && |pc.Keys| == |pc|;
  }

  /** A step that keeps the flag holder waiting: by a thread with a rank, and changing something. */
  ghost predicate Delays(run: seq<State>, who: seq<Tid>, i: nat)
    requires |run| == |who| + 1 && i < |who|
  {
    who[i] in run[i].pc && DrainRank(run[i].pc[who[i]]) > 0 && run[i + 1] != run[i]
  }

  ghost function DelaysUpTo(run: seq<State>, who: seq<Tid>, n: nat): nat
    requires |run| == |who| + 1 && n <= |who|
  {
    if n == 0 then 0 else DelaysUpTo(run, who, n - 1) + (if Delays(run, who, n - 1) then 1 else 0)
  }

  lemma DrainStep(s: State, t: Tid, e: Event, w: Tid, top: nat)
    requires Inv(s) && w in s.pc && s.pc[w] == WriteDrain && t in s.pc && top >= 3
    ensures var s' := Step(s, t, e);
      && Inv(s') && Remaining(s'.pc, top) <= Remaining(s.pc, top)
      && (DrainRank(s.pc[t]) > 0 && s' != s ==> Remaining(s'.pc, top) < Remaining(s.pc, top))
  {
    InvStep(s, t, e);
    assert HoldsFlag(s.pc[w]);
    DrainActs(s, t, e);
    RemainingAfter(s.pc, t, Step(s, t, e).pc[t], top);
  }

  lemma {:induction false} DelaysBound(run: seq<State>, who: seq<Tid>, w: Tid, n: nat, top: nat)
    requires Schedule(run, who) && Inv(run[0]) && n <= |who| && top >= 3
    requires forall i :: 0 <= i < n ==> w in run[i].pc && run[i].pc[w] == WriteDrain
    ensures Inv(run[n]) && DelaysUpTo(run, who, n) + Remaining(run[n].pc, top) <= Remaining(run[0].pc, top)
    decreases n
  {
    if n > 0 {
      DelaysBound(run, who, w, n - 1, top);
      assert StepAt(run, who, n - 1);
      var e :| run[n - 1 + 1] == Step(run[n - 1], who[n - 1], e);
      DrainStep(run[n - 1], who[n - 1], e, w, top);
    }
  }

  /** As long as the flag holder waits, some thread with a rank can change something. */
  lemma DrainGoesOn(s: State, w: Tid) returns (t: Tid)
    requires Inv(s) && w in s.pc && s.pc[w] == WriteDrain
    ensures t in s.pc && DrainRank(s.pc[t]) > 0 && Step(s, t, Proceed) != s
  {
    assert HoldsFlag(s.pc[w]);
    if u :| u in s.pc && Counted(s.pc[u]) {
      t := u;
    } else {
      t := w;
      assert CountedThreads(s) == {};
    }
    assert Step(s, t, Proceed).pc[t] != s.pc[t];
  }

  /**
   Writers are preferred: whatever all threads do, new readers and writers included, a writer that holds
   the flag is kept waiting by at most three accesses a thread. And while it waits, the threads that
   keep it waiting, or the writer itself, can go on.
   */
  lemma FlagHolderGetsIn(run: seq<State>, who: seq<Tid>, w: Tid)
    requires Schedule(run, who) && Reachable(run[0])
    requires forall i :: 0 <= i < |run| ==> w in run[i].pc && run[i].pc[w] == WriteDrain
    ensures DelaysUpTo(run, who, |who|) <= 3 * |run[0].pc|
    ensures var last := run[|who|];
      exists t :: t in last.pc && DrainRank(last.pc[t]) > 0 && Step(last, t, Proceed) != last
  {
    ReachableInv(run[0]);
    DelaysBound(run, who, w, |who|, 3);
    RemainingBound(run[0].pc, 3);
    var t := DrainGoesOn(run[|who|], w);
  }

  // ---------------------------------------------------------------- calls and returns

  /** The state after `n` accesses of `t` alone. */
  function Alone(s: State, t: Tid, n: nat): State
    requires t in s.pc
    decreases n
  {
    if n == 0 then s else Alone(Step(s, t, Proceed), t, n - 1)
  }

  /** Undisturbed and with the flag clear, lock_read returns with the read lock held, and unlock_read gives it back. */
  lemma ReadAlone(s: State, t: Tid)
    requires Inv(s) && t in s.pc && s.pc[t] == Idle && !s.writer
    ensures var inside := Alone(Step(s, t, CallRead), t, 3);
      inside.pc == s.pc[t := Reading] && inside.readers == s.readers + 1 && !inside.writer
    ensures var outside := Alone(Step(s, t, CallRead), t, 5);
      outside.pc == s.pc && outside.readers == s.readers && !outside.writer
  {
    var s0 := Step(s, t, CallRead);
    var s1 := Step(s0, t, Proceed);
    var s2 := Step(s1, t, Proceed);
    var s3 := Step(s2, t, Proceed);
    var s4 := Step(s3, t, Proceed);
    var s5 := Step(s4, t, Proceed);
    assert Alone(s0, t, 3) == Alone(s1, t, 2) == Alone(s2, t, 1) == Alone(s3, t, 0) == s3;
    assert Alone(s0, t, 5) == Alone(s1, t, 4) == Alone(s2, t, 3) == Alone(s3, t, 2) == Alone(s4, t, 1) == s5;
    assert s3.pc == s.pc[t := Reading];
    assert s5.pc == s.pc[t := Idle] == s.pc;
  }

  /** A call of lock_write on a free lock returns with the write lock held, and unlock_write gives it back. */
  lemma WriteAlone(s: State, t: Tid)
    requires Inv(s) && t in s.pc && s.pc[t] == Idle && !s.writer && s.readers == 0
    ensures var inside := Alone(Step(s, t, CallWrite), t, 2);
      inside.pc == s.pc[t := Writing] && inside.readers == 0 && inside.writer
    ensures var outside := Alone(Step(s, t, CallWrite), t, 4);
      outside == s
  {
    var s0 := Step(s, t, CallWrite);
    var s1 := Step(s0, t, Proceed);
    var s2 := Step(s1, t, Proceed);
    var s3 := Step(s2, t, Proceed);
    var s4 := Step(s3, t, Proceed);
    assert Alone(s0, t, 2) == Alone(s1, t, 1) == Alone(s2, t, 0) == s2;
    assert Alone(s0, t, 4) == Alone(s1, t, 3) == Alone(s2, t, 2) == Alone(s3, t, 1) == s4;
    assert s2.pc == s.pc[t := Writing];
    assert s4.pc == s.pc[t := Idle] == s.pc;
  }
}
