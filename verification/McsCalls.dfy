/**
 The calls of the MCS lock as its users see them: who called lock, to whom it returned, whose unlock
 returned. The record watches only where a thread stands before and after its access.
 */
module McsCalls {
  import opened McsLock
  import opened Options
  import Runs

  /** In the order of these events: waiters to which lock returned, and waiters for which unlock returned. */
  datatype Watched = Watched(s: State, entered: seq<Node>, left: seq<Node>)

  ghost predicate WatchInit(x: Watched) {
    Init(x.s) && x.entered == [] && x.left == []
  }

  ghost function Watch(x: Watched, w: Node, spurious: bool): Watched
    requires w in x.s.m.node && Dereferences(x.s.m, w)
  {
    var s' := Step(x.s, w, spurious);
    var pc, pc' := x.s.m.node[w].pc, s'.m.node[w].pc;
    Watched(s',
      if pc' == Critical && pc != Critical then x.entered + [w] else x.entered,
      if pc' == Idle && pc != Idle then x.left + [w] else x.left)
  }

  ghost predicate WatchNext(x: Watched, x': Watched) {
    exists w, spurious :: w in x.s.m.node && Dereferences(x.s.m, w) && x' == Watch(x, w, spurious)
  }

  ghost predicate WatchInv(x: Watched) {
    && Inv(x.s)
    && x.entered == x.s.grants
    && x.left == x.s.arrivals[..x.s.released]
  }

  /** The lock is taken only by entering the critical section, and given up only by leaving unlock. */
  lemma TakenByEntering(m: Memory, w: Node, spurious: bool)
    requires w in m.node && Dereferences(m, w)
    requires m.node[w].pc.Link? ==> m.node[w].pc.prev != w
    requires m.node[w].pc.Wake? ==> m.node[w].pc.succ != w
    ensures var pc, pc' := m.node[w].pc, Act(m, w, spurious).node[w].pc;
      && (!Holds(pc) && Holds(pc') <==> pc' == Critical && pc != Critical)
      && (Holds(pc) && !Holds(pc') <==> pc' == Idle && pc != Idle)
  {
  }

  /** No waiter is its own neighbour in the queue. */
  lemma NeighboursDiffer(m: Memory, a: seq<Node>, k: nat, w: Node)
    requires Ordered(m, a, k) && w in m.node
    ensures m.node[w].pc.Link? ==> m.node[w].pc.prev != w
    ensures m.node[w].pc.Wake? ==> m.node[w].pc.succ != w
  {
    if Queued(m.node[w].pc) {
      var i := Position(m, a, k, w);
      if m.node[w].pc.Wake? { LeaveQueue(m, a, k, w, false); }
    }
  }

  lemma EnteredStep(x: Watched, w: Node, spurious: bool)
    requires WatchInv(x) && w in x.s.m.node && Dereferences(x.s.m, w)
    ensures Watch(x, w, spurious).entered == Step(x.s, w, spurious).grants
  {
    NeighboursDiffer(x.s.m, x.s.arrivals, x.s.released, w);
    TakenByEntering(x.s.m, w, spurious);
  }

  /** Who gives the lock up stands at the head of the queue. */
  lemma LeftStep(x: Watched, w: Node, spurious: bool)
    requires WatchInv(x) && w in x.s.m.node && Dereferences(x.s.m, w)
    ensures var pc, pc' := x.s.m.node[w].pc, Act(x.s.m, w, spurious).node[w].pc;
      Watch(x, w, spurious).left == x.left + (if Holds(pc) && !Holds(pc') then [w] else [])
    ensures Holds(x.s.m.node[w].pc) ==> x.s.released < |x.s.arrivals| && x.s.arrivals[x.s.released] == w
  {
    NeighboursDiffer(x.s.m, x.s.arrivals, x.s.released, w);
    TakenByEntering(x.s.m, w, spurious);
    if Holds(x.s.m.node[w].pc) { var i := Position(x.s.m, x.s.arrivals, x.s.released, w); }
  }

  lemma PrefixGrows(left: seq<Node>, a: seq<Node>, k: nat, w: Node)
    requires k < |a| && left == a[..k] && a[k] == w
    ensures left + [w] == a[..k + 1]
  {
  }

  lemma WatchStep(x: Watched, w: Node, spurious: bool)
    requires WatchInv(x) && w in x.s.m.node
    ensures Dereferences(x.s.m, w) && WatchInv(Watch(x, w, spurious))
  {
    InvStep(x.s, w, spurious);
    EnteredStep(x, w, spurious);
    LeftStep(x, w, spurious);
    LeftInOrder(x, w, spurious);
  }

  lemma LeftInOrder(x: Watched, w: Node, spurious: bool)
    requires WatchInv(x) && w in x.s.m.node && Dereferences(x.s.m, w)
    ensures var s' := Step(x.s, w, spurious);
      s'.released <= |s'.arrivals| && Watch(x, w, spurious).left == s'.arrivals[..s'.released]
  {
    LeftStep(x, w, spurious);
    if Holds(x.s.m.node[w].pc) { PrefixGrows(x.left, x.s.arrivals, x.s.released, w); }
  }

  /**
   lock returns to the waiters in the order of their exchanges on `tail_`, unlock returns for them in
   the same order, and one waiter at most is between the two.
   */
  lemma CallsReturnInOrder(x: Watched)
    requires Runs.Reachable(WatchInit, WatchNext, x)
    ensures x.left <= x.entered <= x.s.arrivals && |x.left| <= |x.entered| <= |x.left| + 1
    ensures x.entered == x.s.grants && |x.left| == x.s.released
    ensures forall w :: w in x.s.m.node && x.s.m.node[w].pc == Critical ==> x.entered == x.left + [w]
  {
    forall x | WatchInit(x) ensures WatchInv(x) { InvInit(x.s); }
    forall x, x' | WatchInv(x) && WatchNext(x, x') ensures WatchInv(x') {
      var w, spurious :| w in x.s.m.node && Dereferences(x.s.m, w) && x' == Watch(x, w, spurious);
      WatchStep(x, w, spurious);
    }
    Runs.InvariantOfReachable(WatchInit, WatchNext, WatchInv, x);
    var m, a, k := x.s.m, x.s.arrivals, x.s.released;
    forall w | w in m.node && m.node[w].pc == Critical ensures x.entered == x.left + [w] {
      var i := Position(m, a, k, w);
    }
  }

  /** The state after `n` accesses by the thread of `w` alone, with a compare-and-swap that does not fail spuriously. */
  ghost function Alone(s: State, w: Node, n: nat): State
    decreases n
  {
    if n == 0 || !(w in s.m.node && Dereferences(s.m, w)) then s else Alone(Step(s, w, false), w, n - 1)
  }

  /** A call of lock joins the queue, as its last, after three accesses of its own. */
  lemma LockArrives(s: State, w: Node)
    requires Inv(s) && w in s.m.node && s.m.node[w].pc == Idle
    ensures var s' := Alone(s, w, 4);
      && w in s'.m.node && s'.arrivals == s.arrivals + [w] && s'.released == s.released
      && s'.m.node[w].pc == if s.m.tail == None then Critical else Link(s.m.tail.value)
  {
    var s1 := Step(s, w, false);
    var s2 := Step(s1, w, false);
    var s3 := Step(s2, w, false);
    var s4 := Step(s3, w, false);
    assert Alone(s, w, 4) == Alone(s1, w, 3) == Alone(s2, w, 2) == Alone(s3, w, 1) == Alone(s4, w, 0) == s4;
  }

  /** On a free lock, lock and then unlock, undisturbed, return and leave the lock free. */
  lemma LockAndUnlockAlone(s: State, w: Node)
    requires Inv(s) && w in s.m.node && s.m.node[w].pc == Idle && s.m.tail == None
    ensures var inside := Alone(s, w, 4); w in inside.m.node && inside.m.node[w].pc == Critical
    ensures var outside := Alone(s, w, 7);
      w in outside.m.node && outside.m.node[w].pc == Idle && outside.m.tail == None
  {
    LockArrives(s, w);
    var s4 := Alone(s, w, 4);
    AloneMore(s, w, 4, 3);
    var s5 := Step(s4, w, false);
    var s6 := Step(s5, w, false);
    var s7 := Step(s6, w, false);
    assert Alone(s4, w, 3) == Alone(s5, w, 2) == Alone(s6, w, 1) == Alone(s7, w, 0) == s7;
  }

  lemma {:induction false} AloneMore(s: State, w: Node, n: nat, k: nat)
    ensures Alone(s, w, n + k) == Alone(Alone(s, w, n), w, k)
    decreases n
  {
    if n > 0 {
      if w in s.m.node && Dereferences(s.m, w) {
        AloneMore(Step(s, w, false), w, n - 1, k);
      }
    }
  }
}
