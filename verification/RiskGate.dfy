/**
 The pre-trade risk gate: a signed position and a gross notional packed into one 64-bit word and
 committed by compare-and-swap loops. One call of `Step` is one atomic access by one thread;
 interleavings, the number of threads and spurious failures are unrestricted.
 */
module RiskGate {
  import opened Arithmetic
  import Runs

  const TWO31: int := 0x8000_0000
  const TWO32: int := 0x1_0000_0000

  // ---------------------------------------------------------------- the packed word

  /** The 64-bit state word, as its upper and lower 32 bits. */
  datatype Word = Word(high: int, low: int)

  /** 32 bits read as a signed number. */
  function SignExtend(lo: int): int {
    if lo < TWO31 then lo else lo - TWO32
  }

  /** Notional in the upper half, position (two's complement) in the lower half. */
  function Pack(position: int, notional: int): Word {
    Word(Low32(notional), Low32(position))
  }

  function Position(word: Word): int {
    SignExtend(word.low)
  }

  function Notional(word: Word): int {
    word.high
  }

  /** The word as one unsigned number. */
  function Number(word: Word): int {
    word.low + TWO32 * word.high
  }

  /** The code's masks and shifts build the number of a packed word ... */
  lemma PackingBits(position: bv64, notional: bv64)
    ensures (position & 0xFFFF_FFFF) | (notional << 32) ==
            position % 0x1_0000_0000 + 0x1_0000_0000 * (notional % 0x1_0000_0000)
  {
  }

  /** ... and take the halves out of it again: `Number` is that sum, of the same two remainders. */
  lemma UnpackingBits(word: bv64)
    ensures word & 0xFFFF_FFFF == word % 0x1_0000_0000 && word >> 32 == word / 0x1_0000_0000
  {
  }

  /** On unbounded integers: the number of a packed word, its remainder and its quotient. */
  lemma NumberOfPacked(position: int, notional: int)
    ensures var n := Number(Pack(position, notional));
      && n == position % 0x1_0000_0000 + 0x1_0000_0000 * (notional % 0x1_0000_0000)
      && n % 0x1_0000_0000 == Pack(position, notional).low && n / 0x1_0000_0000 == Pack(position, notional).high
  {
    var low, high := Low32(position), Low32(notional);
    ModUnique(low + 0x1_0000_0000 * high, 0x1_0000_0000, high, low);
  }

  predicate Fits(position: int, notional: int) {
    -TWO31 <= position < TWO31 && 0 <= notional < TWO32
  }

  /** Unpacking gives back what was packed exactly when both numbers fit their fields. */
  lemma UnpackPack(position: int, notional: int)
    ensures Position(Pack(position, notional)) == position && Notional(Pack(position, notional)) == notional
            <==> Fits(position, notional)
  {
  }

  // ---------------------------------------------------------------- the gate

  datatype Side = Buy | Sell

  datatype Order = Order(side: Side, price: int, qty: int)

  /** What an order adds to the two counters; computed once, before the loops. */
  datatype Delta = Delta(position: int, notional: int)

  function DeltaOf(o: Order): Delta {
    Delta(if o.side.Buy? then o.qty else -o.qty, o.price * o.qty)
  }

  type Tid = nat

  datatype Pc =
    | Idle
    | ReserveLoad(d: Delta)
    | ReserveTry(d: Delta, cur: Word)      // check against cur, then compare_exchange_weak(state_, cur, ...)
    | ReleaseLoad(grant: nat)
    | ReleaseTry(grant: nat, cur: Word)

  datatype Event = Reserve(o: Order) | Release(grant: nat) | Proceed | SpuriousFailure

  datatype Status = Outstanding | Releasing(t: Tid) | Released

  /** History: a successful reservation, and what has become of it. */
  datatype Grant = Grant(delta: Delta, status: Status)

  datatype State = State(
    maxPosition: int, maxNotional: int, word: Word, pc: map<Tid, Pc>, grants: seq<Grant>)

  ghost predicate Init(s: State) {
    s.word == Pack(0, 0) && s.grants == [] && forall t :: t in s.pc ==> s.pc[t] == Idle
  }

  function Goto(s: State, t: Tid, pc: Pc): State {
    s.(pc := s.pc[t := pc])
  }

  predicate WithinLimits(s: State, position: int, notional: int) {
    -s.maxPosition <= position <= s.maxPosition && 0 <= notional <= s.maxNotional
  }

  function Max(a: int, b: int): int {
    if a >= b then a else b
  }

  /** The caller releases a reservation at most once: a release starts only on an outstanding one. */
  function Step(s: State, t: Tid, e: Event): State
    requires t in s.pc
  {
    match s.pc[t]
    case Idle =>
      if e.Reserve? then Goto(s, t, ReserveLoad(DeltaOf(e.o)))
      else if e.Release? && e.grant < |s.grants| && s.grants[e.grant].status == Outstanding then
        Goto(s.(grants := s.grants[e.grant := s.grants[e.grant].(status := Releasing(t))]), t, ReleaseLoad(e.grant))
      else s
    case ReserveLoad(d) => Goto(s, t, ReserveTry(d, s.word))
    case ReserveTry(d, cur) =>
      var position, notional := Position(cur) + d.position, Notional(cur) + d.notional;
      if !WithinLimits(s, position, notional) then Goto(s, t, Idle)
      else if s.word == cur && !e.SpuriousFailure? then
        Goto(s.(word := Pack(position, notional), grants := s.grants + [Grant(d, Outstanding)]), t, Idle)
      else Goto(s, t, ReserveTry(d, s.word))
    case ReleaseLoad(grant) => Goto(s, t, ReleaseTry(grant, s.word))
    case ReleaseTry(grant, cur) =>
      if s.word == cur && !e.SpuriousFailure? && grant < |s.grants| then
        var d := s.grants[grant].delta;
        Goto(s.(word := Pack(Position(cur) - d.position, Max(0, Notional(cur) - d.notional)),
                grants := s.grants[grant := Grant(d, Released)]), t, Idle)
      else Goto(s, t, ReleaseTry(grant, s.word))
  }

  ghost predicate Next(s: State, s': State) {
    exists t, e :: t in s.pc && s' == Step(s, t, e)
  }

  /** Signed quantity of the reservations not yet given back. */
  ghost function PositionSum(grants: seq<Grant>): int {
    if grants == [] then 0
    else
      var last := grants[|grants| - 1];
      PositionSum(grants[..|grants| - 1]) + (if last.status.Released? then 0 else last.delta.position)
  }

  ghost function NotionalSum(grants: seq<Grant>): int {
    if grants == [] then 0
    else
      var last := grants[|grants| - 1];
      NotionalSum(grants[..|grants| - 1]) + (if last.status.Released? then 0 else last.delta.notional)
  }

  /** The word records exactly the outstanding reservations. */
  ghost predicate Exact(s: State) {
    Position(s.word) == PositionSum(s.grants) && Notional(s.word) == NotionalSum(s.grants)
  }

  lemma SumAppend(grants: seq<Grant>, d: Delta)
    ensures PositionSum(grants + [Grant(d, Outstanding)]) == PositionSum(grants) + d.position
    ensures NotionalSum(grants + [Grant(d, Outstanding)]) == NotionalSum(grants) + d.notional
  {
    assert (grants + [Grant(d, Outstanding)])[..|grants|] == grants;
  }

  /** Changing the status of one reservation. */
  lemma {:induction false} SumUpdate(grants: seq<Grant>, i: nat, g: Grant)
    requires i < |grants| && g.delta == grants[i].delta && !grants[i].status.Released?
    ensures PositionSum(grants[i := g]) ==
            PositionSum(grants) - (if g.status.Released? then g.delta.position else 0)
    ensures NotionalSum(grants[i := g]) ==
            NotionalSum(grants) - (if g.status.Released? then g.delta.notional else 0)
  {
    var n := |grants| - 1;
    if i == n {
      assert grants[i := g][..n] == grants[..n];
    } else {
      assert grants[i := g][..n] == grants[..n][i := g];
      SumUpdate(grants[..n], i, g);
    }
  }

  // ---------------------------------------------------------------- without releases

  predicate IsReserve(pc: Pc) {
    pc.ReserveLoad? || pc.ReserveTry?
  }

  predicate IsRelease(pc: Pc) {
    pc.ReleaseLoad? || pc.ReleaseTry?
  }

  /** A step of a gate whose callers only reserve. */
  ghost predicate NextReserving(s: State, s': State) {
    exists t, e: Event :: t in s.pc && !e.Release? && s' == Step(s, t, e)
  }

  predicate FieldsHoldLimits(s: State) {
    s.maxPosition < TWO31 && s.maxNotional < TWO32
  }

  ghost predicate ReservingInv(s: State) {
    && FieldsHoldLimits(s) && Exact(s)
    && (forall t :: t in s.pc ==> !IsRelease(s.pc[t]))
    && (s.grants != [] ==> WithinLimits(s, Position(s.word), Notional(s.word)))
  }

  lemma PackExact(word: Word, position: int, notional: int)
    requires Fits(position, notional) && word == Pack(position, notional)
    ensures Position(word) == position && Notional(word) == notional
  {
    UnpackPack(position, notional);
  }

  lemma ReserveShape(s: State, t: Tid, s': State)
    requires t in s.pc && s.pc[t].ReserveTry? && s.word == s.pc[t].cur && s' == Step(s, t, Proceed)
    requires var d := s.pc[t].d; WithinLimits(s, Position(s.word) + d.position, Notional(s.word) + d.notional)
    ensures var d := s.pc[t].d;
      && s'.word == Pack(Position(s.word) + d.position, Notional(s.word) + d.notional)
      && s'.grants == s.grants + [Grant(d, Outstanding)] && HasLimits(s', s.maxPosition, s.maxNotional)
  {
  }

  /** A successful compare-and-swap of a reservation. */
  lemma CommitReserve(s: State, t: Tid)
    requires FieldsHoldLimits(s) && Exact(s) && t in s.pc && s.pc[t].ReserveTry? && s.word == s.pc[t].cur
    requires var d := s.pc[t].d; WithinLimits(s, Position(s.word) + d.position, Notional(s.word) + d.notional)
    ensures var s' := Step(s, t, Proceed);
      && s'.grants == s.grants + [Grant(s.pc[t].d, Outstanding)]
      && Exact(s') && WithinLimits(s', Position(s'.word), Notional(s'.word))
  {
    var d, s' := s.pc[t].d, Step(s, t, Proceed);
    ReserveShape(s, t, s');
    SumAppend(s.grants, d);
    PackExact(s'.word, Position(s.word) + d.position, Notional(s.word) + d.notional);
  }

  predicate Commits(s: State, t: Tid, e: Event)
    requires t in s.pc
  {
    var pc := s.pc[t];
    || (pc.ReserveTry? && s.word == pc.cur && !e.SpuriousFailure?
        && WithinLimits(s, Position(pc.cur) + pc.d.position, Notional(pc.cur) + pc.d.notional))
    || (pc.ReleaseTry? && s.word == pc.cur && !e.SpuriousFailure?)
  }

  /** A step that commits nothing leaves the word alone, and the reservations, but for marking one as being released. */
  lemma NothingCommitted(s: State, t: Tid, e: Event)
    requires t in s.pc && !Commits(s, t, e)
    ensures var s' := Step(s, t, e);
      && s'.word == s.word && HasLimits(s', s.maxPosition, s.maxNotional)
      && (s'.grants == s.grants
          || (s.pc[t].Idle? && e.Release? && e.grant < |s.grants| && s.grants[e.grant].status == Outstanding
              && s'.grants == s.grants[e.grant := s.grants[e.grant].(status := Releasing(t))]))
  {
  }

  lemma CommitIsProceed(s: State, t: Tid, e: Event)
    requires t in s.pc && Commits(s, t, e)
    ensures Step(s, t, e) == Step(s, t, Proceed)
  {
  }

  lemma NoReleases(s: State, t: Tid, e: Event)
    requires t in s.pc && !e.Release? && forall u :: u in s.pc ==> !IsRelease(s.pc[u])
    ensures forall u :: u in Step(s, t, e).pc ==> !IsRelease(Step(s, t, e).pc[u])
  {
  }

  lemma ReservingStep(s: State, t: Tid, e: Event, s': State)
    requires ReservingInv(s) && t in s.pc && !e.Release? && s' == Step(s, t, e)
    ensures ReservingInv(s')
  {
    NoReleases(s, t, e);
    if Commits(s, t, e) {
      CommitIsProceed(s, t, e);
      ReserveShape(s, t, s');
      CommitReserve(s, t);
    } else {
      NothingCommitted(s, t, e);
    }
  }

  /**
   With limits that the fields can hold, every interleaving of reservations -- of any orders
   whatsoever -- keeps the position and the notional within the limits, and loses none of them.
   */
  lemma ReservationsRespectLimits(s: State)
    requires Runs.Reachable(Init, NextReserving, s) && FieldsHoldLimits(s)
    ensures Exact(s)
    ensures s.grants != [] ==> WithinLimits(s, Position(s.word), Notional(s.word))
  {
    var run: seq<State> :| Runs.IsRun(Init, NextReserving, run) && run[|run| - 1] == s;
    LimitsFixed(run, 0);
    assert ReservingInv(run[0]);
    forall s, s' | ReservingInv(s) && NextReserving(s, s') ensures ReservingInv(s') {
      var t, e: Event :| t in s.pc && !e.Release? && s' == Step(s, t, e);
      ReservingStep(s, t, e, s');
    }
    Runs.InvariantOfRun(Init, NextReserving, ReservingInv, run);
  }

  lemma {:induction false} LimitsFixed(run: seq<State>, i: nat)
    requires Runs.IsRun(Init, NextReserving, run) && i < |run|
    ensures run[i].maxPosition == run[|run| - 1].maxPosition && run[i].maxNotional == run[|run| - 1].maxNotional
    decreases |run| - i
  {
    if i + 1 < |run| {
      assert NextReserving(run[i], run[i + 1]);
      LimitsFixed(run, i + 1);
    }
  }

  lemma Take(s: State, t: Tid, e: Event, s': State)
    requires Runs.Reachable(Init, NextReserving, s) && t in s.pc && !e.Release? && s' == Step(s, t, e)
    ensures Runs.Reachable(Init, NextReserving, s')
  {
    assert NextReserving(s, s');
    Runs.ReachableStep(Init, NextReserving, s, s');
  }

  predicate HasLimits(s: State, maxPosition: int, maxNotional: int) {
    s.maxPosition == maxPosition && s.maxNotional == maxNotional
  }

  /** The state of a fresh gate after one thread has reserved `o`. */
  lemma OneReservation(maxPosition: int, maxNotional: int, o: Order) returns (s: State)
    requires -maxPosition <= DeltaOf(o).position <= maxPosition && 0 <= DeltaOf(o).notional <= maxNotional
    ensures Runs.Reachable(Init, NextReserving, s)
    ensures HasLimits(s, maxPosition, maxNotional)
    ensures s.word == Pack(DeltaOf(o).position, DeltaOf(o).notional) && s.grants == [Grant(DeltaOf(o), Outstanding)]
  {
    var s0 := State(maxPosition, maxNotional, Pack(0, 0), map[0 := Idle], []);
    Runs.ReachableInit(Init, NextReserving, s0);
    var s1 := Step(s0, 0, Reserve(o)); Take(s0, 0, Reserve(o), s1);
    var s2 := Step(s1, 0, Proceed);    Take(s1, 0, Proceed, s2);
    s := Step(s2, 0, Proceed);         Take(s2, 0, Proceed, s);
  }

  /** A gate that admits no order with a quantity. */
  ghost predicate NothingAdmitted(s: State) {
    && (s.maxPosition <= 0 || s.maxNotional < 0)
    && Position(s.word) == Notional(s.word) == 0 && PositionSum(s.grants) == NotionalSum(s.grants) == 0
    && (forall t :: t in s.pc ==> !IsRelease(s.pc[t]))
    && (forall t :: t in s.pc && IsReserve(s.pc[t]) && s.pc[t].d.position == 0 ==> s.pc[t].d.notional == 0)
  }

  lemma PendingStep(s: State, t: Tid, e: Event)
    requires NothingAdmitted(s) && t in s.pc && !e.Release?
    ensures var s' := Step(s, t, e);
      forall u :: u in s'.pc && IsReserve(s'.pc[u]) && s'.pc[u].d.position == 0 ==> s'.pc[u].d.notional == 0
  {
  }

  lemma NothingAdmittedStep(s: State, t: Tid, e: Event, s': State)
    requires NothingAdmitted(s) && t in s.pc && !e.Release? && s' == Step(s, t, e)
    ensures NothingAdmitted(s')
  {
    NoReleases(s, t, e);
    PendingStep(s, t, e);
    if Commits(s, t, e) {
      CommitIsProceed(s, t, e);
      ReserveShape(s, t, s');
      SumAppend(s.grants, s.pc[t].d);
      assert s.pc[t].d == Delta(0, 0);
      UnpackPack(0, 0);
    } else {
      NothingCommitted(s, t, e);
    }
  }

  lemma NothingAdmittedIsExact(s: State)
    requires Runs.Reachable(Init, NextReserving, s) && (s.maxPosition <= 0 || s.maxNotional < 0)
    ensures Exact(s)
  {
    var run: seq<State> :| Runs.IsRun(Init, NextReserving, run) && run[|run| - 1] == s;
    LimitsFixed(run, 0);
    UnpackPack(0, 0);
    assert NothingAdmitted(run[0]);
    forall s, s' | NothingAdmitted(s) && NextReserving(s, s') ensures NothingAdmitted(s') {
      var t, e: Event :| t in s.pc && !e.Release? && s' == Step(s, t, e);
      NothingAdmittedStep(s, t, e, s');
    }
    Runs.InvariantOfRun(Init, NextReserving, NothingAdmitted, run);
  }

  /**
   The word is an exact record of the reservations, in every reachable state, exactly when the fields
   can hold the limits or the limits admit no quantity: a larger limit admits an order that does not
   fit its field.
   */
  lemma ExactIffFieldsHoldLimits(maxPosition: int, maxNotional: int)
    ensures (forall s | Runs.Reachable(Init, NextReserving, s) && HasLimits(s, maxPosition, maxNotional) :: Exact(s))
            <==> (maxPosition < TWO31 && maxNotional < TWO32) || maxPosition <= 0 || maxNotional < 0
  {
    if maxPosition < TWO31 && maxNotional < TWO32 {
      forall s | Runs.Reachable(Init, NextReserving, s) && HasLimits(s, maxPosition, maxNotional)
        ensures Exact(s)
      {
        ReservationsRespectLimits(s);
      }
    } else if maxPosition <= 0 || maxNotional < 0 {
      forall s | Runs.Reachable(Init, NextReserving, s) && HasLimits(s, maxPosition, maxNotional)
        ensures Exact(s)
      {
        NothingAdmittedIsExact(s);
      }
    } else {
      var o := if maxPosition >= TWO31 then Order(Buy, 0, TWO31) else Order(Buy, TWO32, 1);
      var s := OneReservation(maxPosition, maxNotional, o);
      SumAppend([], DeltaOf(o));
      assert [] + [Grant(DeltaOf(o), Outstanding)] == s.grants;
      UnpackPack(DeltaOf(o).position, DeltaOf(o).notional);
    }
  }

  // ---------------------------------------------------------------- with releases

  predicate NonNegative(o: Order) {
    o.price >= 0 && o.qty >= 0
  }

  ghost predicate OrdersNonNegative(s: State) {
    && (forall i :: 0 <= i < |s.grants| ==> s.grants[i].delta.notional >= 0)
    && (forall t :: t in s.pc && IsReserve(s.pc[t]) ==> s.pc[t].d.notional >= 0)
  }

  /** A thread that releases a reservation is the only one to do so, and is at it. */
  ghost predicate ReleaseInv(s: State) {
    && (forall t :: t in s.pc && IsRelease(s.pc[t]) ==>
          s.pc[t].grant < |s.grants| && s.grants[s.pc[t].grant].status == Releasing(t))
    && (forall i :: 0 <= i < |s.grants| ==> ReleaserAt(s, i))
  }

  ghost predicate ReleaserAt(s: State, i: nat)
    requires i < |s.grants|
  {
    s.grants[i].status.Releasing? ==>
      var t := s.grants[i].status.t;
      t in s.pc && IsRelease(s.pc[t]) && s.pc[t].grant == i
  }

  /** The notional is the outstanding sum, and the position its low 32 bits. */
  ghost predicate Recorded(s: State) {
    s.word.low == Low32(PositionSum(s.grants)) && Notional(s.word) == NotionalSum(s.grants)
  }

  /** The notional stays within its limit, once there is anything to count. */
  ghost predicate NotionalWithin(s: State) {
    s.grants != [] ==> 0 <= Notional(s.word) <= s.maxNotional
  }

  ghost predicate GateInv(s: State) {
    && s.maxNotional < TWO32 && Recorded(s) && OrdersNonNegative(s) && ReleaseInv(s) && NotionalWithin(s)
  }

  ghost predicate PositionFits(s: State) {
    -TWO31 <= PositionSum(s.grants) < TWO31
  }

  /** A step of a gate that is given orders of non-negative price and quantity. */
  ghost predicate NextGate(s: State, s': State) {
    exists t, e: Event :: t in s.pc && (e.Reserve? ==> NonNegative(e.o)) && s' == Step(s, t, e)
  }

  lemma {:induction false} NotionalNonNegative(grants: seq<Grant>)
    requires forall i :: 0 <= i < |grants| ==> grants[i].delta.notional >= 0
    ensures NotionalSum(grants) >= 0
  {
    if grants != [] { NotionalNonNegative(grants[..|grants| - 1]); }
  }

  /** Adding to the signed reading of the low bits is adding to the number, as far as the low bits go. */
  lemma LowBitsAdd(x: int, y: int)
    ensures Low32(SignExtend(Low32(x)) + y) == Low32(x + y)
  {
  }

  lemma ExactIffFits(s: State)
    requires Recorded(s)
    ensures Exact(s) <==> PositionFits(s)
  {
  }

  lemma RecordReserve(s: State, t: Tid, s': State)
    requires s.maxNotional < TWO32 && Recorded(s) && t in s.pc && s.pc[t].ReserveTry? && s.word == s.pc[t].cur
    requires var d := s.pc[t].d; WithinLimits(s, Position(s.word) + d.position, Notional(s.word) + d.notional)
    requires s' == Step(s, t, Proceed)
    ensures Recorded(s') && 0 <= Notional(s'.word) <= s'.maxNotional < TWO32
  {
    var d := s.pc[t].d;
    ReserveShape(s, t, s');
    SumAppend(s.grants, d);
    LowBitsAdd(PositionSum(s.grants), d.position);
  }

  lemma ReleaseShape(s: State, t: Tid, s': State)
    requires t in s.pc && s.pc[t].ReleaseTry? && s.word == s.pc[t].cur && s' == Step(s, t, Proceed)
    requires s.pc[t].grant < |s.grants|
    ensures var d := s.grants[s.pc[t].grant].delta;
      && s'.word == Pack(Position(s.word) - d.position, Max(0, Notional(s.word) - d.notional))
      && s'.grants == s.grants[s.pc[t].grant := Grant(d, Released)] && HasLimits(s', s.maxPosition, s.maxNotional)
      && s'.pc == s.pc[t := Idle]
  {
  }

  /** A successful compare-and-swap of a release. The clamp at zero never bites. */
  lemma CommitRelease(s: State, t: Tid)
    requires GateInv(s) && t in s.pc && s.pc[t].ReleaseTry? && s.word == s.pc[t].cur
    ensures s.pc[t].grant < |s.grants| && Notional(s.word) - s.grants[s.pc[t].grant].delta.notional >= 0
    ensures var s' := Step(s, t, Proceed); Recorded(s') && 0 <= Notional(s'.word) <= s'.maxNotional < TWO32
  {
    var g, s' := s.pc[t].grant, Step(s, t, Proceed);
    var d := s.grants[g].delta;
    ReleaseShape(s, t, s');
    SumUpdate(s.grants, g, Grant(d, Released));
    NotionalNonNegative(s'.grants);
    LowBitsAdd(PositionSum(s.grants), -d.position);
  }

  lemma OrdersStep(s: State, t: Tid, e: Event)
    requires OrdersNonNegative(s) && t in s.pc && (e.Reserve? ==> NonNegative(e.o))
    ensures OrdersNonNegative(Step(s, t, e))
  {
  }

  lemma OneReleaser(s: State, t: Tid, e: Event)
    requires ReleaseInv(s) && t in s.pc
    ensures var s' := Step(s, t, e);
      forall u :: u in s'.pc && IsRelease(s'.pc[u]) ==>
        s'.pc[u].grant < |s'.grants| && s'.grants[s'.pc[u].grant].status == Releasing(u)
  {
    var s' := Step(s, t, e);
    forall u | u in s'.pc && IsRelease(s'.pc[u])
      ensures s'.pc[u].grant < |s'.grants| && s'.grants[s'.pc[u].grant].status == Releasing(u)
    {
      if u != t { assert s.pc[u] == s'.pc[u] && s.grants[s.pc[u].grant].status == Releasing(u); }
    }
  }

  lemma ReleaserStays(s: State, t: Tid, e: Event)
    requires ReleaseInv(s) && t in s.pc
    ensures forall i :: 0 <= i < |Step(s, t, e).grants| ==> ReleaserAt(Step(s, t, e), i)
  {
    var s' := Step(s, t, e);
    forall i | 0 <= i < |s'.grants| ensures ReleaserAt(s', i) {
      if i < |s.grants| { assert ReleaserAt(s, i); }
    }
  }

  /** Marking a reservation as being released, or not even that. */
  lemma UnwrittenKeepsRecord(s: State, s': State, g: nat, status: Status)
    requires Recorded(s) && NotionalWithin(s)
    requires s'.word == s.word && HasLimits(s', s.maxPosition, s.maxNotional)
    requires s'.grants == s.grants
      || (g < |s.grants| && s.grants[g].status == Outstanding && !status.Released?
          && s'.grants == s.grants[g := s.grants[g].(status := status)])
    ensures Recorded(s') && NotionalWithin(s')
  {
    if s'.grants != s.grants {
      SumUpdate(s.grants, g, s.grants[g].(status := status));
    }
  }

  lemma RecordStep(s: State, t: Tid, e: Event, s': State)
    requires GateInv(s) && t in s.pc && s' == Step(s, t, e)
    ensures s'.maxNotional < TWO32 && Recorded(s') && NotionalWithin(s')
  {
    if Commits(s, t, e) {
      CommitIsProceed(s, t, e);
      if s.pc[t].ReserveTry? { RecordReserve(s, t, s'); } else { CommitRelease(s, t); }
    } else {
      NothingCommitted(s, t, e);
      UnwrittenKeepsRecord(s, s', if e.Release? then e.grant else 0, Releasing(t));
    }
  }

  lemma GateStep(s: State, t: Tid, e: Event)
    requires GateInv(s) && t in s.pc && (e.Reserve? ==> NonNegative(e.o))
    ensures GateInv(Step(s, t, e))
  {
    OrdersStep(s, t, e);
    OneReleaser(s, t, e);
    ReleaserStays(s, t, e);
    RecordStep(s, t, e, Step(s, t, e));
  }

  /**
   With reservations and releases interleaved arbitrarily, the notional is exactly the outstanding sum
   and within its limit, and the position is exact exactly as long as the outstanding position fits 32 bits.
   */
  lemma ReleasesKeepExact(run: seq<State>)
    requires Runs.IsRun(Init, NextGate, run) && run[0].maxNotional < TWO32
    ensures forall i :: 0 <= i < |run| ==>
      && Notional(run[i].word) == NotionalSum(run[i].grants) && NotionalWithin(run[i])
      && (Exact(run[i]) <==> PositionFits(run[i]))
  {
    forall s, s' | GateInv(s) && NextGate(s, s') ensures GateInv(s') {
      var t, e: Event :| t in s.pc && (e.Reserve? ==> NonNegative(e.o)) && s' == Step(s, t, e);
      GateStep(s, t, e);
    }
    Runs.InvariantOfRun(Init, NextGate, GateInv, run);
    forall i | 0 <= i < |run| ensures Recorded(run[i]) && (Exact(run[i]) <==> PositionFits(run[i])) {
      assert GateInv(run[i]);
      ExactIffFits(run[i]);
    }
  }

  // ---------------------------------------------------------------- priced orders

  /** Every unit costs at least one: then the notional bounds the position. */
  predicate Priced(o: Order) {
    o.price >= 1 && o.qty >= 0
  }

  predicate Bounded(d: Delta) {
    -d.notional <= d.position <= d.notional
  }

  lemma PricedIsBounded(o: Order)
    requires Priced(o)
    ensures Bounded(DeltaOf(o)) && DeltaOf(o).notional >= 0
  {
    assert o.price * o.qty == o.qty + (o.price - 1) * o.qty >= o.qty;
  }

  ghost predicate OrdersPriced(s: State) {
    && (forall i :: 0 <= i < |s.grants| ==> Bounded(s.grants[i].delta))
    && (forall t :: t in s.pc && IsReserve(s.pc[t]) ==> Bounded(s.pc[t].d))
  }

  ghost predicate NextPriced(s: State, s': State) {
    exists t, e: Event :: t in s.pc && (e.Reserve? ==> Priced(e.o)) && s' == Step(s, t, e)
  }

  lemma {:induction false} NotionalBoundsPosition(grants: seq<Grant>)
    requires forall i :: 0 <= i < |grants| ==> Bounded(grants[i].delta)
    ensures -NotionalSum(grants) <= PositionSum(grants) <= NotionalSum(grants)
  {
    if grants != [] { NotionalBoundsPosition(grants[..|grants| - 1]); }
  }

  ghost predicate PricedInv(s: State) {
    GateInv(s) && OrdersPriced(s) && s.maxNotional < TWO31
  }

  lemma PricedOrdersStep(s: State, t: Tid, e: Event)
    requires OrdersPriced(s) && t in s.pc && (e.Reserve? ==> Priced(e.o))
    ensures OrdersPriced(Step(s, t, e))
  {
    if e.Reserve? { PricedIsBounded(e.o); }
  }

  lemma LimitsStay(s: State, t: Tid, e: Event)
    requires t in s.pc
    ensures HasLimits(Step(s, t, e), s.maxPosition, s.maxNotional)
  {
  }

  lemma PricedFits(s: State)
    requires PricedInv(s)
    ensures Exact(s)
  {
    NotionalBoundsPosition(s.grants);
    NotionalBelow(s);
    ExactIffFits(s);
  }

  /** With a limit below 2^31 the outstanding notional is below it too. */
  lemma NotionalBelow(s: State)
    requires GateInv(s) && s.maxNotional < TWO31
    ensures NotionalSum(s.grants) < TWO31
  {
  }

  lemma PricedStep(s: State, t: Tid, e: Event)
    requires PricedInv(s) && t in s.pc && (e.Reserve? ==> Priced(e.o))
    ensures PricedInv(Step(s, t, e))
  {
    PricedOrdersStep(s, t, e);
    GateStep(s, t, e);
    LimitsStay(s, t, e);
  }

  /**
   If every unit costs at least one and the notional limit is below 2^31, nothing has to be assumed
   about the run: the word is exact and the notional within its limit, whatever is reserved and released.
   */
  lemma PricedGateIsExact(run: seq<State>)
    requires Runs.IsRun(Init, NextPriced, run) && run[0].maxNotional < TWO31
    ensures forall i :: 0 <= i < |run| ==> Exact(run[i]) && NotionalWithin(run[i])
  {
    forall s, s' | PricedInv(s) && NextPriced(s, s') ensures PricedInv(s') {
      var t, e: Event :| t in s.pc && (e.Reserve? ==> Priced(e.o)) && s' == Step(s, t, e);
      PricedStep(s, t, e);
    }
    Runs.InvariantOfRun(Init, NextPriced, PricedInv, run);
    forall i | 0 <= i < |run| ensures Exact(run[i]) && NotionalWithin(run[i]) {
      assert PricedInv(run[i]);
      PricedFits(run[i]);
    }
  }

  // ---------------------------------------------------------------- the position limit

  predicate PositionWithin(s: State) {
    -s.maxPosition <= Position(s.word) <= s.maxPosition
  }

  lemma ReachableGate(s: State)
    requires Runs.Reachable(Init, NextGate, s) && s.maxNotional < TWO32
    ensures GateInv(s)
  {
    var run: seq<State> :| Runs.IsRun(Init, NextGate, run) && run[|run| - 1] == s;
    GateLimitsFixed(run, 0);
    forall s, s' | GateInv(s) && NextGate(s, s') ensures GateInv(s') {
      var t, e: Event :| t in s.pc && (e.Reserve? ==> NonNegative(e.o)) && s' == Step(s, t, e);
      GateStep(s, t, e);
    }
    Runs.InvariantOfRun(Init, NextGate, GateInv, run);
  }

  lemma {:induction false} GateLimitsFixed(run: seq<State>, i: nat)
    requires Runs.IsRun(Init, NextGate, run) && i < |run|
    ensures HasLimits(run[i], run[|run| - 1].maxPosition, run[|run| - 1].maxNotional)
    decreases |run| - i
  {
    if i + 1 < |run| {
      assert NextGate(run[i], run[i + 1]);
      var t, e: Event :| t in run[i].pc && run[i + 1] == Step(run[i], t, e);
      LimitsStay(run[i], t, e);
      GateLimitsFixed(run, i + 1);
    }
  }

  /** Gross quantity bought by the reservations not yet given back. */
  ghost function Long(grants: seq<Grant>): int {
    if grants == [] then 0
    else
      var last := grants[|grants| - 1];
      Long(grants[..|grants| - 1]) + (if last.status.Released? then 0 else Max(0, last.delta.position))
  }

  /** Gross quantity sold by the reservations not yet given back. */
  ghost function Short(grants: seq<Grant>): int {
    if grants == [] then 0
    else
      var last := grants[|grants| - 1];
      Short(grants[..|grants| - 1]) + (if last.status.Released? then 0 else Max(0, -last.delta.position))
  }

  lemma {:induction false} GrossAndNet(grants: seq<Grant>)
    ensures PositionSum(grants) == Long(grants) - Short(grants) && Long(grants) >= 0 && Short(grants) >= 0
  {
    if grants != [] { GrossAndNet(grants[..|grants| - 1]); }
  }

  /** Changing the status of one reservation. */
  lemma {:induction false} GrossUpdate(grants: seq<Grant>, i: nat, g: Grant)
    requires i < |grants| && g.delta == grants[i].delta && !grants[i].status.Released?
    ensures Long(grants[i := g]) == Long(grants) - (if g.status.Released? then Max(0, g.delta.position) else 0)
    ensures Short(grants[i := g]) == Short(grants) - (if g.status.Released? then Max(0, -g.delta.position) else 0)
  {
    var n := |grants| - 1;
    if i == n {
      assert grants[i := g][..n] == grants[..n];
    } else {
      assert grants[i := g][..n] == grants[..n][i := g];
      GrossUpdate(grants[..n], i, g);
    }
  }

  /** A step of a release: one begins, or one under way goes on. */
  ghost predicate NextReleasing(s: State, s': State) {
    exists t, e: Event :: t in s.pc && !IsReserve(s.pc[t]) && !e.Reserve? && s' == Step(s, t, e)
  }

  ghost function From(s: State): State -> bool {
    x => x == s
  }

  /** Releases, and nothing else, lead from `s` to `s'`. */
  ghost predicate LeadsTo(s: State, s': State) {
    Runs.Reachable(From(s), NextReleasing, s')
  }

  ghost predicate GrossAtMost(s: State, maxPosition: int, maxNotional: int, bought: int, sold: int) {
    && GateInv(s) && HasLimits(s, maxPosition, maxNotional)
    && Long(s.grants) <= bought && Short(s.grants) <= sold
  }

  lemma ReleasingStep(s: State, t: Tid, e: Event, s': State)
    requires GateInv(s) && t in s.pc && !IsReserve(s.pc[t]) && !e.Reserve? && s' == Step(s, t, e)
    ensures GrossAtMost(s', s.maxPosition, s.maxNotional, Long(s.grants), Short(s.grants))
  {
    GateStep(s, t, e);
    LimitsStay(s, t, e);
    if Commits(s, t, e) {
      CommitIsProceed(s, t, e);
      ReleaseShape(s, t, s');
      GrossUpdate(s.grants, s.pc[t].grant, Grant(s.grants[s.pc[t].grant].delta, Released));
    } else {
      NothingCommitted(s, t, e);
      if s'.grants != s.grants {
        GrossUpdate(s.grants, e.grant, s.grants[e.grant].(status := Releasing(t)));
      }
    }
  }

  /** Releases never add to what is bought or sold. */
  lemma GrossOnlyFalls(s: State, s': State)
    requires GateInv(s) && LeadsTo(s, s')
    ensures GrossAtMost(s', s.maxPosition, s.maxNotional, Long(s.grants), Short(s.grants))
  {
    var maxPosition, maxNotional, bought, sold := s.maxPosition, s.maxNotional, Long(s.grants), Short(s.grants);
    var inv := (x: State) => GrossAtMost(x, maxPosition, maxNotional, bought, sold);
    forall x, x' | inv(x) && NextReleasing(x, x') ensures inv(x') {
      var t, e: Event :| t in x.pc && !IsReserve(x.pc[t]) && !e.Reserve? && x' == Step(x, t, e);
      ReleasingStep(x, t, e, x');
    }
    Runs.InvariantOfReachable(From(s), NextReleasing, inv, s');
  }

  lemma Continue(s0: State, s: State, t: Tid, e: Event, s': State)
    requires LeadsTo(s0, s) && GateInv(s) && t in s.pc && !IsReserve(s.pc[t]) && !e.Reserve? && s' == Step(s, t, e)
    ensures LeadsTo(s0, s') && GateInv(s')
  {
    assert NextReleasing(s, s');
    Runs.ReachableStep(From(s0), NextReleasing, s, s');
    GateStep(s, t, e);
  }

  /** A release under way can be finished by its thread alone. */
  lemma FinishRelease(s0: State, s: State, t: Tid) returns (s': State)
    requires LeadsTo(s0, s) && GateInv(s) && t in s.pc && IsRelease(s.pc[t])
    ensures LeadsTo(s0, s') && GateInv(s') && HasLimits(s', s.maxPosition, s.maxNotional)
    ensures s.pc[t].grant < |s.grants| && s'.pc == s.pc[t := Idle]
    ensures s'.grants == s.grants[s.pc[t].grant := Grant(s.grants[s.pc[t].grant].delta, Released)]
  {
    var s1 := Step(s, t, SpuriousFailure);
    Continue(s0, s, t, SpuriousFailure, s1);
    assert s1.pc[t] == ReleaseTry(s.pc[t].grant, s.word) && s1.word == s.word && s1.grants == s.grants;
    s' := Step(s1, t, Proceed);
    Continue(s0, s1, t, Proceed, s');
    ReleaseShape(s1, t, s');
    assert s1.pc[t := Idle] == s.pc[t := Idle];
  }

  /** Any one reservation can be given back, by the thread at it or by an idle one. */
  lemma ReleaseOne(s0: State, s: State, u: Tid, i: nat) returns (s': State)
    requires LeadsTo(s0, s) && GateInv(s) && u in s.pc && s.pc[u] == Idle
    requires i < |s.grants| && !s.grants[i].status.Released?
    ensures LeadsTo(s0, s') && GateInv(s') && HasLimits(s', s.maxPosition, s.maxNotional)
    ensures u in s'.pc && s'.pc[u] == Idle
    ensures s'.grants == s.grants[i := Grant(s.grants[i].delta, Released)]
  {
    if s.grants[i].status == Outstanding {
      var s1 := Step(s, u, Release(i));
      Continue(s0, s, u, Release(i), s1);
      s' := FinishRelease(s0, s1, u);
      assert s1.grants[i := Grant(s.grants[i].delta, Released)] == s.grants[i := Grant(s.grants[i].delta, Released)];
    } else {
      assert ReleaserAt(s, i);
      s' := FinishRelease(s0, s, s.grants[i].status.t);
    }
  }

  /** The reservations that stand against the bought side, or against the sold side. */
  ghost function Against(grants: seq<Grant>, buys: bool): set<nat> {
    set i: nat | i < |grants| && !grants[i].status.Released?
                 && (if buys then grants[i].delta.position < 0 else grants[i].delta.position > 0)
  }

  ghost function Kept(grants: seq<Grant>, buys: bool): int {
    if buys then Long(grants) else Short(grants)
  }

  lemma {:induction false} NoneAgainst(grants: seq<Grant>, buys: bool)
    requires Against(grants, buys) == {}
    ensures PositionSum(grants) == if buys then Long(grants) else -Short(grants)
  {
    if grants != [] {
      var n := |grants| - 1;
      assert forall i :: i in Against(grants[..n], buys) ==> i in Against(grants, buys);
      assert n !in Against(grants, buys);
      NoneAgainst(grants[..n], buys);
    }
  }

  /** Everything against one side can be given back, and that side stays as it is. */
  lemma {:induction false} ReleaseAgainst(s0: State, s: State, u: Tid, buys: bool) returns (s': State)
    requires LeadsTo(s0, s) && GateInv(s) && u in s.pc && s.pc[u] == Idle
    ensures LeadsTo(s0, s') && GateInv(s') && HasLimits(s', s.maxPosition, s.maxNotional)
    ensures Against(s'.grants, buys) == {} && Kept(s'.grants, buys) == Kept(s.grants, buys)
    decreases |Against(s.grants, buys)|
  {
    if Against(s.grants, buys) == {} {
      s' := s;
    } else {
      var i: nat :| i in Against(s.grants, buys);
      var s1 := ReleaseOne(s0, s, u, i);
      GrossUpdate(s.grants, i, Grant(s.grants[i].delta, Released));
      assert Against(s1.grants, buys) == Against(s.grants, buys) - {i};
      s' := ReleaseAgainst(s0, s1, u, buys);
    }
  }

  /**
   release does not check the position limit. Whatever is released, in whatever order, the word stays
   exact and within the limit, exactly when both the gross quantity bought and the gross quantity sold
   by the outstanding reservations are within it.
   */
  lemma ReleasesStayWithinIff(s: State)
    requires Runs.Reachable(Init, NextGate, s) && FieldsHoldLimits(s)
    requires exists u :: u in s.pc && s.pc[u] == Idle
    ensures (forall s' :: LeadsTo(s, s') ==> Exact(s') && PositionWithin(s'))
            <==> Long(s.grants) <= s.maxPosition && Short(s.grants) <= s.maxPosition
  {
    ReachableGate(s);
    if Long(s.grants) <= s.maxPosition && Short(s.grants) <= s.maxPosition {
      forall s' | LeadsTo(s, s') ensures Exact(s') && PositionWithin(s') {
        GrossOnlyFalls(s, s');
        GrossAndNet(s'.grants);
        ExactIffFits(s');
      }
    } else {
      var u :| u in s.pc && s.pc[u] == Idle;
      var buys := Long(s.grants) > s.maxPosition;
      Runs.ReachableInit(From(s), NextReleasing, s);
      var s' := ReleaseAgainst(s, s, u, buys);
      NoneAgainst(s'.grants, buys);
    }
  }

  // ---------------------------------------------------------------- runs that fail

  lemma TakeGate(s: State, t: Tid, e: Event, s': State)
    requires Runs.Reachable(Init, NextGate, s) && t in s.pc && (e.Reserve? ==> NonNegative(e.o)) && s' == Step(s, t, e)
    ensures Runs.Reachable(Init, NextGate, s')
  {
    assert NextGate(s, s');
    Runs.ReachableStep(Init, NextGate, s, s');
  }

  /** Thread 0 has nothing under way, and the word is the record of what is outstanding. */
  ghost predicate Ready(s: State) {
    Runs.Reachable(Init, NextGate, s) && 0 in s.pc && s.pc[0] == Idle && FieldsHoldLimits(s) && Exact(s)
  }

  /** A reservation by thread 0 alone. */
  lemma ReserveNow(s: State, o: Order) returns (s': State)
    requires Ready(s) && NonNegative(o)
    requires WithinLimits(s, Position(s.word) + DeltaOf(o).position, Notional(s.word) + DeltaOf(o).notional)
    ensures Ready(s') && HasLimits(s', s.maxPosition, s.maxNotional)
    ensures s'.grants == s.grants + [Grant(DeltaOf(o), Outstanding)]
    ensures Position(s'.word) == Position(s.word) + DeltaOf(o).position
    ensures Notional(s'.word) == Notional(s.word) + DeltaOf(o).notional
  {
    var s1 := Step(s, 0, Reserve(o));
    TakeGate(s, 0, Reserve(o), s1);
    var s2 := Step(s1, 0, Proceed);
    TakeGate(s1, 0, Proceed, s2);
    CommitReserve(s2, 0);
    SumAppend(s.grants, DeltaOf(o));
    s' := Step(s2, 0, Proceed);
    TakeGate(s2, 0, Proceed, s');
  }

  /** A release by thread 0 alone. */
  lemma ReleaseNow(s: State, g: nat) returns (s': State)
    requires Ready(s) && g < |s.grants| && s.grants[g].status == Outstanding
    ensures Runs.Reachable(Init, NextGate, s') && HasLimits(s', s.maxPosition, s.maxNotional) && GateInv(s')
    ensures PositionSum(s'.grants) == PositionSum(s.grants) - s.grants[g].delta.position
  {
    var s1 := Step(s, 0, Release(g));
    TakeGate(s, 0, Release(g), s1);
    var s2 := Step(s1, 0, Proceed);
    TakeGate(s1, 0, Proceed, s2);
    s' := Step(s2, 0, Proceed);
    ReleaseShape(s2, 0, s');
    assert s'.grants == s.grants[g := Grant(s.grants[g].delta, Released)];
    SumUpdate(s.grants, g, Grant(s.grants[g].delta, Released));
    TakeGate(s2, 0, Proceed, s');
    ReachableGate(s');
  }

  /** With any position limit: sell as much as it allows, buy twice as much, and release the sell. */
  lemma SellBuyTwiceRelease(maxPosition: nat) returns (s: State)
    requires maxPosition < TWO31
    ensures Runs.Reachable(Init, NextGate, s) && HasLimits(s, maxPosition, 0) && GateInv(s)
    ensures PositionSum(s.grants) == 2 * maxPosition
  {
    var s0 := State(maxPosition, 0, Pack(0, 0), map[0 := Idle], []);
    Runs.ReachableInit(Init, NextGate, s0);
    var s1 := ReserveNow(s0, Order(Sell, 0, maxPosition));
    var s2 := ReserveNow(s1, Order(Buy, 0, maxPosition));
    var s3 := ReserveNow(s2, Order(Buy, 0, maxPosition));
    s := ReleaseNow(s3, 0);
  }

  /** A limit of 1 is passed after three reservations and one release. */
  lemma ReleasePassesPositionLimit() returns (s: State)
    ensures Runs.Reachable(Init, NextGate, s) && HasLimits(s, 1, 0) && Position(s.word) == 2 && !PositionWithin(s)
  {
    s := SellBuyTwiceRelease(1);
    ExactIffFits(s);
  }

  /** With the largest limit that the field holds, the outstanding position leaves its 32 bits. */
  lemma ReleaseLeavesField() returns (s: State)
    ensures Runs.Reachable(Init, NextGate, s) && FieldsHoldLimits(s) && !PositionFits(s) && !Exact(s)
  {
    s := SellBuyTwiceRelease(TWO31 - 1);
    ExactIffFits(s);
  }
}
