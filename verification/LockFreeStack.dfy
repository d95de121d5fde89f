/**
 The Treiber stack: a singly linked list claimed by a compare-and-swap on its head. Popped nodes are
 parked on a second list and never freed or written again while the stack lives, so an address always
 names the same node. One call of `Act` is one atomic access by one thread.
 */
module LockFreeStack {
  import Runs
  import opened Options

  type Value = int
  type Ptr = nat
  type Tid = nat

  datatype Node = Node(value: Value, next: Option<Ptr>)

  /** The wrapper that keeps a popped node on the retired list. */
  datatype Cell = Cell(node: Ptr, next: Option<Ptr>)

  datatype Pc =
    | Idle
    | PushLoad(n: Ptr)                                  // cur = head_
    | PushLink(n: Ptr, cur: Option<Ptr>)                // node->next = cur
    | PushCas(n: Ptr, cur: Option<Ptr>)                 // compare_exchange_weak(head_, cur, node)
    | PopLoad                                           // cur = head_
    | PopNext(top: Ptr)                                 // next = cur->next
    | PopCas(top: Ptr, next: Option<Ptr>)               // compare_exchange_weak(head_, cur, next)
    | PopTake(n: Ptr)                                   // out = cur->value
    | PopEmpty                                          // about to return false
    | RetireNew(n: Ptr, out: Value)                     // cell = new RetiredCell{n, nullptr}
    | RetireLoad(n: Ptr, c: Ptr, out: Value)            // r = retired_
    | RetireLink(n: Ptr, c: Ptr, cur: Option<Ptr>, out: Value)   // cell->next = r
    | RetireCas(n: Ptr, c: Ptr, cur: Option<Ptr>, out: Value)    // compare_exchange_weak(retired_, r, cell)

  /** What the environment decides: the call of an idle thread, the address an allocation returns, spurious failures. */
  datatype Event = CallPush(v: Value, at: Ptr) | CallPop | Proceed | Allocate(at: Ptr) | SpuriousFailure

  datatype Memory = Memory(
    head: Option<Ptr>, nodes: map<Ptr, Node>, retired: Option<Ptr>, cells: map<Ptr, Cell>, pc: map<Tid, Pc>)

  function Goto(m: Memory, t: Tid, pc: Pc): Memory {
    m.(pc := m.pc[t := pc])
  }

  /** What the loops do with the head they have just seen. */
  function SawHead(head: Option<Ptr>): Pc {
    if head == None then PopEmpty else PopNext(head.value)
  }

  /** The nodes and cells that the next step of a thread dereferences are allocated. */
  ghost predicate Dereferences(m: Memory, pc: Pc) {
    && (pc.PushLink? || pc.PopTake? ==> pc.n in m.nodes)
    && (pc.PopNext? ==> pc.top in m.nodes)
    && (pc.RetireLink? ==> pc.c in m.cells)
  }

  function Act(m: Memory, t: Tid, e: Event): Memory
    requires t in m.pc && Dereferences(m, m.pc[t])
  {
    match m.pc[t]
    case Idle =>
      if e.CallPush? && e.at !in m.nodes then
        Goto(m.(nodes := m.nodes[e.at := Node(e.v, None)]), t, PushLoad(e.at))
      else if e.CallPop? then Goto(m, t, PopLoad)
      else m
    case PushLoad(n) => Goto(m, t, PushLink(n, m.head))
    case PushLink(n, cur) => Goto(m.(nodes := m.nodes[n := m.nodes[n].(next := cur)]), t, PushCas(n, cur))
    case PushCas(n, cur) =>
      if m.head == cur && !e.SpuriousFailure?
      then Goto(m.(head := Some(n)), t, Idle)
      else Goto(m, t, PushLink(n, m.head))
    case PopLoad => Goto(m, t, SawHead(m.head))
    case PopNext(top) => Goto(m, t, PopCas(top, m.nodes[top].next))
    case PopCas(top, next) =>
      if m.head == Some(top) && !e.SpuriousFailure?
      then Goto(m.(head := next), t, PopTake(top))
      else Goto(m, t, SawHead(m.head))
    case PopTake(n) => Goto(m, t, RetireNew(n, m.nodes[n].value))
    case PopEmpty => Goto(m, t, Idle)
    case RetireNew(n, out) =>
      if e.Allocate? && e.at !in m.cells
      then Goto(m.(cells := m.cells[e.at := Cell(n, None)]), t, RetireLoad(n, e.at, out))
      else m
    case RetireLoad(n, c, out) => Goto(m, t, RetireLink(n, c, m.retired, out))
    case RetireLink(n, c, cur, out) =>
      Goto(m.(cells := m.cells[c := m.cells[c].(next := cur)]), t, RetireCas(n, c, cur, out))
    case RetireCas(n, c, cur, out) =>
      if m.retired == cur && !e.SpuriousFailure?
      then Goto(m.(retired := Some(c)), t, Idle)
      else Goto(m, t, RetireLink(n, c, m.retired, out))
  }

  /** Where an allocated node or cell is: in the hands of a thread, or at a position of a list. */
  datatype Place = Held(t: Tid) | Live(i: nat) | Parked(i: nat)

  /**
   The memory with its history: `live` lists the nodes pushed and not popped, oldest first; `parked` the
   cells put on the retired list, oldest first; `place` and `cellPlace` say where each allocation is.
   */
  datatype State = State(
    m: Memory, live: seq<Ptr>, parked: seq<Ptr>, place: map<Ptr, Place>, cellPlace: map<Ptr, Place>)

  ghost predicate Init(s: State) {
    && s.m.head == None && s.m.retired == None && s.m.nodes == map[] && s.m.cells == map[]
    && s.live == [] && s.parked == [] && s.place == map[] && s.cellPlace == map[]
    && forall t :: t in s.m.pc ==> s.m.pc[t] == Idle
  }

  ghost function Step(s: State, t: Tid, e: Event): State
    requires t in s.m.pc && Dereferences(s.m, s.m.pc[t])
  {
    var m' := Act(s.m, t, e);
    var pc, pc' := s.m.pc[t], m'.pc[t];
    if pc.Idle? && pc'.PushLoad? then
      s.(m := m', place := s.place[pc'.n := Held(t)])
    else if pc.PushCas? && pc'.Idle? then
      s.(m := m', live := s.live + [pc.n], place := s.place[pc.n := Live(|s.live|)])
    else if pc.PopCas? && pc'.PopTake? && s.live != [] then
      s.(m := m', live := s.live[..|s.live| - 1], place := s.place[pc.top := Held(t)])
    else if pc.RetireNew? && pc'.RetireLoad? then
      s.(m := m', cellPlace := s.cellPlace[pc'.c := Held(t)])
    else if pc.RetireCas? && pc'.Idle? then
      s.(m := m', parked := s.parked + [pc.c],
         place := s.place[pc.n := Parked(|s.parked|)], cellPlace := s.cellPlace[pc.c := Parked(|s.parked|)])
    else
      s.(m := m')
  }

  ghost predicate Next(s: State, s': State) {
    exists t, e :: t in s.m.pc && Dereferences(s.m, s.m.pc[t]) && s' == Step(s, t, e)
  }

  // ---------------------------------------------------------------- invariant

  /** The thread has allocated a node and not yet published it. */
  predicate Pushing(pc: Pc) {
    pc.PushLoad? || pc.PushLink? || pc.PushCas?
  }

  /** The thread has popped a node and not yet parked it. */
  predicate Retiring(pc: Pc) {
    pc.PopTake? || pc.RetireNew? || HasCell(pc)
  }

  predicate HasCell(pc: Pc) {
    pc.RetireLoad? || pc.RetireLink? || pc.RetireCas?
  }

  ghost predicate Published(s: State, p: Ptr) {
    && p in s.m.nodes && p in s.place
    && !(s.place[p].Held? && s.place[p].t in s.m.pc && Pushing(s.m.pc[s.place[p].t]))
  }

  function Below(a: seq<Ptr>, i: nat): Option<Ptr>
    requires i <= |a|
  {
    if i == 0 then None else Some(a[i - 1])
  }

  /** The node at position `i` of the chain that hangs off the head. */
  ghost predicate LiveAt(s: State, i: nat)
    requires i < |s.live|
  {
    var p := s.live[i];
    p in s.m.nodes && p in s.place && s.place[p] == Live(i) && s.m.nodes[p].next == Below(s.live, i)
  }

  ghost predicate ParkedAt(s: State, i: nat)
    requires i < |s.parked|
  {
    var c := s.parked[i];
    && c in s.m.cells && c in s.cellPlace && s.cellPlace[c] == Parked(i) && s.m.cells[c].next == Below(s.parked, i)
    && s.m.cells[c].node in s.place && s.place[s.m.cells[c].node] == Parked(i)
  }

  /** A node is where its place says. */
  ghost predicate Accounted(s: State, p: Ptr)
    requires p in s.place
  {
    match s.place[p]
    case Held(t) => t in s.m.pc && (Pushing(s.m.pc[t]) || Retiring(s.m.pc[t])) && s.m.pc[t].n == p
    case Live(i) => i < |s.live| && s.live[i] == p
    case Parked(i) => i < |s.parked| && s.parked[i] in s.m.cells && s.m.cells[s.parked[i]].node == p
  }

  ghost predicate ThreadInv(s: State, t: Tid)
    requires t in s.m.pc
  {
    var m, pc := s.m, s.m.pc[t];
    && (Pushing(pc) || Retiring(pc) ==> pc.n in m.nodes && pc.n in s.place && s.place[pc.n] == Held(t))
    && (HasCell(pc) ==> pc.c in m.cells && m.cells[pc.c].node == pc.n && pc.c in s.cellPlace && s.cellPlace[pc.c] == Held(t))
    && (pc.PushCas? ==> m.nodes[pc.n].next == pc.cur)
    && (pc.PopNext? || pc.PopCas? ==> Published(s, pc.top))
    && (pc.PopCas? ==> m.nodes[pc.top].next == pc.next)
    && (pc.RetireCas? ==> m.cells[pc.c].next == pc.cur)
    && (pc.RetireNew? || HasCell(pc) ==> pc.out == m.nodes[pc.n].value)
  }

  ghost predicate Inv(s: State) {
    && s.place.Keys == s.m.nodes.Keys
    && s.m.head == Below(s.live, |s.live|)
    && s.m.retired == Below(s.parked, |s.parked|)
    && (forall i :: 0 <= i < |s.live| ==> LiveAt(s, i))
    && (forall i :: 0 <= i < |s.parked| ==> ParkedAt(s, i))
    && (forall p :: p in s.place ==> Accounted(s, p))
    && (forall t :: t in s.m.pc ==> ThreadInv(s, t))
  }

  lemma InvInit(s: State)
    requires Init(s)
    ensures Inv(s)
  {
  }

  lemma NewNodeStep(s: State, t: Tid, v: Value, at: Ptr, s': State)
    requires Inv(s) && t in s.m.pc && s.m.pc[t].Idle? && at !in s.m.nodes
    requires s' == s.(m := Goto(s.m.(nodes := s.m.nodes[at := Node(v, None)]), t, PushLoad(at)),
                      place := s.place[at := Held(t)])
    ensures Inv(s')
  {
    forall i | 0 <= i < |s'.live| ensures LiveAt(s', i) { assert LiveAt(s, i); }
    forall i | 0 <= i < |s'.parked| ensures ParkedAt(s', i) { assert ParkedAt(s, i); }
    forall p | p in s'.place ensures Accounted(s', p) { if p != at { assert Accounted(s, p); } }
    forall u | u in s'.m.pc ensures ThreadInv(s', u) { assert ThreadInv(s, u); }
  }

  /** A step that changes only the program counter, not what the thread holds or has linked. */
  lemma QuietStep(s: State, t: Tid, pc: Pc, s': State)
    requires Inv(s) && t in s.m.pc && s' == s.(m := Goto(s.m, t, pc))
    requires Pushing(pc) == Pushing(s.m.pc[t]) && Retiring(pc) == Retiring(s.m.pc[t]) && HasCell(pc) == HasCell(s.m.pc[t])
    requires Pushing(pc) || Retiring(pc) ==> pc.n == s.m.pc[t].n
    requires HasCell(pc) ==> pc.c == s.m.pc[t].c && pc.out == s.m.pc[t].out
    requires !pc.PushCas? && !pc.RetireCas? && (pc.RetireNew? ==> pc.out == s.m.nodes[pc.n].value)
    requires pc.PopNext? || pc.PopCas? ==> Published(s, pc.top)
    requires pc.PopCas? ==> s.m.nodes[pc.top].next == pc.next
    ensures Inv(s')
  {
    forall i | 0 <= i < |s'.live| ensures LiveAt(s', i) { assert LiveAt(s, i); }
    forall i | 0 <= i < |s'.parked| ensures ParkedAt(s', i) { assert ParkedAt(s, i); }
    forall p | p in s'.place ensures Accounted(s', p) { assert Accounted(s, p); }
    forall u | u in s'.m.pc ensures ThreadInv(s', u) { assert ThreadInv(s, u); }
  }

  lemma LinkNodeStep(s: State, t: Tid, s': State)
    requires Inv(s) && t in s.m.pc && s.m.pc[t].PushLink? && s.m.pc[t].n in s.m.nodes
    requires var pc := s.m.pc[t];
      s' == s.(m := Goto(s.m.(nodes := s.m.nodes[pc.n := s.m.nodes[pc.n].(next := pc.cur)]), t, PushCas(pc.n, pc.cur)))
    ensures Inv(s')
  {
    assert ThreadInv(s, t);
    forall i | 0 <= i < |s'.live| ensures LiveAt(s', i) { assert LiveAt(s, i); }
    forall i | 0 <= i < |s'.parked| ensures ParkedAt(s', i) { assert ParkedAt(s, i); }
    forall p | p in s'.place ensures Accounted(s', p) { assert Accounted(s, p); }
    forall u | u in s'.m.pc ensures ThreadInv(s', u) { assert ThreadInv(s, u); }
  }

  lemma PublishStep(s: State, t: Tid, s': State)
    requires Inv(s) && t in s.m.pc && s.m.pc[t].PushCas? && s.m.head == s.m.pc[t].cur
    requires var n := s.m.pc[t].n;
      s' == s.(m := Goto(s.m.(head := Some(n)), t, Idle), live := s.live + [n], place := s.place[n := Live(|s.live|)])
    ensures Inv(s')
  {
    assert ThreadInv(s, t);
    forall i | 0 <= i < |s'.live| ensures LiveAt(s', i) { if i < |s.live| { assert LiveAt(s, i); } }
    forall i | 0 <= i < |s'.parked| ensures ParkedAt(s', i) { assert ParkedAt(s, i); }
    forall p | p in s'.place ensures Accounted(s', p) { if p != s.m.pc[t].n { assert Accounted(s, p); } }
    forall u | u in s'.m.pc ensures ThreadInv(s', u) { assert ThreadInv(s, u); }
  }

  lemma TopIsLive(s: State)
    requires Inv(s)
    ensures s.m.head == None <==> s.live == []
    ensures s.m.head.Some? ==>
      var top := s.live[|s.live| - 1];
      s.m.head == Some(top) && Published(s, top) && s.place[top] == Live(|s.live| - 1) && s.m.nodes[top].next == Below(s.live, |s.live| - 1)
  {
    if s.live != [] { assert LiveAt(s, |s.live| - 1); }
  }

  /** A pop that has won the head: the state after it. */
  ghost predicate Claimed(s: State, t: Tid, s': State)
    requires t in s.m.pc
  {
    var pc := s.m.pc[t];
    && pc.PopCas? && s.m.head == Some(pc.top) && s.live != []
    && s' == s.(m := Goto(s.m.(head := pc.next), t, PopTake(pc.top)),
                live := s.live[..|s.live| - 1], place := s.place[pc.top := Held(t)])
  }

  lemma ClaimKeepsThreads(s: State, t: Tid, s': State)
    requires Inv(s) && t in s.m.pc && Claimed(s, t, s')
    ensures forall u :: u in s'.m.pc ==> ThreadInv(s', u)
  {
    TopIsLive(s);
    forall u | u in s'.m.pc ensures ThreadInv(s', u) { assert ThreadInv(s, u); }
  }

  lemma ClaimKeepsPlaces(s: State, t: Tid, s': State)
    requires Inv(s) && t in s.m.pc && Claimed(s, t, s')
    ensures forall p :: p in s'.place ==> Accounted(s', p)
  {
    TopIsLive(s);
    forall p | p in s'.place ensures Accounted(s', p) { if p != s.m.pc[t].top { assert Accounted(s, p); } }
  }

  lemma ClaimStep(s: State, t: Tid, s': State)
    requires Inv(s) && t in s.m.pc && Claimed(s, t, s')
    ensures Inv(s')
  {
    assert ThreadInv(s, t);
    TopIsLive(s);
    ClaimKeepsThreads(s, t, s');
    ClaimKeepsPlaces(s, t, s');
    forall i | 0 <= i < |s'.live| ensures LiveAt(s', i) { assert LiveAt(s, i); }
    forall i | 0 <= i < |s'.parked| ensures ParkedAt(s', i) { assert ParkedAt(s, i); }
  }

  lemma NewCellStep(s: State, t: Tid, at: Ptr, s': State)
    requires Inv(s) && t in s.m.pc && s.m.pc[t].RetireNew? && at !in s.m.cells
    requires var pc := s.m.pc[t];
      s' == s.(m := Goto(s.m.(cells := s.m.cells[at := Cell(pc.n, None)]), t, RetireLoad(pc.n, at, pc.out)),
               cellPlace := s.cellPlace[at := Held(t)])
    ensures Inv(s')
  {
    assert ThreadInv(s, t);
    forall i | 0 <= i < |s'.live| ensures LiveAt(s', i) { assert LiveAt(s, i); }
    forall i | 0 <= i < |s'.parked| ensures ParkedAt(s', i) { assert ParkedAt(s, i); }
    forall p | p in s'.place ensures Accounted(s', p) { assert Accounted(s, p); }
    forall u | u in s'.m.pc ensures ThreadInv(s', u) { assert ThreadInv(s, u); }
  }

  lemma LinkCellStep(s: State, t: Tid, s': State)
    requires Inv(s) && t in s.m.pc && s.m.pc[t].RetireLink? && s.m.pc[t].c in s.m.cells
    requires var pc := s.m.pc[t];
      s' == s.(m := Goto(s.m.(cells := s.m.cells[pc.c := s.m.cells[pc.c].(next := pc.cur)]), t,
                         RetireCas(pc.n, pc.c, pc.cur, pc.out)))
    ensures Inv(s')
  {
    assert ThreadInv(s, t);
    forall i | 0 <= i < |s'.live| ensures LiveAt(s', i) { assert LiveAt(s, i); }
    forall i | 0 <= i < |s'.parked| ensures ParkedAt(s', i) { assert ParkedAt(s, i); }
    forall p | p in s'.place ensures Accounted(s', p) { assert Accounted(s, p); }
    forall u | u in s'.m.pc ensures ThreadInv(s', u) { assert ThreadInv(s, u); }
  }

  lemma ParkStep(s: State, t: Tid, s': State)
    requires Inv(s) && t in s.m.pc && s.m.pc[t].RetireCas? && s.m.retired == s.m.pc[t].cur
    requires var pc := s.m.pc[t];
      s' == s.(m := Goto(s.m.(retired := Some(pc.c)), t, Idle), parked := s.parked + [pc.c],
               place := s.place[pc.n := Parked(|s.parked|)], cellPlace := s.cellPlace[pc.c := Parked(|s.parked|)])
    ensures Inv(s')
  {
    assert ThreadInv(s, t);
    forall i | 0 <= i < |s'.live| ensures LiveAt(s', i) { assert LiveAt(s, i); }
    forall i | 0 <= i < |s'.parked| ensures ParkedAt(s', i) { if i < |s.parked| { assert ParkedAt(s, i); } }
    forall p | p in s'.place ensures Accounted(s', p) { if p != s.m.pc[t].n { assert Accounted(s, p); } }
    forall u | u in s'.m.pc ensures ThreadInv(s', u) { assert ThreadInv(s, u); }
  }

  /** The next step of `t` stores to shared memory or allocates. */
  predicate Writes(m: Memory, t: Tid, e: Event)
    requires t in m.pc
  {
    var pc := m.pc[t];
    || (pc.Idle? && e.CallPush? && e.at !in m.nodes)
    || pc.PushLink?
    || (pc.PushCas? && m.head == pc.cur && !e.SpuriousFailure?)
    || (pc.PopCas? && m.head == Some(pc.top) && !e.SpuriousFailure?)
    || pc.RetireNew?
    || pc.RetireLink?
    || (pc.RetireCas? && m.retired == pc.cur && !e.SpuriousFailure?)
  }

  lemma PopLoadStep(s: State, t: Tid, e: Event)
    requires Inv(s) && t in s.m.pc && !Writes(s.m, t, e)
    requires s.m.pc[t].PopLoad? || s.m.pc[t].PopNext? || s.m.pc[t].PopCas?
    ensures Dereferences(s.m, s.m.pc[t]) && Inv(Step(s, t, e))
  {
    assert ThreadInv(s, t);
    TopIsLive(s);
    QuietStep(s, t, Act(s.m, t, e).pc[t], Step(s, t, e));
  }

  lemma LoadStep(s: State, t: Tid, e: Event)
    requires Inv(s) && t in s.m.pc && !Writes(s.m, t, e)
    requires !(s.m.pc[t].PopLoad? || s.m.pc[t].PopNext? || s.m.pc[t].PopCas?)
    ensures Dereferences(s.m, s.m.pc[t]) && Inv(Step(s, t, e))
  {
    assert ThreadInv(s, t);
    if Act(s.m, t, e) != s.m { QuietStep(s, t, Act(s.m, t, e).pc[t], Step(s, t, e)); }
  }

  lemma PushStep(s: State, t: Tid, e: Event)
    requires Inv(s) && t in s.m.pc && Writes(s.m, t, e)
    requires s.m.pc[t].Idle? || Pushing(s.m.pc[t])
    ensures Dereferences(s.m, s.m.pc[t]) && Inv(Step(s, t, e))
  {
    assert ThreadInv(s, t);
    var pc, s' := s.m.pc[t], Step(s, t, e);
    if pc.Idle? {
      NewNodeStep(s, t, e.v, e.at, s');
    } else if pc.PushLink? {
      LinkNodeStep(s, t, s');
    } else {
      PublishStep(s, t, s');
    }
  }

  lemma PopStep(s: State, t: Tid, e: Event)
    requires Inv(s) && t in s.m.pc && Writes(s.m, t, e)
    requires s.m.pc[t].PopCas? || Retiring(s.m.pc[t])
    ensures Dereferences(s.m, s.m.pc[t]) && Inv(Step(s, t, e))
  {
    assert ThreadInv(s, t);
    TopIsLive(s);
    var pc, s' := s.m.pc[t], Step(s, t, e);
    if pc.PopCas? {
      ClaimStep(s, t, s');
    } else if pc.RetireNew? {
      if e.Allocate? && e.at !in s.m.cells { NewCellStep(s, t, e.at, s'); }
    } else if pc.RetireLink? {
      LinkCellStep(s, t, s');
    } else {
      ParkStep(s, t, s');
    }
  }

  /** Every step keeps the invariant and touches only allocated memory. */
  lemma InvStep(s: State, t: Tid, e: Event)
    requires Inv(s) && t in s.m.pc
    ensures Dereferences(s.m, s.m.pc[t]) && Inv(Step(s, t, e))
  {
    var pc := s.m.pc[t];
    if !Writes(s.m, t, e) {
      if pc.PopLoad? || pc.PopNext? || pc.PopCas? { PopLoadStep(s, t, e); } else { LoadStep(s, t, e); }
    } else if s.m.pc[t].Idle? || Pushing(s.m.pc[t]) {
      PushStep(s, t, e);
    } else {
      PopStep(s, t, e);
    }
  }

  // ---------------------------------------------------------------- what the stack promises

  ghost predicate Reachable(s: State) {
    Runs.Reachable(Init, Next, s)
  }

  lemma ReachableInv(s: State)
    requires Reachable(s)
    ensures Inv(s)
  {
    forall s | Init(s) ensures Inv(s) { InvInit(s); }
    forall s, s' | Inv(s) && Next(s, s') ensures Inv(s') {
      var t, e :| t in s.m.pc && Dereferences(s.m, s.m.pc[t]) && s' == Step(s, t, e);
      InvStep(s, t, e);
    }
    Runs.InvariantOfReachable(Init, Next, Inv, s);
  }

  ghost function ValueOf(m: Memory, p: Ptr): Value {
    if p in m.nodes then m.nodes[p].value else 0
  }

  /** The abstract stack: the values of the live nodes, the top last. */
  ghost function Stack(s: State): seq<Value> {
    seq(|s.live|, i requires 0 <= i < |s.live| => ValueOf(s.m, s.live[i]))
  }

  /** An access adds nodes, and rewrites at most the `next` of the node its thread is pushing. */
  lemma ActKeepsNodes(m: Memory, t: Tid, e: Event)
    requires t in m.pc && Dereferences(m, m.pc[t])
    ensures t in Act(m, t, e).pc
    ensures forall p :: p in m.nodes ==>
      && p in Act(m, t, e).nodes && Act(m, t, e).nodes[p].value == m.nodes[p].value
      && (!(m.pc[t].PushLink? && m.pc[t].n == p) ==> Act(m, t, e).nodes[p].next == m.nodes[p].next)
  {
  }

  /** What a step means for the abstract stack. */
  ghost predicate RefinesLifo(s: State, t: Tid, s': State)
    requires t in s.m.pc
  {
    t in s'.m.pc &&
    var pc, pc' := s.m.pc[t], s'.m.pc[t];
    if pc.PushCas? && pc'.Idle? then
      Stack(s') == Stack(s) + [ValueOf(s.m, pc.n)]
    else if pc.PopCas? && pc'.PopTake? then
      pc'.n == pc.top && Stack(s) == Stack(s') + [ValueOf(s.m, pc.top)]
    else
      Stack(s') == Stack(s)
  }

  /**
   Every step is invisible or one operation of a sequential stack: a successful head CAS of a push
   puts its value on top, a successful head CAS of a pop takes the top value.
   */
  lemma StepRefinesLifo(s: State, t: Tid, e: Event)
    requires Inv(s) && t in s.m.pc && Dereferences(s.m, s.m.pc[t])
    ensures RefinesLifo(s, t, Step(s, t, e))
  {
    TopIsLive(s);
    ActKeepsNodes(s.m, t, e);
    StackAfter(s, Step(s, t, e));
    if s.m.pc[t].PushCas? { assert ThreadInv(s, t); }
  }

  lemma StackAfter(s: State, s': State)
    requires Inv(s) && forall p :: p in s.m.nodes ==> ValueOf(s'.m, p) == ValueOf(s.m, p)
    ensures s'.live == s.live ==> Stack(s') == Stack(s)
    ensures forall p :: s'.live == s.live + [p] && p in s.m.nodes ==> Stack(s') == Stack(s) + [ValueOf(s.m, p)]
    ensures s.live != [] && s'.live == s.live[..|s.live| - 1] ==>
      Stack(s) == Stack(s') + [ValueOf(s.m, s.live[|s.live| - 1])]
  {
    forall i | 0 <= i < |s.live| ensures s.live[i] in s.m.nodes { assert LiveAt(s, i); }
  }

  /** A pop that is about to answer "empty" has just seen the stack empty. */
  lemma EmptyVerdict(s: State, t: Tid, e: Event)
    requires Inv(s) && t in s.m.pc && Dereferences(s.m, s.m.pc[t])
    requires !s.m.pc[t].PopEmpty? && Act(s.m, t, e).pc[t].PopEmpty?
    ensures Stack(s) == []
  {
    TopIsLive(s);
  }

  /** What a pop hands out is the value of the node it claimed. */
  lemma PopDelivers(s: State, t: Tid)
    requires Reachable(s) && t in s.m.pc && (s.m.pc[t].RetireNew? || HasCell(s.m.pc[t]))
    ensures s.m.pc[t].out == ValueOf(s.m, s.m.pc[t].n)
  {
    ReachableInv(s);
    assert ThreadInv(s, t);
  }

  /** How far a node has come: being pushed, live, popped, parked. */
  ghost function Stage(s: State, p: Ptr): nat {
    if p !in s.place then 0
    else match s.place[p]
      case Held(t) => if t in s.m.pc && Retiring(s.m.pc[t]) then 2 else 0
      case Live(_) => 1
      case Parked(_) => 3
  }

  /** No node is freed, reused, or goes back; values never change, and once published neither does `next`. */
  ghost predicate Extends(s: State, s': State) {
    forall p :: p in s.m.nodes ==>
      && p in s'.m.nodes && s'.m.nodes[p].value == s.m.nodes[p].value
      && Stage(s, p) <= Stage(s', p)
      && (Published(s, p) ==> Published(s', p) && s'.m.nodes[p].next == s.m.nodes[p].next)
  }

  /** Which nodes a step moves from one place to the next. */
  ghost predicate Moves(s: State, t: Tid, s': State)
    requires t in s.m.pc
  {
    && t in s'.m.pc && s'.m.pc == s.m.pc[t := s'.m.pc[t]]
    && var pc, pc' := s.m.pc[t], s'.m.pc[t];
    if pc.Idle? && Pushing(pc') then pc'.n !in s.m.nodes && s'.place == s.place[pc'.n := Held(t)]
    else if pc.PushCas? && pc'.Idle? then s'.place == s.place[pc.n := Live(|s.live|)]
    else if pc.PopCas? && Retiring(pc') then
      s.m.head == Some(pc.top) && pc'.n == pc.top && (s.live != [] ==> s'.place == s.place[pc.top := Held(t)])
    else if pc.RetireCas? && pc'.Idle? then s'.place == s.place[pc.n := Parked(|s.parked|)]
    else
      && s'.place == s.place && Pushing(pc) == Pushing(pc') && Retiring(pc) == Retiring(pc')
      && (Pushing(pc) || Retiring(pc) ==> pc.n == pc'.n)
  }

  /** What two places of a thread hold is the same. */
  predicate HoldsSame(pc: Pc, pc': Pc) {
    && Pushing(pc) == Pushing(pc') && Retiring(pc) == Retiring(pc')
    && (Pushing(pc) || Retiring(pc) ==> pc.n == pc'.n)
  }

  /** A load moves only the program counter, and not to or from holding a node. */
  lemma LoadActs(m: Memory, t: Tid, e: Event)
    requires t in m.pc && Dereferences(m, m.pc[t]) && !Writes(m, t, e)
    ensures Act(m, t, e) == m || Act(m, t, e) == Goto(m, t, Act(m, t, e).pc[t])
    ensures t in Act(m, t, e).pc && HoldsSame(m.pc[t], Act(m, t, e).pc[t])
  {
  }

  lemma LoadKeepsHistory(s: State, t: Tid, e: Event)
    requires t in s.m.pc && Dereferences(s.m, s.m.pc[t]) && !Writes(s.m, t, e)
    ensures Step(s, t, e).place == s.place && Step(s, t, e).m == Act(s.m, t, e)
  {
    LoadActs(s.m, t, e);
  }

  lemma LoadMoves(s: State, t: Tid, e: Event)
    requires t in s.m.pc && Dereferences(s.m, s.m.pc[t]) && !Writes(s.m, t, e)
    ensures Moves(s, t, Step(s, t, e))
  {
    LoadActs(s.m, t, e);
    LoadKeepsHistory(s, t, e);
  }

  lemma WriteMoves(s: State, t: Tid, e: Event)
    requires t in s.m.pc && Dereferences(s.m, s.m.pc[t]) && Writes(s.m, t, e)
    ensures Moves(s, t, Step(s, t, e))
  {
  }

  lemma NodeAdvances(s: State, t: Tid, s': State, p: Ptr)
    requires Inv(s) && t in s.m.pc && Moves(s, t, s') && p in s.m.nodes
    ensures Stage(s, p) <= Stage(s', p)
    ensures Published(s, p) && p in s'.m.nodes ==> Published(s', p)
  {
    assert ThreadInv(s, t) && Accounted(s, p);
    TopIsLive(s);
  }

  lemma MovesExtend(s: State, t: Tid, s': State)
    requires Inv(s) && t in s.m.pc && Moves(s, t, s')
    requires forall p :: p in s.m.nodes ==>
      && p in s'.m.nodes && s'.m.nodes[p].value == s.m.nodes[p].value
      && (Published(s, p) ==> s'.m.nodes[p].next == s.m.nodes[p].next)
    ensures Extends(s, s')
  {
    forall p | p in s.m.nodes ensures Stage(s, p) <= Stage(s', p) && (Published(s, p) ==> Published(s', p)) {
      NodeAdvances(s, t, s', p);
    }
  }

  lemma StepActs(s: State, t: Tid, e: Event)
    requires t in s.m.pc && Dereferences(s.m, s.m.pc[t])
    ensures Step(s, t, e).m == Act(s.m, t, e)
  {
  }

  lemma StepKeepsNodes(s: State, t: Tid, e: Event)
    requires Inv(s) && t in s.m.pc && Dereferences(s.m, s.m.pc[t])
    ensures var m' := Act(s.m, t, e);
      forall p :: p in s.m.nodes ==>
        && p in m'.nodes && m'.nodes[p].value == s.m.nodes[p].value
        && (Published(s, p) ==> m'.nodes[p].next == s.m.nodes[p].next)
  {
    ActKeepsNodes(s.m, t, e);
    assert ThreadInv(s, t);
  }

  lemma StepExtends(s: State, t: Tid, e: Event)
    requires Inv(s) && t in s.m.pc && Dereferences(s.m, s.m.pc[t])
    ensures Extends(s, Step(s, t, e))
  {
    StepActs(s, t, e);
    StepKeepsNodes(s, t, e);
    if Writes(s.m, t, e) { WriteMoves(s, t, e); } else { LoadMoves(s, t, e); }
    MovesExtend(s, t, Step(s, t, e));
  }

  lemma RunsExtend(run: seq<State>, i: nat, j: nat)
    requires Runs.IsRun(Init, Next, run) && i <= j < |run|
    ensures Extends(run[i], run[j])
  {
    InvInit(run[0]);
    forall s, s' | Inv(s) && Next(s, s') ensures Inv(s') && Extends(s, s') {
      var t, e :| t in s.m.pc && Dereferences(s.m, s.m.pc[t]) && s' == Step(s, t, e);
      InvStep(s, t, e);
      StepExtends(s, t, e);
    }
    Runs.InvariantOfRun(Init, Next, Inv, run);
    Runs.RelatedAlongRun(Init, Next, Inv, Extends, run, i, j);
  }

  /** A node popped in state `i` of a run is not on the stack in any later state: no value is popped twice. */
  lemma PoppedAtMostOnce(run: seq<State>, i: nat, j: nat, p: Ptr)
    requires Runs.IsRun(Init, Next, run) && i <= j < |run|
    requires p in run[i].m.nodes && Stage(run[i], p) >= 2
    ensures forall k :: 0 <= k < |run[j].live| ==> run[j].live[k] != p
  {
    RunsExtend(run, i, j);
    Runs.ReachableAlong(Init, Next, run, j);
    ReachableInv(run[j]);
    forall k | 0 <= k < |run[j].live| ensures run[j].live[k] != p {
      assert LiveAt(run[j], k);
    }
  }

  /** Following `next` `k` times from `p`. */
  ghost function Follow(m: Memory, p: Option<Ptr>, k: nat): Option<Ptr>
    decreases k
  {
    if k == 0 || p == None || p.value !in m.nodes then p else Follow(m, m.nodes[p.value].next, k - 1)
  }

  /** The list from the head is acyclic and ends: it visits the live nodes newest first, then null. */
  lemma {:induction false} HeadListIsLive(s: State, from: nat, k: nat)
    requires Inv(s) && k <= from <= |s.live|
    ensures Follow(s.m, Below(s.live, from), k) == Below(s.live, from - k)
    decreases k
  {
    if k > 0 {
      assert LiveAt(s, from - 1);
      HeadListIsLive(s, from - 1, k - 1);
    }
  }

  // ---------------------------------------------------------------- the destructor

  /** A cell is where its place says. */
  ghost predicate CellAccounted(s: State, c: Ptr)
    requires c in s.cellPlace
  {
    match s.cellPlace[c]
    case Held(t) => t in s.m.pc && HasCell(s.m.pc[t]) && s.m.pc[t].c == c
    case Live(_) => false
    case Parked(i) => i < |s.parked| && s.parked[i] == c
  }

  ghost predicate CellsInv(s: State) {
    s.cellPlace.Keys == s.m.cells.Keys && forall c :: c in s.cellPlace ==> CellAccounted(s, c)
  }

  /** The only accesses that concern the places of cells. */
  predicate MovesCell(m: Memory, t: Tid, e: Event)
    requires t in m.pc
  {
    || (m.pc[t].RetireNew? && e.Allocate? && e.at !in m.cells)
    || (m.pc[t].RetireCas? && m.retired == m.pc[t].cur && !e.SpuriousFailure?)
  }

  lemma OthersKeepCells(m: Memory, t: Tid, e: Event)
    requires t in m.pc && Dereferences(m, m.pc[t]) && !MovesCell(m, t, e)
    ensures var m' := Act(m, t, e);
      && t in m'.pc && m'.pc == m.pc[t := m'.pc[t]] && m'.cells.Keys == m.cells.Keys
      && HasCell(m'.pc[t]) == HasCell(m.pc[t]) && (HasCell(m.pc[t]) ==> m'.pc[t].c == m.pc[t].c)
  {
  }

  lemma OthersKeepCellPlaces(s: State, t: Tid, e: Event)
    requires t in s.m.pc && Dereferences(s.m, s.m.pc[t]) && !MovesCell(s.m, t, e)
    ensures Step(s, t, e).cellPlace == s.cellPlace && Step(s, t, e).parked == s.parked
  {
    OthersKeepCells(s.m, t, e);
  }

  lemma CellAllocated(s: State, t: Tid, e: Event, s': State)
    requires CellsInv(s) && t in s.m.pc && Dereferences(s.m, s.m.pc[t]) && MovesCell(s.m, t, e)
    requires s.m.pc[t].RetireNew? && s' == Step(s, t, e)
    ensures CellsInv(s')
  {
    forall c | c in s'.cellPlace ensures CellAccounted(s', c) {
      if c in s.cellPlace { assert CellAccounted(s, c); }
    }
  }

  lemma CellParked(s: State, t: Tid, e: Event, s': State)
    requires Inv(s) && CellsInv(s) && t in s.m.pc && Dereferences(s.m, s.m.pc[t]) && MovesCell(s.m, t, e)
    requires s.m.pc[t].RetireCas? && s' == Step(s, t, e)
    ensures CellsInv(s')
  {
    assert ThreadInv(s, t);
    forall c | c in s'.cellPlace ensures CellAccounted(s', c) {
      if c in s.cellPlace { assert CellAccounted(s, c); }
    }
  }

  lemma CellsStep(s: State, t: Tid, e: Event)
    requires Inv(s) && CellsInv(s) && t in s.m.pc && Dereferences(s.m, s.m.pc[t])
    ensures CellsInv(Step(s, t, e))
  {
    var s' := Step(s, t, e);
    if !MovesCell(s.m, t, e) {
      StepActs(s, t, e);
      OthersKeepCells(s.m, t, e);
      OthersKeepCellPlaces(s, t, e);
      CellsUndisturbed(s, t, s');
    } else if s.m.pc[t].RetireNew? {
      CellAllocated(s, t, e, s');
    } else {
      CellParked(s, t, e, s');
    }
  }

  lemma CellsUndisturbed(s: State, t: Tid, s': State)
    requires CellsInv(s) && t in s.m.pc && t in s'.m.pc && s'.m.pc == s.m.pc[t := s'.m.pc[t]]
    requires s'.cellPlace == s.cellPlace && s'.parked == s.parked && s'.m.cells.Keys == s.m.cells.Keys
    requires HasCell(s'.m.pc[t]) == HasCell(s.m.pc[t]) && (HasCell(s.m.pc[t]) ==> s'.m.pc[t].c == s.m.pc[t].c)
    ensures CellsInv(s')
  {
    forall c | c in s'.cellPlace ensures CellAccounted(s', c) { assert CellAccounted(s, c); }
  }

  lemma ReachableCells(s: State)
    requires Reachable(s)
    ensures Inv(s) && CellsInv(s)
  {
    var inv := (x: State) => Inv(x) && CellsInv(x);
    forall x | Init(x) ensures inv(x) { InvInit(x); }
    forall x, x' | inv(x) && Next(x, x') ensures inv(x') {
      var t, e :| t in x.m.pc && Dereferences(x.m, x.m.pc[t]) && x' == Step(x, t, e);
      InvStep(x, t, e);
      CellsStep(x, t, e);
    }
    Runs.InvariantOfReachable(Init, Next, inv, s);
  }

  ghost predicate Distinct(a: seq<Ptr>) {
    forall i, j :: 0 <= i < j < |a| ==> a[i] != a[j]
  }

  /** The place of the `k`-th node the destructor deletes: newest live node first, then newest retired one first. */
  ghost function DeletedFrom(s: State, k: nat): Place {
    if k < |s.live| then Live(|s.live| - 1 - k)
    else if k - |s.live| < |s.parked| then Parked(|s.parked| - 1 - (k - |s.live|))
    else Held(0)
  }

  ghost predicate InOrderOfDeletion(s: State, nodes: seq<Ptr>) {
    forall k :: 0 <= k < |nodes| ==> nodes[k] in s.place && s.place[nodes[k]] == DeletedFrom(s, k)
  }

  ghost predicate CellsInOrder(s: State, cells: seq<Ptr>) {
    && |cells| <= |s.parked|
    && forall k :: 0 <= k < |cells| ==>
         cells[k] in s.cellPlace && s.cellPlace[cells[k]] == Parked(|s.parked| - 1 - k)
  }

  /** The destructor's first loop follows `next` from the head. */
  method DeleteLive(m: Memory, ghost s: State) returns (nodes: seq<Ptr>)
    requires Inv(s) && s.m == m
    ensures |nodes| == |s.live| && InOrderOfDeletion(s, nodes)
  {
    nodes := [];
    var n := m.head;
    while n != None
      invariant |nodes| <= |s.live| && n == Below(s.live, |s.live| - |nodes|) && InOrderOfDeletion(s, nodes)
      decreases |s.live| - |nodes|
    {
      assert LiveAt(s, |s.live| - |nodes| - 1);
      var next := m.nodes[n.value].next;
      nodes := nodes + [n.value];
      n := next;
    }
  }

  /** Its second loop follows the retired list, and deletes the node of each cell, and the cell. */
  method DeleteRetired(m: Memory, nodes0: seq<Ptr>, ghost s: State) returns (nodes: seq<Ptr>, cells: seq<Ptr>)
    requires Inv(s) && s.m == m && |nodes0| == |s.live| && InOrderOfDeletion(s, nodes0)
    ensures |nodes| == |s.live| + |s.parked| && InOrderOfDeletion(s, nodes)
    ensures |cells| == |s.parked| && CellsInOrder(s, cells)
  {
    nodes, cells := nodes0, [];
    var c := m.retired;
    while c != None
      invariant |cells| <= |s.parked| && c == Below(s.parked, |s.parked| - |cells|)
      invariant |nodes| == |s.live| + |cells| && InOrderOfDeletion(s, nodes) && CellsInOrder(s, cells)
      decreases |s.parked| - |cells|
    {
      assert ParkedAt(s, |s.parked| - |cells| - 1);
      var next := m.cells[c.value].next;
      nodes := nodes + [m.cells[c.value].node];
      cells := cells + [c.value];
      c := next;
    }
  }

  /** The destructor, once all calls have returned: every node and every cell is deleted exactly once. */
  method Destroy(m: Memory, ghost s: State) returns (nodes: seq<Ptr>, cells: seq<Ptr>)
    requires Reachable(s) && s.m == m && forall t :: t in m.pc ==> m.pc[t] == Idle
    ensures Distinct(nodes) && forall p :: p in nodes <==> p in m.nodes
    ensures Distinct(cells) && forall c :: c in cells <==> c in m.cells
  {
    ReachableCells(s);
    nodes := DeleteLive(m, s);
    nodes, cells := DeleteRetired(m, nodes, s);
    EveryNodeDeletedOnce(s, nodes);
    EveryCellDeletedOnce(s, cells);
  }

  lemma EveryNodeDeletedOnce(s: State, nodes: seq<Ptr>)
    requires Inv(s) && (forall t :: t in s.m.pc ==> s.m.pc[t] == Idle) && |nodes| == |s.live| + |s.parked|
    requires InOrderOfDeletion(s, nodes)
    ensures Distinct(nodes) && forall p :: p in nodes <==> p in s.m.nodes
  {
    forall p | p in s.m.nodes ensures p in nodes {
      assert Accounted(s, p);
      match s.place[p]
      case Live(i) =>
        var k := |s.live| - 1 - i;
        assert LiveAt(s, i);
        SamePlace(s, nodes[k], p);
      case Parked(i) =>
        var k := |s.live| + (|s.parked| - 1 - i);
        SamePlace(s, nodes[k], p);
    }
  }

  /** No two nodes are in the same place of a list. */
  lemma SamePlace(s: State, p: Ptr, q: Ptr)
    requires Inv(s) && p in s.place && q in s.place && s.place[p] == s.place[q] && !s.place[p].Held?
    ensures p == q
  {
    assert Accounted(s, p) && Accounted(s, q);
  }

  lemma EveryCellDeletedOnce(s: State, cells: seq<Ptr>)
    requires CellsInv(s) && (forall t :: t in s.m.pc ==> s.m.pc[t] == Idle) && |cells| == |s.parked|
    requires CellsInOrder(s, cells)
    ensures Distinct(cells) && forall c :: c in cells <==> c in s.m.cells
  {
    forall c | c in s.m.cells ensures c in cells {
      assert CellAccounted(s, c);
      var k := |s.parked| - 1 - s.cellPlace[c].i;
      assert CellAccounted(s, cells[k]);
      assert cells[k] == c;
    }
  }
}
