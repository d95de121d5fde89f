/** The open-addressing hash map: probing, growth and retry over a table of slots, for any hash function. */
module HashMap {
  import opened Options
  import opened ProbeTable

  const INITIAL_CAPACITY := 8
  const WORD := 0x1_0000_0000_0000_0000

  /** `++` and `--` of an unsigned 64-bit counter. */
  function Up(count: nat): (c: nat)
    ensures c < WORD && (count < WORD - 1 ==> c == count + 1)
  {
    (count + 1) % 0x1_0000_0000_0000_0000
  }

  function Down(count: nat): (c: nat)
    ensures c < WORD && (count == 0 ==> c == WORD - 1) && (0 < count < WORD ==> c == count - 1)
  {
    (count + 0xFFFF_FFFF_FFFF_FFFF) % 0x1_0000_0000_0000_0000
  }

  /** Where a key being inserted belongs: it is there, it can go there, or the whole table was probed in vain. */
  datatype Place = Present(at: nat) | Free(at: nat) | Saturated

  /** Slot `at` is the first on the probe path of an absent key that is not filled: it may be a tombstone. */
  ghost predicate FreeFor<K(!new), V>(hash: K -> nat, t: seq<Slot<K, V>>, key: K, at: nat, d: nat) {
    && d < |t| && at == Probe(Home(hash, key, |t|), d, |t|)
    && !t[at].Filled? && Passed(hash, t, key, d) && Crowded(hash, t, key, d)
  }

  /** The first `n` probes for a key meet filled slots only. */
  ghost predicate Crowded<K(!new), V>(hash: K -> nat, t: seq<Slot<K, V>>, key: K, n: nat)
    requires t != [] && n <= |t|
  {
    forall x :: 0 <= x < n ==> t[Probe(Home(hash, key, |t|), x, |t|)].Filled?
  }

  /** What putting an absent key into a table does to it and to the tombstone counter. */
  ghost predicate InsertedAt<K(!new), V>(
      hash: K -> nat, t: seq<Slot<K, V>>, count: nat, key: K, value: V, at: nat, t': seq<Slot<K, V>>, count': nat) {
    exists d :: FreeFor(hash, t, key, at, d)
      && t' == t[at := Filled(key, value)]
      && count' == if t[at].Tombstone? then Down(count) else count
  }

  /** What erasing a key does to its table and to the tombstone counter. */
  ghost predicate ErasedFrom<K, V>(t: seq<Slot<K, V>>, count: nat, key: K, t': seq<Slot<K, V>>, count': nat) {
    && count' == Up(count)
    && exists at: nat :: at < |t| && t[at].Filled? && t[at].key == key && t' == t[at := Tombstone]
  }

  lemma ErasedByWrite<K, V>(t: seq<Slot<K, V>>, count: nat, key: K, at: nat)
    requires at < |t| && t[at].Filled? && t[at].key == key
    ensures ErasedFrom(t, count, key, t[at := Tombstone], Up(count))
  {
  }

  lemma InsertedAgrees<K(!new), V>(
      hash: K -> nat, t: seq<Slot<K, V>>, count: nat, key: K, value: V, at: nat, t': seq<Slot<K, V>>, count': nat)
    requires InsertedAt(hash, t, count, key, value, at, t', count') && count < WORD
    ensures count == TombstoneCount(t) ==> count' == TombstoneCount(t')
  {
    CountAfterWrite(t, at, Filled(key, value));
  }

  lemma ErasedAgrees<K, V>(t: seq<Slot<K, V>>, count: nat, key: K, t': seq<Slot<K, V>>, count': nat)
    requires ErasedFrom(t, count, key, t', count')
    ensures count == TombstoneCount(t) && |t| < WORD ==> count' == TombstoneCount(t')
  {
    var at: nat :| at < |t| && t[at].Filled? && t[at].key == key && t' == t[at := Tombstone];
    CountAfterWrite(t, at, Tombstone);
    CountFits(t');
  }

  /** From `home`, the first empty slot; the code's rehash loop, which has no bound of its own. */
  method FirstEmpty<K, V>(t: array<Slot<K, V>>, home: nat) returns (idx: nat, ghost d: nat)
    requires IsPowerOfTwo(t.Length) && home < t.Length && HasEmpty(t[..])
    ensures d < t.Length && idx == Probe(home, d, t.Length) && t[idx].Empty?
    ensures forall x :: 0 <= x < d ==> !t[..][Probe(home, x, t.Length)].Empty?
  {
    ghost var e: nat :| e < t.Length && t[..][e].Empty?;
    ghost var last := Distance(home, e, t.Length);
    ProbeDistance(home, e, t.Length);
    idx, d := home, 0;
    while !t[idx].Empty?
      invariant d <= last && idx == Probe(home, d, t.Length)
      invariant forall x :: 0 <= x < d ==> !t[..][Probe(home, x, t.Length)].Empty?
      decreases last - d
    {
      NextProbe(home, d, t.Length);
      idx, d := And(idx + 1, t.Length - 1), d + 1;
    }
  }

  /** The loop of the code's `find_node`. */
  method ProbeFor<K(==), V>(hash: K -> nat, t: array<Slot<K, V>>, key: K) returns (at: Option<nat>)
    requires IsPowerOfTwo(t.Length)
    ensures at == Lookup(hash, t[..], key, 0)
  {
    HomeByMask(hash, key, t.Length);
    var idx := And(hash(key), t.Length - 1);
    var probes := 0;
    while probes < t.Length
      invariant probes <= t.Length
      invariant idx == Probe(Home(hash, key, t.Length), probes, t.Length)
      invariant Lookup(hash, t[..], key, probes) == Lookup(hash, t[..], key, 0)
    {
      LookupStep(hash, t[..], key, probes, idx);
      if t[idx].Empty? { return None; }
      if t[idx].Filled? && t[idx].key == key { return Some(idx); }
      idx := And(idx + 1, t.Length - 1);
      probes := probes + 1;
    }
    return None;
  }

  lemma PassOne<K(!new), V>(hash: K -> nat, t: seq<Slot<K, V>>, key: K, n: nat)
    requires n < |t| && Passed(hash, t, key, n)
    requires var slot := t[Probe(Home(hash, key, |t|), n, |t|)]; !slot.Empty? && !(slot.Filled? && slot.key == key)
    ensures Passed(hash, t, key, n + 1)
    ensures Crowded(hash, t, key, n) && t[Probe(Home(hash, key, |t|), n, |t|)].Filled? ==> Crowded(hash, t, key, n + 1)
  {
  }

  /** The first probe loop of an insertion: the key itself, or the first tombstone ahead of the first empty slot. */
  method PlaceFor<K(==,!new), V>(hash: K -> nat, t: array<Slot<K, V>>, key: K) returns (place: Place, ghost d: nat)
    requires IsPowerOfTwo(t.Length) && Sound(hash, t[..])
    ensures place.Present? ==> place.at < t.Length && t[place.at].Filled? && t[place.at].key == key
    ensures place.Free? ==> key !in Contents(t[..]) && FreeFor(hash, t[..], key, place.at, d) && HasEmpty(t[..])
    ensures place.Saturated? ==> key !in Contents(t[..]) && !HasEmpty(t[..])
  {
    ghost var home := Home(hash, key, t.Length);
    HomeByMask(hash, key, t.Length);
    var idx := And(hash(key), t.Length - 1);
    var tomb: Option<nat> := None;
    d := 0;
    var probes := 0;
    while probes < t.Length
      invariant probes <= t.Length && idx == Probe(home, probes, t.Length)
      invariant Passed(hash, t[..], key, probes)
      invariant if tomb.Some? then FreeFor(hash, t[..], key, tomb.value, d) else Crowded(hash, t[..], key, probes)
    {
      if t[idx].Filled? && t[idx].key == key { return Present(idx), d; }
      if t[idx].Tombstone? && tomb.None? {
        tomb, d := Some(idx), probes;
      }
      if t[idx].Empty? {
        StoppedProbeMisses(hash, t[..], key, probes);
        if tomb.Some? { return Free(tomb.value), d; }
        return Free(idx), probes;
      }
      PassOne(hash, t[..], key, probes);
      NextProbe(home, probes, t.Length);
      idx := And(idx + 1, t.Length - 1);
      probes := probes + 1;
    }
    StoppedProbeMisses(hash, t[..], key, probes);
    ProbesCover(t[..], home);
    return Saturated, d;
  }

  /** Puts a key that the table does not hold into its first empty slot. */
  method Rehash<K(!new), V>(hash: K -> nat, t: array<Slot<K, V>>, key: K, value: V)
    requires IsPowerOfTwo(t.Length) && Sound(hash, t[..]) && NoTombstones(t[..])
    requires key !in Contents(t[..]) && |Contents(t[..])| < t.Length
    modifies t
    ensures Sound(hash, t[..]) && NoTombstones(t[..])
    ensures Contents(t[..]) == old(Contents(t[..]))[key := value]
  {
    ghost var before := t[..];
    RoomMeansEmpty(before);
    AbsentKey(before, key);
    HomeByMask(hash, key, t.Length);
    var idx, d := FirstEmpty(t, And(hash(key), t.Length - 1));
    InsertKeepsSound(hash, before, key, value, d);
    t[idx] := Filled(key, value);
    assert t[..] == before[idx := Filled(key, value)];
  }

  /** The table that growing builds: every filled slot goes to its first empty place. */
  method RehashAll<K(!new), V>(hash: K -> nat, nodes: array<Slot<K, V>>, cap: nat) returns (t: array<Slot<K, V>>)
    requires IsPowerOfTwo(cap) && cap >= nodes.Length && DistinctKeys(nodes[..])
    ensures fresh(t) && t.Length == cap && Sound(hash, t[..]) && NoTombstones(t[..])
    ensures Contents(t[..]) == Contents(nodes[..])
  {
    t := new Slot<K, V>[cap](_ => Empty);
    assert nodes[..][..0] == [];
    assert Contents(t[..]) == Contents(nodes[..][..0]);
    for i := 0 to nodes.Length
      invariant nodes[..] == old(nodes[..])
      invariant Sound(hash, t[..]) && NoTombstones(t[..])
      invariant DistinctKeys(nodes[..][..i]) && Contents(t[..]) == Contents(nodes[..][..i])
    {
      ContentsOfPrefix(nodes[..], i);
      if nodes[i].Filled? {
        ContentsFit(nodes[..][..i]);
        Rehash(hash, t, nodes[i].key, nodes[i].value);
      }
    }
    assert nodes[..][..nodes.Length] == nodes[..];
  }

  method EmptyFilled<K, V>(nodes: array<Slot<K, V>>)
    modifies nodes
    ensures forall j :: 0 <= j < nodes.Length ==>
      nodes[j] == if old(nodes[j]).Filled? then Empty else old(nodes[j])
  {
    for i := 0 to nodes.Length
      invariant forall j :: 0 <= j < i ==> nodes[j] == if old(nodes[j]).Filled? then Empty else old(nodes[j])
      invariant forall j :: i <= j < nodes.Length ==> nodes[j] == old(nodes[j])
    {
      if nodes[i].Filled? { nodes[i] := Empty; }
    }
  }

  /** The smallest capacity for `n`, doubling from `start`. */
  method DoubleUpTo(start: nat, n: nat) returns (cap: nat)
    requires IsPowerOfTwo(start) && start >= INITIAL_CAPACITY
    ensures IsPowerOfTwo(cap) && cap >= start && cap >= n && (cap == start || cap < 2 * n)
  {
    cap := start;
    while cap < n
      invariant IsPowerOfTwo(cap) && cap >= start && (cap == start || cap < 2 * n)
    {
      DoublePower(cap);
      cap := cap * 2;
    }
  }

  class HashMap<K(==,!new), V> {
    const hash: K -> nat
    var nodes: array<Slot<K, V>>
    var size: nat
    /** Unsigned 64-bit; no operation reads it. */
    var tombstones: nat

    ghost predicate Valid()
      reads this, nodes
    {
      && (nodes.Length == 0 || (nodes.Length >= INITIAL_CAPACITY && IsPowerOfTwo(nodes.Length)))
      && Sound(hash, nodes[..])
      && size == |Contents(nodes[..])|
      && 10 * size <= 7 * nodes.Length
      && tombstones < WORD
    }

    /** The counter is the number of tombstone slots. */
    ghost predicate Agrees()
      reads this, nodes
    {
      tombstones == TombstoneCount(nodes[..])
    }

    ghost function Map(): map<K, V>
      requires Valid()
      reads this, nodes
    {
      Contents(nodes[..])
    }

    constructor (hash: K -> nat, hint: nat)
      ensures Valid() && Map() == map[] && fresh(nodes) && this.hash == hash
      ensures if hint == 0 then nodes.Length == 0 else nodes.Length >= hint
      ensures hint > 0 ==> nodes.Length == INITIAL_CAPACITY || nodes.Length < 2 * hint
      ensures Agrees() && forall j :: 0 <= j < nodes.Length ==> nodes[j].Empty?
    {
      this.hash := hash;
      var cap := 0;
      if hint > 0 {
        cap := DoubleUpTo(INITIAL_CAPACITY, hint);
      }
      nodes := new Slot<K, V>[cap](_ => Empty);
      size, tombstones := 0, 0;
      new;
      EmptyTable(hash, nodes[..]);
    }

    /** Where the key is: exactly the keys of the map are found. */
    method FindNode(key: K) returns (at: Option<nat>)
      requires Valid()
      ensures at == if nodes.Length == 0 then None else Lookup(hash, nodes[..], key, 0)
      ensures at.Some? <==> key in Map()
      ensures at.Some? ==> at.value < nodes.Length && nodes[at.value] == Filled(key, Map()[key])
    {
      if nodes.Length == 0 { return None; }
      at := ProbeFor(hash, nodes, key);
      LookupFinds(hash, nodes[..], key);
    }

    method Contains(key: K) returns (found: bool)
      requires Valid()
      ensures found <==> key in Map()
    {
      var at := FindNode(key);
      found := at.Some?;
    }

    /** `None` where the code throws. */
    method At(key: K) returns (value: Option<V>)
      requires Valid()
      ensures value == if key in Map() then Some(Map()[key]) else None
    {
      var at := FindNode(key);
      value := if at.Some? then Some(nodes[at.value].value) else None;
    }

    /** A larger table with the same contents and no tombstones; it always has an empty slot. */
    method Grow(newCap: nat)
      requires Valid() && IsPowerOfTwo(newCap) && newCap >= nodes.Length
      modifies this
      ensures Valid() && fresh(nodes) && Map() == old(Map()) && size == old(size)
      ensures nodes.Length == if newCap < INITIAL_CAPACITY then INITIAL_CAPACITY else newCap
      ensures HasEmpty(nodes[..]) && NoTombstones(nodes[..]) && Agrees()
    {
      var cap := if newCap < INITIAL_CAPACITY then INITIAL_CAPACITY else newCap;
      var t := RehashAll(hash, nodes, cap);
      nodes, tombstones := t, 0;
      RoomMeansEmpty(nodes[..]);
      CountFits(nodes[..]);
    }

    ghost predicate LoadAllowsOneMore()
      reads this, nodes
    {
      nodes.Length > 0 && 10 * (size + 1) <= 7 * nodes.Length
    }

    method Double()
      requires Valid() && nodes.Length > 0
      modifies this
      ensures Valid() && fresh(nodes) && Map() == old(Map()) && size == old(size) && nodes.Length == 2 * old(nodes.Length)
      ensures HasEmpty(nodes[..]) && Agrees()
    {
      DoublePower(nodes.Length);
      Grow(nodes.Length * 2);
    }

    /** The load check ahead of an insertion. */
    method CheckLoad()
      requires Valid()
      modifies this
      ensures Valid() && Map() == old(Map()) && size == old(size) && LoadAllowsOneMore()
      ensures old(LoadAllowsOneMore()) ==> nodes == old(nodes) && tombstones == old(tombstones)
      ensures !old(LoadAllowsOneMore()) ==>
        && fresh(nodes) && HasEmpty(nodes[..]) && Agrees()
        && nodes.Length == if old(nodes.Length) == 0 then INITIAL_CAPACITY else 2 * old(nodes.Length)
    {
      if nodes.Length == 0 {
        Grow(INITIAL_CAPACITY);
      } else if 10 * (size + 1) > 7 * nodes.Length {
        Double();
      }
    }

    method Fill(at: nat, key: K, value: V, ghost d: nat)
      requires Valid() && 10 * (size + 1) <= 7 * nodes.Length
      requires nodes.Length > 0 && key !in Map() && FreeFor(hash, nodes[..], key, at, d)
      modifies this, nodes
      ensures Valid() && nodes == old(nodes) && Map() == old(Map())[key := value] && nodes[at] == Filled(key, value)
      ensures InsertedAt(hash, old(nodes[..]), old(tombstones), key, value, at, nodes[..], tombstones)
    {
      ghost var t := nodes[..];
      AbsentKey(t, key);
      InsertKeepsSound(hash, t, key, value, d);
      if nodes[at].Tombstone? {
        tombstones := Down(tombstones);
      }
      size := size + 1;
      nodes[at] := Filled(key, value);
      assert nodes[..] == t[at := Filled(key, value)];
    }

    /** The probe loop of an insertion and what follows it, on a table that may take one more. `Free`: the key is there now. */
    method TryInsert(key: K, value: V) returns (place: Place)
      requires Valid() && LoadAllowsOneMore()
      modifies this, nodes
      ensures Valid() && nodes == old(nodes)
      ensures place.Free? ==>
        && key !in old(Map()) && Map() == old(Map())[key := value]
        && InsertedAt(hash, old(nodes[..]), old(tombstones), key, value, place.at, nodes[..], tombstones)
      ensures !place.Free? ==> nodes[..] == old(nodes[..]) && tombstones == old(tombstones) && size == old(size)
      ensures place.Present? ==> key in old(Map())
      ensures place.Saturated? <==> key !in old(Map()) && !old(HasEmpty(nodes[..]))
      ensures !place.Saturated? ==> place.at < nodes.Length && nodes[place.at] == Filled(key, Map()[key])
      ensures old(Agrees()) ==> Agrees()
    {
      ghost var d;
      place, d := PlaceFor(hash, nodes, key);
      if place.Present? {
        ContentsAt(nodes[..], place.at);
      } else if place.Free? {
        ghost var t, count := nodes[..], tombstones;
        Fill(place.at, key, value, d);
        InsertedAgrees(hash, t, count, key, value, place.at, nodes[..], tombstones);
      }
    }

    /**
     A new key is added, at the first slot of its path that is not filled, an old one left alone. The
     table doubles exactly when the load check fails, or when no slot is empty and the key is new: the
     retry then finds an empty slot, and happens only once.
     */
    method Insert(key: K, value: V) returns (at: nat, inserted: bool)
      requires Valid()
      modifies this, nodes
      ensures Valid() && (nodes == old(nodes) || fresh(nodes)) && nodes.Length >= old(nodes.Length)
      ensures inserted <==> key !in old(Map())
      ensures Map() == if inserted then old(Map())[key := value] else old(Map())
      ensures at < nodes.Length && key in Map() && nodes[at] == Filled(key, Map()[key])
      ensures nodes == old(nodes) ==>
        if inserted then InsertedAt(hash, old(nodes[..]), old(tombstones), key, value, at, nodes[..], tombstones)
        else nodes[..] == old(nodes[..]) && tombstones == old(tombstones)
      ensures nodes == old(nodes) <==> old(LoadAllowsOneMore() && (HasEmpty(nodes[..]) || key in Map()))
      ensures nodes != old(nodes) ==>
        nodes.Length == if old(nodes.Length) == 0 then INITIAL_CAPACITY else 2 * old(nodes.Length)
      ensures old(Agrees()) ==> Agrees()
      decreases if HasEmpty(nodes[..]) then 0 else 1
    {
      CheckLoad();
      var place := TryInsert(key, value);
      if place.Saturated? {
        Double();
        at, inserted := Insert(key, value);
      } else {
        at, inserted := place.at, place.Free?;
      }
    }

    /**
     `operator[]`: the slot whose value is referred to. An absent key comes to hold the default first.
     */
    method Index(key: K, default: V) returns (at: nat)
      requires Valid()
      modifies this, nodes
      ensures Valid() && (nodes == old(nodes) || fresh(nodes))
      ensures Map() == if key in old(Map()) then old(Map()) else old(Map())[key := default]
      ensures at < nodes.Length && nodes[at] == Filled(key, Map()[key])
      ensures old(Agrees()) ==> Agrees()
    {
      var inserted;
      at, inserted := Insert(key, default);
    }

    /** Storing through that reference. */
    method Assign(key: K, default: V, value: V)
      requires Valid()
      modifies this, nodes
      ensures Valid() && (nodes == old(nodes) || fresh(nodes)) && Map() == old(Map())[key := value]
      ensures old(Agrees()) ==> Agrees()
    {
      ghost var m := Map();
      var at := Index(key, default);
      ghost var m' := Map();
      Overwrite(at, key, value);
      StoreAbsorbs(m, m', key, default, value);
    }

    method Overwrite(at: nat, key: K, value: V)
      requires Valid() && at < nodes.Length && nodes[at].Filled? && nodes[at].key == key
      modifies nodes
      ensures Valid() && Map() == old(Map())[key := value]
      ensures old(Agrees()) ==> Agrees()
    {
      ghost var t := nodes[..];
      OverwriteKeepsSound(hash, t, at, value);
      CountAfterWrite(t, at, Filled(key, value));
      ContentsAt(t, at);
      nodes[at] := Filled(key, value);
      assert nodes[..] == t[at := Filled(key, value)];
    }

    method Erase(key: K) returns (erased: bool)
      requires Valid()
      modifies this, nodes
      ensures Valid() && nodes == old(nodes)
      ensures erased <==> key in old(Map())
      ensures Map() == old(Map()) - {key}
      ensures if erased then ErasedFrom(old(nodes[..]), old(tombstones), key, nodes[..], tombstones)
        else nodes[..] == old(nodes[..]) && tombstones == old(tombstones)
      ensures old(Agrees()) && nodes.Length < WORD ==> Agrees()
    {
      var at := FindNode(key);
      if at.None? {
        assert Map() - {key} == Map();
        return false;
      }
      ghost var t, count := nodes[..], tombstones;
      Bury(at.value, key);
      ErasedAgrees(t, count, key, nodes[..], tombstones);
      return true;
    }

    method Bury(at: nat, key: K)
      requires Valid() && at < nodes.Length && nodes[at].Filled? && nodes[at].key == key
      modifies this, nodes
      ensures Valid() && nodes == old(nodes) && Map() == old(Map()) - {key}
      ensures ErasedFrom(old(nodes[..]), old(tombstones), key, nodes[..], tombstones)
    {
      ghost var t := nodes[..];
      BuryKeeps(hash, t, at, key);
      ErasedByWrite(t, tombstones, key, at);
      nodes[at] := Tombstone;
      tombstones := Up(tombstones);
      size := size - 1;
      assert nodes[..] == t[at := Tombstone];
    }

    /** Empties the map but keeps the storage, and the tombstones in it. */
    method Clear()
      requires Valid()
      modifies this, nodes
      ensures Valid() && nodes == old(nodes) && Map() == map[] && tombstones == 0
      ensures forall j :: 0 <= j < nodes.Length ==>
        nodes[j] == if old(nodes[j]).Filled? then Empty else old(nodes[j])
      ensures Agrees() <==> old(NoTombstones(nodes[..]))
    {
      EmptyFilled(nodes);
      size, tombstones := 0, 0;
      assert Contents(nodes[..]) == map[];
      CountFits(nodes[..]);
    }

    method Reserve(n: nat)
      requires Valid()
      modifies this
      ensures Valid() && (nodes == old(nodes) || fresh(nodes)) && Map() == old(Map())
      ensures nodes == old(nodes) <==> n <= old(nodes.Length)
      ensures nodes.Length >= n
      ensures n > old(nodes.Length) ==> nodes.Length < 2 * n || nodes.Length == INITIAL_CAPACITY
      ensures old(Agrees()) ==> Agrees()
    {
      if n <= nodes.Length { return; }
      var cap := DoubleUpTo(if nodes.Length == 0 then INITIAL_CAPACITY else nodes.Length, n);
      Grow(cap);
    }

    /** The first filled slot; `nodes.Length` stands for `end()`. */
    method Begin() returns (i: nat)
      requires Valid()
      ensures i <= nodes.Length && i == NextFilled(nodes[..], 0)
    {
      i := 0;
      while i < nodes.Length && !nodes[i].Filled?
        invariant i <= nodes.Length && NextFilled(nodes[..], i) == NextFilled(nodes[..], 0)
      {
        i := i + 1;
      }
    }

    /** `operator++`. */
    method Next(i0: nat) returns (i: nat)
      requires Valid() && i0 < nodes.Length
      ensures i <= nodes.Length && i == NextFilled(nodes[..], i0 + 1)
    {
      i := i0 + 1;
      while i < nodes.Length && !nodes[i].Filled?
        invariant i <= nodes.Length && NextFilled(nodes[..], i) == NextFilled(nodes[..], i0 + 1)
      {
        i := i + 1;
      }
    }
  }

  // ---------------------------------------------------------------- calls that show what goes wrong

  function Zero(key: int): nat {
    0
  }

  /** Eight slots, of which all but the first two are empty, under the constant hash. */
  ghost predicate Holds(m: HashMap<int, bool>, a: Slot<int, bool>, b: Slot<int, bool>, count: nat)
    reads m, m.nodes
  {
    m.Valid() && m.hash == Zero && m.nodes.Length == 8 && m.tombstones == count && m.nodes[..] == TwoSlots(a, b)
  }

  ghost function TwoSlots(a: Slot<int, bool>, b: Slot<int, bool>): seq<Slot<int, bool>> {
    [a, b, Empty, Empty, Empty, Empty, Empty, Empty]
  }

  /** An absent key goes to slot 0 if that is not filled, and else to slot 1 if that is not. */
  lemma FirstSlots(a: Slot<int, bool>, b: Slot<int, bool>, key: int, at: nat, d: nat)
    requires FreeFor(Zero, TwoSlots(a, b), key, at, d)
    ensures if !a.Filled? then at == 0 else !b.Filled? ==> at == 1
  {
    assert Home(Zero, key, 8) == 0 && Probe(0, 0, 8) == 0 && Probe(0, 1, 8) == 1;
    assert d > 0 ==> TwoSlots(a, b)[Probe(0, 0, 8)].Filled?;
    assert d > 1 ==> TwoSlots(a, b)[Probe(0, 1, 8)].Filled?;
  }

  /** The table after putting an absent key. */
  lemma PutMeans(a: Slot<int, bool>, b: Slot<int, bool>, count: nat, key: int, at: nat, t': seq<Slot<int, bool>>, count': nat)
    requires InsertedAt(Zero, TwoSlots(a, b), count, key, true, at, t', count')
    ensures !a.Filled? ==> t' == TwoSlots(Filled(key, true), b)
    ensures a.Filled? && !b.Filled? ==> t' == TwoSlots(a, Filled(key, true))
    ensures !a.Tombstone? && !b.Tombstone? ==> count' == count
    ensures a.Tombstone? ==> count' == Down(count)
  {
    var d :| FreeFor(Zero, TwoSlots(a, b), key, at, d)
      && t' == TwoSlots(a, b)[at := Filled(key, true)]
      && count' == if TwoSlots(a, b)[at].Tombstone? then Down(count) else count;
    FirstSlots(a, b, key, at, d);
  }

  lemma TwoKeys(a: Slot<int, bool>, b: Slot<int, bool>)
    requires DistinctKeys(TwoSlots(a, b))
    ensures |Contents(TwoSlots(a, b))| <= 2 && HasEmpty(TwoSlots(a, b))
    ensures forall k :: k in Contents(TwoSlots(a, b)) <==> (a.Filled? && a.key == k) || (b.Filled? && b.key == k)
  {
    var t := TwoSlots(a, b);
    assert t[7].Empty?;
    if a.Filled? { ContentsAt(t, 0); }
    if b.Filled? { ContentsAt(t, 1); }
    forall k | k in Contents(t) ensures (a.Filled? && a.key == k) || (b.Filled? && b.key == k) {
      var j := Where(t, k);
      assert j < 2;
    }
    assert Contents(t).Keys == (if a.Filled? then {a.key} else {}) + (if b.Filled? then {b.key} else {});
    AtMostTwo(Contents(t), (if a.Filled? then {a.key} else {}) + (if b.Filled? then {b.key} else {}));
  }

  lemma AtMostTwo(m: map<int, bool>, keys: set<int>)
    requires |keys| <= 2 && m.Keys == keys
    ensures |m| <= 2
  {
    assert |m| == |m.Keys|;
  }

  method Fresh() returns (m: HashMap<int, bool>)
    ensures fresh(m) && fresh(m.nodes) && Holds(m, Empty, Empty, 0)
  {
    m := new HashMap<int, bool>(Zero, 1);
  }

  method Put(m: HashMap<int, bool>, key: int, ghost a: Slot<int, bool>, ghost b: Slot<int, bool>, ghost count: nat)
    requires Holds(m, a, b, count) && (a.Filled? ==> a.key != key) && (b.Filled? ==> b.key != key)
    requires !(a.Filled? && b.Filled?) && (a.Tombstone? || !b.Tombstone?)
    modifies m, m.nodes
    ensures m.nodes == old(m.nodes)
    ensures Holds(m, if a.Filled? then a else Filled(key, true), if a.Filled? then Filled(key, true) else b,
                  if a.Tombstone? then Down(count) else count)
  {
    TwoKeys(a, b);
    var at, inserted := m.Insert(key, true);
    PutMeans(a, b, count, key, at, m.nodes[..], m.tombstones);
  }

  lemma RemoveMeans(key: int, b: Slot<int, bool>, count: nat, t': seq<Slot<int, bool>>, count': nat)
    requires ErasedFrom(TwoSlots(Filled(key, true), b), count, key, t', count') && count < WORD - 1
    requires b.Filled? ==> b.key != key
    ensures t' == TwoSlots(Tombstone, b) && count' == count + 1
  {
    var t := TwoSlots(Filled(key, true), b);
    var at: nat :| at < |t| && t[at].Filled? && t[at].key == key && t' == t[at := Tombstone];
    assert at == 0;
  }

  method Remove(m: HashMap<int, bool>, key: int, ghost b: Slot<int, bool>, ghost count: nat)
    requires Holds(m, Filled(key, true), b, count) && count < WORD - 1 && (b.Filled? ==> b.key != key)
    modifies m, m.nodes
    ensures m.nodes == old(m.nodes) && Holds(m, Tombstone, b, count + 1)
  {
    TwoKeys(Filled(key, true), b);
    var erased := m.Erase(key);
    RemoveMeans(key, b, count, m.nodes[..], m.tombstones);
  }

  method Wipe(m: HashMap<int, bool>, ghost count: nat)
    requires Holds(m, Tombstone, Empty, count)
    modifies m, m.nodes
    ensures m.nodes == old(m.nodes) && Holds(m, Tombstone, Empty, 0)
  {
    ghost var t := m.nodes[..];
    m.Clear();
    assert m.nodes[..] == seq(8, j requires 0 <= j < 8 => if t[j].Filled? then Empty else t[j]);
    WipedSlots();
  }

  lemma WipedSlots()
    ensures var t := TwoSlots(Tombstone, Empty);
      seq(8, j requires 0 <= j < 8 => if t[j].Filled? then Empty else t[j]) == t
  {
  }

  /** Insert, erase, clear, insert: the counter stands at 2^64 - 1, and there is no tombstone. */
  method ClearWrapsCounter() returns (m: HashMap<int, bool>)
    ensures m.Valid() && m.tombstones == WORD - 1 && TombstoneCount(m.nodes[..]) == 0
  {
    m := Fresh();
    Put(m, 1, Empty, Empty, 0);
    Remove(m, 1, Empty, 0);
    Wipe(m, 1);
    Put(m, 1, Tombstone, Empty, 0);
    NoneIn(Filled(1, true), Empty);
  }

  lemma NoneIn(a: Slot<int, bool>, b: Slot<int, bool>)
    requires !a.Tombstone? && !b.Tombstone?
    ensures TombstoneCount(TwoSlots(a, b)) == 0
  {
    CountFits(TwoSlots(a, b));
  }

  /** Insert two keys, erase the first, copy: the copy does not find the second. */
  method EraseThenCopy() returns (m: HashMap<int, bool>)
    ensures m.Valid() && 2 in m.Map() && m.nodes.Length > 0
    ensures Lookup(m.hash, CopySlots(m.nodes[..]), 2, 0).None?
  {
    m := Fresh();
    Put(m, 1, Empty, Empty, 0);
    Put(m, 2, Filled(1, true), Empty, 0);
    Remove(m, 1, Filled(2, true), 0);
    TwoKeys(Tombstone, Filled(2, true));
    CopyOfTwo();
  }

  lemma CopyOfTwo()
    ensures Lookup(Zero, CopySlots(TwoSlots(Tombstone, Filled(2, true))), 2, 0).None?
  {
    var c := CopySlots(TwoSlots(Tombstone, Filled(2, true)));
    assert Home(Zero, 2, 8) == 0 && Distance(0, 1, 8) == 1 && Probe(0, 0, 8) == 0;
    LookupBlocked(Zero, c, 1, 0);
  }

  lemma EmptyTable<K(!new), V>(hash: K -> nat, t: seq<Slot<K, V>>)
    requires forall j :: 0 <= j < |t| ==> t[j].Empty?
    ensures Sound(hash, t) && Contents(t) == map[] && TombstoneCount(t) == 0
  {
    CountFits(t);
  }

  lemma StoreAbsorbs<K, V>(m: map<K, V>, m': map<K, V>, key: K, default: V, value: V)
    requires m' == m || m' == m[key := default]
    ensures m'[key := value] == m[key := value]
  {
  }

  lemma BuryKeeps<K(!new), V>(hash: K -> nat, t: seq<Slot<K, V>>, at: nat, key: K)
    requires Sound(hash, t) && at < |t| && t[at].Filled? && t[at].key == key
    ensures var t' := t[at := Tombstone];
      Sound(hash, t') && Contents(t') == Contents(t) - {key} && |Contents(t')| == |Contents(t)| - 1
  {
    EraseKeepsSound(hash, t, at);
    ContentsAt(t, at);
    MinusOne(Contents(t), key);
  }

  lemma MinusOne<K, V>(m: map<K, V>, key: K)
    requires key in m
    ensures |m - {key}| == |m| - 1
  {
    assert (m - {key}).Keys == m.Keys - {key};
    assert |m.Keys| == |m| && |(m - {key}).Keys| == |m - {key}|;
  }

  lemma AbsentKey<K(!new), V>(t: seq<Slot<K, V>>, key: K)
    requires DistinctKeys(t) && key !in Contents(t)
    ensures !HasKey(t, key)
  {
    forall j | 0 <= j < |t| && t[j].Filled? ensures t[j].key != key {
      ContentsAt(t, j);
    }
  }
}
