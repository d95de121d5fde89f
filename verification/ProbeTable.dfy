/**
 The table of an open-addressing hash map with linear probing: a sequence of slots. What a probe finds,
 which tables are sound, and what each write does to the map a table stands for.
 */
module ProbeTable {
  import opened Arithmetic
  import opened Options

  datatype Slot<K, V> = Empty | Tombstone | Filled(key: K, value: V)

  // ---------------------------------------------------------------- masks and probe positions

  predicate IsPowerOfTwo(n: nat) {
    n == 1 || (n > 1 && n % 2 == 0 && IsPowerOfTwo(n / 2))
  }

  lemma DoublePower(n: nat)
    requires IsPowerOfTwo(n)
    ensures IsPowerOfTwo(n * 2)
  {
    assert (n * 2) / 2 == n;
  }

  /** Bitwise and. */
  function And(x: nat, y: nat): nat {
    if x == 0 || y == 0 then 0 else 2 * And(x / 2, y / 2) + (if x % 2 == 1 && y % 2 == 1 then 1 else 0)
  }

  lemma HalfModulo(x: nat, m: nat)
    requires m > 0
    ensures x % (2 * m) == 2 * ((x / 2) % m) + x % 2
  {
    var q, s := (x / 2) / m, (x / 2) % m;
    assert x / 2 == m * q + s;
    assert 2 * (m * q) == (2 * m) * q;
    ModUnique(x, 2 * m, q, 2 * s + x % 2);
  }

  lemma AndMask(x: nat, m: nat)
    requires m > 0
    ensures And(x, 2 * m - 1) == 2 * And(x / 2, m - 1) + x % 2
  {
    assert (2 * m - 1) / 2 == m - 1 && (2 * m - 1) % 2 == 1;
  }

  lemma {:induction false} MaskIsModulo(x: nat, n: nat)
    requires IsPowerOfTwo(n)
    ensures And(x, n - 1) == x % n
    decreases n
  {
    if n > 1 {
      var m := n / 2;
      assert n == 2 * m;
      MaskIsModulo(x / 2, m);
      HalfModulo(x, m);
      AndMask(x, m);
    }
  }

  /** The `d`-th probe from `home`. */
  function Probe(home: nat, d: nat, cap: nat): nat {
    if home + d < cap then home + d else home + d - cap
  }

  /** How many probes past `home` the slot `j` is. */
  function Distance(home: nat, j: nat, cap: nat): nat
    requires home < cap
  {
    if j >= home then j - home else j + cap - home
  }

  lemma ProbeDistance(home: nat, j: nat, cap: nat)
    requires home < cap && j < cap
    ensures Distance(home, j, cap) < cap && Probe(home, Distance(home, j, cap), cap) == j
    ensures forall d :: 0 <= d < cap && Probe(home, d, cap) == j ==> d == Distance(home, j, cap)
  {
  }

  lemma WrapAround(j: nat, cap: nat)
    requires IsPowerOfTwo(cap) && j < cap
    ensures And(j + 1, cap - 1) == if j + 1 == cap then 0 else j + 1
  {
    MaskIsModulo(j + 1, cap);
    if j + 1 < cap { ModUnique(j + 1, cap, 0, j + 1); } else { ModUnique(j + 1, cap, 1, 0); }
  }

  lemma NextProbe(home: nat, d: nat, cap: nat)
    requires IsPowerOfTwo(cap) && home < cap && d < cap
    ensures And(Probe(home, d, cap) + 1, cap - 1) == Probe(home, d + 1, cap)
  {
    WrapAround(Probe(home, d, cap), cap);
  }

  function Home<K>(hash: K -> nat, key: K, cap: nat): (home: nat)
    requires cap > 0
    ensures home < cap
  {
    Wrap(hash(key), cap)
  }

  // ---------------------------------------------------------------- sound tables

  ghost predicate HasKey<K, V>(t: seq<Slot<K, V>>, key: K) {
    exists j :: 0 <= j < |t| && t[j].Filled? && t[j].key == key
  }

  /** No probe from the home of its key to slot `j` meets an empty slot. */
  ghost predicate OnPath<K(!new), V>(hash: K -> nat, t: seq<Slot<K, V>>, j: nat)
    requires j < |t| && t[j].Filled?
  {
    var home := Home(hash, t[j].key, |t|);
    forall d :: 0 <= d < Distance(home, j, |t|) ==> !t[Probe(home, d, |t|)].Empty?
  }

  ghost predicate DistinctKeys<K, V>(t: seq<Slot<K, V>>) {
    forall i, j :: 0 <= i < j < |t| && t[i].Filled? && t[j].Filled? ==> t[i].key != t[j].key
  }

  ghost predicate Sound<K(!new), V>(hash: K -> nat, t: seq<Slot<K, V>>) {
    DistinctKeys(t) && forall j :: 0 <= j < |t| && t[j].Filled? ==> OnPath(hash, t, j)
  }

  /** The map a table stands for. */
  ghost function Contents<K, V>(t: seq<Slot<K, V>>): map<K, V>
    requires DistinctKeys(t)
  {
    map j | 0 <= j < |t| && t[j].Filled? :: t[j].key := t[j].value
  }

  ghost predicate NoTombstones<K, V>(t: seq<Slot<K, V>>) {
    forall j :: 0 <= j < |t| ==> !t[j].Tombstone?
  }

  ghost predicate HasEmpty<K, V>(t: seq<Slot<K, V>>) {
    exists j :: 0 <= j < |t| && t[j].Empty?
  }

  // ---------------------------------------------------------------- lookup

  /** The code's `find_node` from its `d`-th probe on. */
  function Lookup<K(==), V>(hash: K -> nat, t: seq<Slot<K, V>>, key: K, d: nat): Option<nat>
    requires t != [] && d <= |t|
    decreases |t| - d
  {
    if d == |t| then None
    else
      var j := Probe(Home(hash, key, |t|), d, |t|);
      if t[j].Empty? then None
      else if t[j].Filled? && t[j].key == key then Some(j)
      else Lookup(hash, t, key, d + 1)
  }

  /** One probe of a lookup, and where the code goes from there. */
  lemma LookupStep<K, V>(hash: K -> nat, t: seq<Slot<K, V>>, key: K, d: nat, j: nat)
    requires IsPowerOfTwo(|t|) && d < |t| && j == Probe(Home(hash, key, |t|), d, |t|)
    ensures j < |t|
    ensures Lookup(hash, t, key, d) ==
      if t[j].Empty? then None
      else if t[j].Filled? && t[j].key == key then Some(j)
      else Lookup(hash, t, key, d + 1)
    ensures And(j + 1, |t| - 1) == Probe(Home(hash, key, |t|), d + 1, |t|)
  {
    NextProbe(Home(hash, key, |t|), d, |t|);
  }

  lemma HomeByMask<K>(hash: K -> nat, key: K, cap: nat)
    requires IsPowerOfTwo(cap)
    ensures And(hash(key), cap - 1) == Home(hash, key, cap) == Probe(Home(hash, key, cap), 0, cap)
  {
    MaskIsModulo(hash(key), cap);
    WrapIsModulo(hash(key), cap);
  }

  /** A lookup ends at the first probe that is empty or holds the key. */
  lemma {:induction false} LookupStops<K, V>(hash: K -> nat, t: seq<Slot<K, V>>, key: K, d: nat) returns (e: nat)
    requires t != [] && d <= |t|
    ensures d <= e <= |t|
    ensures var home := Home(hash, key, |t|);
      && (forall x :: d <= x < e ==>
            !t[Probe(home, x, |t|)].Empty? && !(t[Probe(home, x, |t|)].Filled? && t[Probe(home, x, |t|)].key == key))
      && (if Lookup(hash, t, key, d).None? then e == |t| || t[Probe(home, e, |t|)].Empty?
          else e < |t| && Lookup(hash, t, key, d) == Some(Probe(home, e, |t|))
               && t[Probe(home, e, |t|)].Filled? && t[Probe(home, e, |t|)].key == key)
    decreases |t| - d
  {
    e := d;
    if d < |t| {
      var j := Probe(Home(hash, key, |t|), d, |t|);
      if !t[j].Empty? && !(t[j].Filled? && t[j].key == key) {
        e := LookupStops(hash, t, key, d + 1);
      }
    }
  }

  /** In a sound table lookup finds exactly the keys that are there, each where it is. */
  lemma LookupFinds<K(!new), V>(hash: K -> nat, t: seq<Slot<K, V>>, key: K)
    requires t != [] && Sound(hash, t)
    ensures Lookup(hash, t, key, 0).Some? <==> key in Contents(t)
    ensures Lookup(hash, t, key, 0).Some? ==>
      var j := Lookup(hash, t, key, 0).value; j < |t| && t[j] == Filled(key, Contents(t)[key])
  {
    var e := LookupStops(hash, t, key, 0);
    if Lookup(hash, t, key, 0).None? {
      StoppedProbeMisses(hash, t, key, e);
    }
  }

  /** The first `n` probes for a key meet neither it nor an empty slot. */
  ghost predicate Passed<K(!new), V>(hash: K -> nat, t: seq<Slot<K, V>>, key: K, n: nat)
    requires t != [] && n <= |t|
  {
    var home := Home(hash, key, |t|);
    forall x :: 0 <= x < n ==>
      !t[Probe(home, x, |t|)].Empty? && !(t[Probe(home, x, |t|)].Filled? && t[Probe(home, x, |t|)].key == key)
  }

  /** A probe that ran past every other possible place and met an empty slot has missed nothing. */
  lemma StoppedProbeMisses<K(!new), V>(hash: K -> nat, t: seq<Slot<K, V>>, key: K, e: nat)
    requires t != [] && Sound(hash, t) && e <= |t|
    requires Passed(hash, t, key, e) && (e < |t| ==> t[Probe(Home(hash, key, |t|), e, |t|)].Empty?)
    ensures !HasKey(t, key) && key !in Contents(t)
  {
    var home := Home(hash, key, |t|);
    forall j | 0 <= j < |t| ensures !(t[j].Filled? && t[j].key == key) {
      ProbeDistance(home, j, |t|);
      assert t[j].Filled? ==> OnPath(hash, t, j);
    }
  }

  // ---------------------------------------------------------------- writes

  /** A key that is nowhere goes to a free slot on its own probe path. */
  lemma InsertKeepsSound<K(!new), V>(hash: K -> nat, t: seq<Slot<K, V>>, key: K, value: V, d: nat)
    requires t != [] && Sound(hash, t) && !HasKey(t, key) && d < |t|
    requires var home := Home(hash, key, |t|);
      && !t[Probe(home, d, |t|)].Filled?
      && forall x :: 0 <= x < d ==> !t[Probe(home, x, |t|)].Empty?
    ensures var t' := t[Probe(Home(hash, key, |t|), d, |t|) := Filled(key, value)];
      Sound(hash, t') && Contents(t') == Contents(t)[key := value]
    ensures key !in Contents(t)
  {
    var home := Home(hash, key, |t|);
    var at := Probe(home, d, |t|);
    var t' := t[at := Filled(key, value)];
    ProbeDistance(home, at, |t|);
    forall j | 0 <= j < |t'| && t'[j].Filled? ensures OnPath(hash, t', j) {
      if j != at { assert OnPath(hash, t, j); }
    }
    ContentsAfterWrite(t, at, Filled(key, value));
  }

  lemma OverwriteKeepsSound<K(!new), V>(hash: K -> nat, t: seq<Slot<K, V>>, at: nat, value: V)
    requires Sound(hash, t) && at < |t| && t[at].Filled?
    ensures var t' := t[at := Filled(t[at].key, value)];
      Sound(hash, t') && Contents(t') == Contents(t)[t[at].key := value]
  {
    var t' := t[at := Filled(t[at].key, value)];
    forall j | 0 <= j < |t'| && t'[j].Filled? ensures OnPath(hash, t', j) {
      assert OnPath(hash, t, j);
    }
    ContentsAfterWrite(t, at, Filled(t[at].key, value));
  }

  /** A tombstone keeps every path closed. */
  lemma EraseKeepsSound<K(!new), V>(hash: K -> nat, t: seq<Slot<K, V>>, at: nat)
    requires Sound(hash, t) && at < |t| && t[at].Filled?
    ensures var t' := t[at := Tombstone]; Sound(hash, t') && Contents(t') == Contents(t) - {t[at].key}
  {
    var t' := t[at := Tombstone];
    forall j | 0 <= j < |t'| && t'[j].Filled? ensures OnPath(hash, t', j) {
      assert OnPath(hash, t, j);
    }
    var m := Contents(t) - {t[at].key};
    forall j | 0 <= j < |t'| && t'[j].Filled? ensures t'[j].key in m && m[t'[j].key] == t'[j].value {
      ContentsAt(t, j);
    }
    forall k | k in m ensures HasKey(t', k) {
      var j := Where(t, k);
      assert t'[j].Filled?;
    }
    ContentsAre(t', m);
  }

  lemma ContentsAt<K, V>(t: seq<Slot<K, V>>, j: nat)
    requires DistinctKeys(t) && j < |t| && t[j].Filled?
    ensures t[j].key in Contents(t) && Contents(t)[t[j].key] == t[j].value
  {
  }

  lemma Where<K, V>(t: seq<Slot<K, V>>, k: K) returns (j: nat)
    requires DistinctKeys(t) && k in Contents(t)
    ensures j < |t| && t[j] == Filled(k, Contents(t)[k])
  {
    j :| 0 <= j < |t| && t[j].Filled? && t[j].key == k;
  }

  lemma ContentsAre<K, V>(t: seq<Slot<K, V>>, m: map<K, V>)
    requires DistinctKeys(t)
    requires forall j :: 0 <= j < |t| && t[j].Filled? ==> t[j].key in m && m[t[j].key] == t[j].value
    requires forall k :: k in m ==> HasKey(t, k)
    ensures Contents(t) == m
  {
    forall k ensures k in Contents(t) <==> k in m {
      if k in m { assert HasKey(t, k); }
    }
  }

  lemma ContentsAfterWrite<K, V>(t: seq<Slot<K, V>>, at: nat, slot: Slot<K, V>)
    requires DistinctKeys(t) && at < |t| && slot.Filled?
    requires if t[at].Filled? then t[at].key == slot.key else !HasKey(t, slot.key)
    ensures DistinctKeys(t[at := slot]) && Contents(t[at := slot]) == Contents(t)[slot.key := slot.value]
  {
    var t', m := t[at := slot], Contents(t)[slot.key := slot.value];
    forall j | 0 <= j < |t'| && t'[j].Filled? ensures t'[j].key in m && m[t'[j].key] == t'[j].value {
      if j != at { ContentsAt(t, j); }
    }
    assert t'[at].Filled?;
    forall k | k in m && k != slot.key ensures HasKey(t', k) {
      var j := Where(t, k);
      assert t'[j].Filled?;
    }
    ContentsAre(t', m);
  }

  lemma ContentsAppend<K, V>(t: seq<Slot<K, V>>, slot: Slot<K, V>)
    requires DistinctKeys(t) && slot.Filled? && !HasKey(t, slot.key)
    ensures DistinctKeys(t + [slot]) && Contents(t + [slot]) == Contents(t)[slot.key := slot.value]
  {
    var t', m := t + [slot], Contents(t)[slot.key := slot.value];
    forall j | 0 <= j < |t'| && t'[j].Filled? ensures t'[j].key in m && m[t'[j].key] == t'[j].value {
      if j < |t| { ContentsAt(t, j); }
    }
    assert t'[|t|].Filled?;
    forall k | k in m && k != slot.key ensures HasKey(t', k) {
      var j := Where(t, k);
      assert t'[j].Filled?;
    }
    ContentsAre(t', m);
  }

  lemma ContentsSkip<K, V>(t: seq<Slot<K, V>>, slot: Slot<K, V>)
    requires DistinctKeys(t) && !slot.Filled?
    ensures DistinctKeys(t + [slot]) && Contents(t + [slot]) == Contents(t)
  {
    var t', m := t + [slot], Contents(t);
    forall j | 0 <= j < |t'| && t'[j].Filled? ensures t'[j].key in m && m[t'[j].key] == t'[j].value {
      ContentsAt(t, j);
    }
    forall k | k in m ensures HasKey(t', k) {
      var j := Where(t, k);
      assert t'[j].Filled?;
    }
    ContentsAre(t', m);
  }

  /** One more slot of a table. */
  lemma ContentsOfPrefix<K, V>(t: seq<Slot<K, V>>, i: nat)
    requires DistinctKeys(t) && i < |t|
    ensures DistinctKeys(t[..i]) && DistinctKeys(t[..i + 1])
    ensures t[i].Filled? ==>
      !HasKey(t[..i], t[i].key) && t[i].key !in Contents(t[..i])
      && Contents(t[..i + 1]) == Contents(t[..i])[t[i].key := t[i].value]
    ensures !t[i].Filled? ==> Contents(t[..i + 1]) == Contents(t[..i])
  {
    assert t[..i + 1] == t[..i] + [t[i]];
    if t[i].Filled? {
      ContentsAppend(t[..i], t[i]);
    } else {
      ContentsSkip(t[..i], t[i]);
    }
  }

  /** A table holds at most as many keys as it has slots, and as many only if all are filled. */
  lemma {:induction false} ContentsFit<K, V>(t: seq<Slot<K, V>>)
    requires DistinctKeys(t)
    ensures |Contents(t)| <= |t|
    ensures (forall j :: 0 <= j < |t| ==> t[j].Filled?) ==> |Contents(t)| == |t|
    decreases |t|
  {
    if t != [] {
      var i := |t| - 1;
      ContentsOfPrefix(t, i);
      ContentsFit(t[..i]);
      assert t[..i + 1] == t;
    } else {
      assert Contents(t) == map[];
    }
  }

  lemma RoomMeansEmpty<K, V>(t: seq<Slot<K, V>>)
    requires DistinctKeys(t) && NoTombstones(t) && |Contents(t)| < |t|
    ensures HasEmpty(t)
  {
    ContentsFit(t);
    var j :| 0 <= j < |t| && !t[j].Filled?;
  }

  lemma ProbesCover<K, V>(t: seq<Slot<K, V>>, home: nat)
    requires home < |t| && forall x :: 0 <= x < |t| ==> !t[Probe(home, x, |t|)].Empty?
    ensures !HasEmpty(t)
  {
    forall j | 0 <= j < |t| ensures !t[j].Empty? {
      ProbeDistance(home, j, |t|);
    }
  }

  // ---------------------------------------------------------------- counting tombstones

  ghost function Tombstones<K, V>(t: seq<Slot<K, V>>): set<nat> {
    set j: nat | j < |t| && t[j].Tombstone?
  }

  ghost function TombstoneCount<K, V>(t: seq<Slot<K, V>>): nat {
    |Tombstones(t)|
  }

  lemma CountAfterWrite<K, V>(t: seq<Slot<K, V>>, at: nat, slot: Slot<K, V>)
    requires at < |t|
    ensures TombstoneCount(t[at := slot]) ==
            TombstoneCount(t) - (if t[at].Tombstone? then 1 else 0) + (if slot.Tombstone? then 1 else 0)
  {
    var rest := Tombstones(t) - {at};
    assert Tombstones(t) == rest + if t[at].Tombstone? then {at} else {};
    assert Tombstones(t[at := slot]) == rest + if slot.Tombstone? then {at} else {};
  }

  lemma {:induction false} CountFits<K, V>(t: seq<Slot<K, V>>)
    ensures TombstoneCount(t) <= |t|
    ensures TombstoneCount(t) == 0 <==> NoTombstones(t)
    decreases |t|
  {
    if t != [] {
      var n := |t| - 1;
      CountFits(t[..n]);
      assert Tombstones(t) == Tombstones(t[..n]) + if t[n].Tombstone? then {n} else {};
    }
    assert NoTombstones(t) ==> Tombstones(t) == {};
    forall j: nat | j < |t| && t[j].Tombstone? ensures Tombstones(t) != {} {
      assert j in Tombstones(t);
    }
  }

  // ---------------------------------------------------------------- copying a table

  /** What the copy constructor makes of a slot: only filled ones are copied, to the same place. */
  function CopySlots<K, V>(t: seq<Slot<K, V>>): (c: seq<Slot<K, V>>)
    ensures |c| == |t|
  {
    seq(|t|, j requires 0 <= j < |t| => if t[j].Filled? then t[j] else Empty)
  }

  /** Some probe path to a filled slot runs over a tombstone. */
  ghost predicate PathOverTombstone<K(!new), V>(hash: K -> nat, t: seq<Slot<K, V>>) {
    exists j, d ::
      && 0 <= j < |t| && t[j].Filled?
      && 0 <= d < Distance(Home(hash, t[j].key, |t|), j, |t|)
      && t[Probe(Home(hash, t[j].key, |t|), d, |t|)].Tombstone?
  }

  ghost predicate FindsAll<K(!new), V>(hash: K -> nat, t: seq<Slot<K, V>>, keys: set<K>) {
    t != [] ==> forall k :: k in keys ==> Lookup(hash, t, k, 0).Some?
  }

  /** A copy finds every key of the original exactly when no path of the original runs over a tombstone. */
  lemma CopyFindsAllIff<K(!new), V>(hash: K -> nat, t: seq<Slot<K, V>>)
    requires Sound(hash, t)
    ensures FindsAll(hash, CopySlots(t), Contents(t).Keys) <==> !PathOverTombstone(hash, t)
  {
    var c := CopySlots(t);
    if t == [] {
    } else if PathOverTombstone(hash, t) {
      var j, d :|
        && 0 <= j < |t| && t[j].Filled?
        && 0 <= d < Distance(Home(hash, t[j].key, |t|), j, |t|)
        && t[Probe(Home(hash, t[j].key, |t|), d, |t|)].Tombstone?;
      LookupBlocked(hash, c, j, d);
      assert t[j].key in Contents(t).Keys;
    } else {
      forall j | 0 <= j < |c| && c[j].Filled? ensures OnPath(hash, c, j) {
        assert OnPath(hash, t, j);
      }
      forall k | k in Contents(t).Keys ensures Lookup(hash, c, k, 0).Some? {
        LookupFinds(hash, c, k);
        var j :| 0 <= j < |t| && t[j].Filled? && t[j].key == k;
        assert c[j].Filled? && c[j].key == k;
      }
    }
  }

  /** An empty slot on the path to the only place of a key makes its lookup fail. */
  lemma LookupBlocked<K(!new), V>(hash: K -> nat, c: seq<Slot<K, V>>, j: nat, d: nat)
    requires DistinctKeys(c) && j < |c| && c[j].Filled?
    requires d < Distance(Home(hash, c[j].key, |c|), j, |c|)
    requires c[Probe(Home(hash, c[j].key, |c|), d, |c|)].Empty?
    ensures Lookup(hash, c, c[j].key, 0).None?
  {
    var key := c[j].key;
    var home := Home(hash, key, |c|);
    var e := LookupStops(hash, c, key, 0);
    ProbeDistance(home, j, |c|);
    assert e <= d;
  }

  // ---------------------------------------------------------------- iteration

  /** The first filled slot from `i` on, or the end. */
  function NextFilled<K, V>(t: seq<Slot<K, V>>, i: nat): (j: nat)
    requires i <= |t|
    ensures i <= j <= |t|
    ensures j < |t| ==> t[j].Filled?
    ensures forall x :: i <= x < j ==> !t[x].Filled?
    decreases |t| - i
  {
    if i == |t| || t[i].Filled? then i else NextFilled(t, i + 1)
  }

  /** The slots a range-based loop visits when its iterator stands at `i`. */
  function Visits<K, V>(t: seq<Slot<K, V>>, i: nat): seq<nat>
    requires i <= |t|
    decreases |t| - i
  {
    if i == |t| then [] else [i] + Visits(t, NextFilled(t, i + 1))
  }

  /** Iterating visits every filled slot once, in ascending order, and nothing else. */
  lemma {:induction false} VisitsEachOnce<K, V>(t: seq<Slot<K, V>>, i: nat)
    requires i <= |t| && (i < |t| ==> t[i].Filled?)
    ensures forall j :: j in Visits(t, i) <==> i <= j < |t| && t[j].Filled?
    ensures forall x, y :: 0 <= x < y < |Visits(t, i)| ==> Visits(t, i)[x] < Visits(t, i)[y]
    decreases |t| - i
  {
    if i < |t| {
      var n := NextFilled(t, i + 1);
      VisitsEachOnce(t, n);
      var rest := Visits(t, n);
      assert Visits(t, i) == [i] + rest;
      forall j ensures j in [i] + rest <==> i <= j < |t| && t[j].Filled? {
        assert j in [i] + rest <==> j == i || j in rest;
      }
      forall y | 0 <= y < |rest| ensures i < rest[y] {
        assert rest[y] in rest;
      }
    }
  }
}
