/**
 The 32-slot tables of the receiver's freshness tracker: linear lookup,
 first-free allocation, and replacement of the oldest slot once its age,
 computed in wrapping 32-bit clock arithmetic, reaches one hour. The session
 table and the sequence table differ only in their key and value types.
 */
module TrackTable {
  import opened Bytes

  const SLOTS: nat := 32
  const STALE_MS: int := 3_600_000

  datatype Slot<K, V> = Slot(used: bool, key: K, value: V, lastSeen: u32)

  /** `now - seen` on unsigned 32-bit integers. */
  function Age(now: u32, seen: u32): u32 {
    (now - seen) % WRAP32
  }

  predicate Matches<K(==), V>(s: Slot<K, V>, key: K) {
    s.used && s.key == key
  }

  predicate AllUsed<K, V>(t: seq<Slot<K, V>>) {
    forall i :: 0 <= i < |t| ==> t[i].used
  }

  /** The first slot in use for `key`, or -1. */
  function Find<K(==), V>(t: seq<Slot<K, V>>, key: K): (r: int)
    ensures -1 <= r < |t|
    ensures r >= 0 ==> Matches(t[r], key)
    ensures forall i :: 0 <= i < (if r >= 0 then r else |t|) ==> !Matches(t[i], key)
  {
    if t == [] then -1
    else
      var front := Find(t[..|t| - 1], key);
      if front >= 0 then front
      else if Matches(t[|t| - 1], key) then |t| - 1
      else -1
  }

  /** The first free slot, or -1. */
  function FirstFree<K, V>(t: seq<Slot<K, V>>): (r: int)
    ensures -1 <= r < |t|
    ensures r >= 0 ==> !t[r].used
    ensures forall i :: 0 <= i < (if r >= 0 then r else |t|) ==> t[i].used
  {
    if t == [] then -1
    else
      var front := FirstFree(t[..|t| - 1]);
      if front >= 0 then front
      else if !t[|t| - 1].used then |t| - 1
      else -1
  }

  /** The first slot of greatest age among those older than zero, or -1. */
  function Oldest<K, V>(t: seq<Slot<K, V>>, now: u32): (r: int)
    ensures -1 <= r < |t|
    ensures r >= 0 ==> Age(now, t[r].lastSeen) > 0
    ensures forall i :: 0 <= i < |t| ==>
              Age(now, t[i].lastSeen) <= if r >= 0 then Age(now, t[r].lastSeen) else 0
    ensures forall i :: 0 <= i < r ==> Age(now, t[i].lastSeen) < Age(now, t[r].lastSeen)
  {
    if t == [] then -1
    else
      var front := Oldest(t[..|t| - 1], now);
      var best := if front >= 0 then Age(now, t[front].lastSeen) else 0;
      if Age(now, t[|t| - 1].lastSeen) > best then |t| - 1 else front
  }

  /**
   The slot a new key may take: the first free one; in a full table the oldest
   one, if it is at least an hour old; otherwise none.
   */
  function Acquire<K, V>(t: seq<Slot<K, V>>, now: u32): (r: int)
    ensures -1 <= r < |t|
    ensures !AllUsed(t) ==> r == FirstFree(t) >= 0
    ensures AllUsed(t) && r >= 0 ==> Age(now, t[r].lastSeen) >= STALE_MS
    ensures AllUsed(t) && r >= 0 ==> forall i :: 0 <= i < |t| ==> Age(now, t[i].lastSeen) <= Age(now, t[r].lastSeen)
    ensures AllUsed(t) ==> forall i :: 0 <= i < r ==> Age(now, t[i].lastSeen) < Age(now, t[r].lastSeen)
    ensures AllUsed(t) ==> (r == -1 <==> forall i :: 0 <= i < |t| ==> Age(now, t[i].lastSeen) < STALE_MS)
  {
    var free := FirstFree(t);
    var oldest := Oldest(t, now);
    if free >= 0 then free
    else if oldest >= 0 && Age(now, t[oldest].lastSeen) >= STALE_MS then oldest
    else -1
  }

  /** The lookup loop. */
  method FindTrack<K(==), V>(a: array<Slot<K, V>>, key: K) returns (r: int)
    ensures r == Find(a[..], key)
  {
    for i := 0 to a.Length
      invariant forall k :: 0 <= k < i ==> !Matches(a[k], key)
    {
      if a[i].used && a[i].key == key {
        return i;
      }
    }
    return -1;
  }

  /** The allocation loop: it stops at the first free slot and tracks the oldest one on the way. */
  method AcquireSlot<K, V>(a: array<Slot<K, V>>, now: u32) returns (r: int)
    ensures r == Acquire(a[..], now)
  {
    var oldest, oldestAge := -1, 0;
    for i := 0 to a.Length
      invariant forall k :: 0 <= k < i ==> a[k].used
      invariant -1 <= oldest < i
      invariant oldestAge == if oldest >= 0 then Age(now, a[oldest].lastSeen) else 0
      invariant oldest >= 0 ==> oldestAge > 0
      invariant forall k :: 0 <= k < i ==> Age(now, a[k].lastSeen) <= oldestAge
      invariant forall k :: 0 <= k < oldest ==> Age(now, a[k].lastSeen) < oldestAge
    {
      if !a[i].used {
        return i;
      }
      var age := Age(now, a[i].lastSeen);
      if age > oldestAge {
        oldestAge, oldest := age, i;
      }
    }
    assert FirstFree(a[..]) == -1;
    assert Oldest(a[..], now) == oldest;
    if oldest >= 0 && oldestAge >= STALE_MS {
      return oldest;
    }
    return -1;
  }

  /** No key is held by two slots in use. */
  ghost predicate Distinct<K, V>(t: seq<Slot<K, V>>) {
    forall i, j :: 0 <= i < j < |t| && t[i].used && t[j].used ==> t[i].key != t[j].key
  }

  /** Slot `r` is where `key` lives, or the slot it is given. */
  ghost predicate Placed<K, V>(t: seq<Slot<K, V>>, key: K, now: u32, r: int) {
    0 <= r < |t| && (Find(t, key) == r || (Find(t, key) == -1 && Acquire(t, now) == r))
  }

  /** Writing a key into its place keeps keys distinct, and lookup then finds it there. */
  lemma PutIsFound<K, V>(t: seq<Slot<K, V>>, key: K, now: u32, r: int, s: Slot<K, V>)
    requires Distinct(t) && Placed(t, key, now, r)
    requires Matches(s, key)
    ensures Distinct(t[r := s])
    ensures Find(t[r := s], key) == r
  {
    var t' := t[r := s];
    forall i | 0 <= i < |t| && i != r
      ensures !Matches(t'[i], key)
    {
      assert t'[i] == t[i];
      assert Find(t, key) >= 0 ==> t[Find(t, key)].key == key;
    }
    assert Matches(t'[r], key);
  }

  /**
   The age a slot shows in modular arithmetic never exceeds the true time
   since it was written, so allocation never takes a slot written less than an
   hour ago, however often the 32-bit clock has wrapped.
   */
  lemma PutSparesRecent<K, V>(t: seq<Slot<K, V>>, key: K, r: int, s: Slot<K, V>, other: K, seenAt: nat, now: nat)
    requires Distinct(t) && Placed(t, key, now % WRAP32, r)
    requires Matches(s, key) && other != key
    requires Find(t, other) >= 0 && t[Find(t, other)].lastSeen == seenAt % WRAP32
    requires seenAt <= now < seenAt + STALE_MS
    ensures r != Find(t, other)
    ensures Find(t[r := s], other) == Find(t, other)
  {
    var o := Find(t, other);
    if r == o {
      ModularAge(seenAt, now);
      assert false;
    }
    var t' := t[r := s];
    assert Matches(t'[o], other);
    forall i | 0 <= i < o
      ensures !Matches(t'[i], other)
    {
      assert i != r ==> t'[i] == t[i];
    }
  }

  lemma ModularAge(seenAt: nat, now: nat)
    requires seenAt <= now
    ensures Age(now % WRAP32, seenAt % WRAP32) <= now - seenAt
    ensures now - seenAt < WRAP32 ==> Age(now % WRAP32, seenAt % WRAP32) == now - seenAt
  {
    var q := (now - seenAt) / WRAP32;
    assert ((now - seenAt) - (now % WRAP32 - seenAt % WRAP32)) % WRAP32 == 0;
  }

  /** Keys outside the written slot and different from its old and new key are looked up as before. */
  lemma PutIntoFree<K, V>(t: seq<Slot<K, V>>, key: K, r: int, s: Slot<K, V>, other: K)
    requires 0 <= r < |t| && Matches(s, key) && other != key
    requires t[r].used ==> t[r].key == key
    ensures Find(t[r := s], other) == Find(t, other)
  {
    var t' := t[r := s];
    forall i | 0 <= i < |t|
      ensures Matches(t'[i], other) == Matches(t[i], other)
    {
    }
  }

  /** A table whose slots are all in use for distinct keys of `ids` needs as many members in `ids`. */
  lemma {:induction false} Pigeonhole<K, V>(t: seq<Slot<K, V>>, ids: set<K>)
    requires Distinct(t) && AllUsed(t)
    requires forall i :: 0 <= i < |t| ==> t[i].key in ids
    ensures |t| <= |ids|
  {
    if t != [] {
      var last := t[|t| - 1];
      assert last.key in ids;
      var front := t[..|t| - 1];
      assert forall i :: 0 <= i < |front| ==> front[i] == t[i];
      Pigeonhole(front, ids - {last.key});
    }
  }

  /** While the keys ever used fit the table, a key that is not in it gets a free slot. */
  lemma RoomForNewKey<K, V>(t: seq<Slot<K, V>>, ids: set<K>, key: K, now: u32)
    requires Distinct(t) && |ids| <= |t|
    requires forall i :: 0 <= i < |t| && t[i].used ==> t[i].key in ids
    requires key in ids && Find(t, key) == -1
    ensures Acquire(t, now) >= 0 && !t[Acquire(t, now)].used
  {
    if AllUsed(t) {
      forall i | 0 <= i < |t|
        ensures t[i].key in ids - {key}
      {
        assert !Matches(t[i], key);
      }
      Pigeonhole(t, ids - {key});
      assert false;
    }
  }
}
