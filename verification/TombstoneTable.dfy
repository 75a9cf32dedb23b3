/** The state machine shared by the fixed-size table and the key-index table: an append-only
    store of keys with tombstones, and a disposable hash index that is rebuilt from the live
    entries. Everything here is over values; the tables' methods are proved to follow it. */
module TombstoneTable {
  import opened Bits
  import opened HashIndex
  import Fnv

  type Key = seq<Byte>

  const FULL: int := -8
  const ALLOC_FAILURE: int := -3
  const MAX_CAPACITY: nat := 0x8000_0000

  datatype Entry = Entry(key: Key, hash: nat, live: bool)

  /** Appended entries, index slots, and the 32-bit deletion counter. */
  datatype Core = Core(entries: seq<Entry>, slots: seq<int>, deleted: nat)

  function Hashes(entries: seq<Entry>): (h: seq<nat>)
    ensures |h| == |entries| && forall i :: 0 <= i < |h| ==> h[i] == entries[i].hash
  {
    seq(|entries|, i requires 0 <= i < |entries| => entries[i].hash)
  }

  /** What a probe of the index accepts: any appended entry, deleted or not, with this key. */
  function Hits(entries: seq<Entry>, hash: nat, key: Key): set<int> {
    set e | 0 <= e < |entries| && entries[e].hash == hash && entries[e].key == key
  }

  // ---- The transitions ----

  function Fresh(cap: nat): Core {
    Core([], EmptySlots(cap), 0)
  }

  /** The load test, in 32-bit arithmetic. */
  predicate IsFull(c: Core) {
    Wrap32(|c.entries| * 4) >= Wrap32(|c.slots| * 3)
  }

  predicate ShouldRebuild(c: Core) {
    Wrap32(c.deleted * 2) >= |c.entries|
  }

  /** The index after re-inserting the live ones among the first `n` entries. */
  function RebuiltSlots(entries: seq<Entry>, n: nat, cap: nat): (r: seq<int>)
    requires n <= |entries| && IsPowerOf2(cap)
    ensures |r| == cap
  {
    if n == 0 then EmptySlots(cap)
    else
      var before := RebuiltSlots(entries, n - 1, cap);
      if entries[n - 1].live then Put(before, entries[n - 1].hash, n - 1) else before
  }

  function Rebuild(c: Core): Core
    requires IsPowerOf2(|c.slots|)
  {
    c.(slots := RebuiltSlots(c.entries, |c.entries|, |c.slots|))
  }

  /** The internal lookup, which also finds tombstones that are still indexed. */
  function Locate(c: Core, key: Key): int
    requires IsPowerOf2(|c.slots|)
  {
    var hash := Fnv.Hash32(key);
    Find(c.slots, Home(hash, |c.slots|), 0, Hits(c.entries, hash, key))
  }

  /** The public lookup, which hides tombstones. */
  function Lookup(c: Core, key: Key): int
    requires Inv(c)
  {
    var i := Locate(c, key);
    LocateDecides(c, key);
    if i < 0 || !c.entries[i].live then NOT_FOUND else i
  }

  function Maintained(c: Core): (m: Core)
    requires IsPowerOf2(|c.slots|)
    ensures |m.slots| == |c.slots| && m.entries == c.entries && m.deleted == c.deleted
  {
    if ShouldRebuild(c) then Rebuild(c) else c
  }

  /** Append a new live entry and index it. */
  function Append(c: Core, key: Key): Core
    requires IsPowerOf2(|c.slots|)
  {
    var hash := Fnv.Hash32(key);
    c.(entries := c.entries + [Entry(key, hash, true)],
       slots := Put(c.slots, hash, |c.entries|))
  }

  /** Mark an entry live again, un-counting its tombstone if it had one. */
  function Revive(c: Core, i: nat): Core
    requires i < |c.entries|
  {
    c.(entries := c.entries[i := c.entries[i].(live := true)],
       deleted := if c.entries[i].live then c.deleted else Wrap32(c.deleted - 1))
  }

  /** Insertion of a key; `room` says whether storage for a new entry can be had. */
  function Insert(c: Core, key: Key, room: bool): (Core, int)
    requires Inv(c)
  {
    if IsFull(c) then (c, FULL)
    else
      var m := Maintained(c);
      var i := Locate(m, key);
      MaintainedInv(c);
      LocateDecides(m, key);
      if i >= 0 then (Revive(m, i), i)
      else if !room then (m, ALLOC_FAILURE)
      else (Append(m, key), |m.entries|)
  }

  function Remove(c: Core, key: Key): (Core, int)
    requires Inv(c)
  {
    var i := Locate(c, key);
    LocateDecides(c, key);
    if i < 0 then (c, NOT_FOUND)
    else (c.(entries := c.entries[i := c.entries[i].(live := false)], deleted := Wrap32(c.deleted + 1)), i)
  }

  // ---- The invariant ----

  /** How many entries a table can hold: three quarters of its capacity, rounded up, as long as
      three times the capacity fits 32 bits; a quarter at the one larger power of two. */
  function Limit(cap: nat): nat {
    if cap < MAX_CAPACITY then (3 * cap + 3) / 4 else cap / 4
  }

  ghost predicate DistinctIndexed(c: Core) {
    forall i, j :: i in c.slots && j in c.slots && 0 <= i < j < |c.entries| ==> c.entries[i].key != c.entries[j].key
  }

  ghost predicate Inv(c: Core) {
    && Chained(c.slots, Hashes(c.entries))
    && |c.slots| <= MAX_CAPACITY
    && |c.entries| <= Limit(|c.slots|)
    && (forall i :: 0 <= i < |c.entries| ==> c.entries[i].hash == Fnv.Hash32(c.entries[i].key))
    && (forall i :: 0 <= i < |c.entries| && c.entries[i].live ==> i in c.slots)
    && DistinctIndexed(c)
    && c.deleted < DWORD
  }

  ghost predicate Holds(c: Core, key: Key, i: int) {
    0 <= i < |c.entries| && i in c.slots && c.entries[i].key == key
  }

  ghost predicate LiveAt(c: Core, key: Key, i: int) {
    0 <= i < |c.entries| && c.entries[i].live && c.entries[i].key == key
  }

  /** The internal lookup is exact: it finds the indexed entry with the key, live or not. */
  lemma LocateDecides(c: Core, key: Key)
    requires Inv(c)
    ensures var i := Locate(c, key);
      if i == NOT_FOUND then forall j :: !Holds(c, key, j) else Holds(c, key, i)
    ensures forall i :: Holds(c, key, i) ==> Locate(c, key) == i
  {
    var hash := Fnv.Hash32(key);
    FindDecides(c.slots, Hashes(c.entries), hash, Hits(c.entries, hash, key));
    FindSound(c.slots, Home(hash, |c.slots|), 0, Hits(c.entries, hash, key));
  }

  /** The two ways an insertion into a table with room ends. */
  lemma InsertCases(c: Core, key: Key, room: bool)
    requires Inv(c) && !IsFull(c)
    ensures var m := Maintained(c);
      && Inv(m) && m.entries == c.entries && |m.slots| == |c.slots| && |m.entries| < |m.slots|
      && var i := Locate(m, key);
         if i >= 0 then
           Holds(m, key, i) && Inv(Revive(m, i)) && Insert(c, key, room) == (Revive(m, i), i)
         else
           && FirstFree(m.slots, Home(Fnv.Hash32(key), |m.slots|), 0) < |m.slots|
           && Inv(Append(m, key))
           && Insert(c, key, room) == if room then (Append(m, key), |m.entries|) else (m, ALLOC_FAILURE)
  {
    var m := Maintained(c);
    FullIff(c);
    MaintainedInv(c);
    LocateDecides(m, key);
    hide Inv, Locate, IsFull, Maintained, Put;
    var i := Locate(m, key);
    if i >= 0 {
      ReviveCorrect(m, m, key, i);
    } else {
      AppendInv(m, key);
    }
  }

  /** A full table is recognised by the 32-bit test and refuses the insertion. */
  lemma InsertFull(c: Core, key: Key, room: bool)
    requires Inv(c)
    ensures IsFull(c) <==> Wrap32(|c.entries| * 4) >= Wrap32(|c.slots| * 3)
    ensures IsFull(c) ==> Insert(c, key, room) == (c, -8)
  {
    hide Inv, Maintained, Locate;
  }

  /** A removal that finds the key marks its entry. */
  lemma RemoveCases(c: Core, key: Key)
    requires Inv(c)
    ensures var i := Locate(c, key);
      && (i < 0 ==> Remove(c, key) == (c, NOT_FOUND))
      && (i >= 0 ==>
            && i < |c.entries|
            && var d := c.(entries := c.entries[i := c.entries[i].(live := false)], deleted := Wrap32(c.deleted + 1));
               Remove(c, key) == (d, i) && Inv(d))
  {
    RemoveCorrect(c, key);
    LocateDecides(c, key);
    hide Inv, Locate, Holds;
  }

  /** The public lookup is exact: it returns the index of the live entry with the key. */
  lemma LookupDecides(c: Core, key: Key)
    requires Inv(c)
    ensures forall i :: LiveAt(c, key, i) <==> i >= 0 && Lookup(c, key) == i
    ensures Lookup(c, key) < 0 ==> Lookup(c, key) == -11
  {
    LocateDecides(c, key);
    forall i | LiveAt(c, key, i) ensures Holds(c, key, i) {}
  }

  lemma FreshInv(cap: nat)
    requires IsPowerOf2(cap) && cap <= MAX_CAPACITY
    ensures Inv(Fresh(cap))
  {
  }

  /** On every reachable table the load test is exact, and passing it leaves a slot to spare. */
  lemma FullIff(c: Core)
    requires Inv(c)
    ensures IsFull(c) <==> |c.entries| == Limit(|c.slots|)
    ensures !IsFull(c) ==> |c.entries| < |c.slots|
  {
    assert IsPowerOf2(|c.slots|) && 0 < |c.slots| <= MAX_CAPACITY && |c.entries| <= Limit(|c.slots|);
    hide Inv;
    if |c.slots| < MAX_CAPACITY {
      PowersBelow(|c.slots|);
    }
    hide IsPowerOf2;
    LoadTest(|c.entries|, |c.slots|);
  }

  lemma LoadTest(n: nat, cap: nat)
    requires 0 < cap <= 0x4000_0000 || cap == MAX_CAPACITY
    requires n <= Limit(cap)
    ensures Wrap32(n * 4) >= Wrap32(cap * 3) <==> n == Limit(cap)
    ensures n < Limit(cap) ==> n < cap
  {
  }

  lemma PowersBelow(cap: nat)
    requires IsPowerOf2(cap) && cap < MAX_CAPACITY
    ensures cap <= 0x4000_0000
  {
    PowerOf2Iff(cap);
    var k: nat :| cap == Pow2(k);
    Pow2Of32();
    if k >= 31 { Pow2Monotone(31, k); }
    Pow2Monotone(k, 30);
    assert Pow2(31) == 2 * Pow2(30);
  }

  /** Exactly the live ones among the first `n` entries are indexed. */
  ghost predicate IndexesLive(slots: seq<int>, entries: seq<Entry>, n: nat)
    requires n <= |entries|
  {
    forall i :: i != EMPTY ==> (i in slots <==> 0 <= i < n && entries[i].live)
  }

  lemma RebuiltUnfolds(entries: seq<Entry>, n: nat, cap: nat)
    requires n <= |entries| && IsPowerOf2(cap)
    ensures RebuiltSlots(entries, n, cap) ==
      if n == 0 then EmptySlots(cap)
      else if entries[n - 1].live then Put(RebuiltSlots(entries, n - 1, cap), entries[n - 1].hash, n - 1)
      else RebuiltSlots(entries, n - 1, cap)
  {
  }

  lemma EmptyIndexesNone(entries: seq<Entry>, cap: nat)
    requires IsPowerOf2(cap)
    ensures Chained(EmptySlots(cap), Hashes(entries)[..0]) && IndexesLive(EmptySlots(cap), entries, 0)
  {
  }

  /** Rebuilding never runs out of slots, keeps the index invariant, and indexes exactly the
      live entries. */
  lemma {:induction false} RebuiltIsLive(entries: seq<Entry>, n: nat, cap: nat)
    requires n <= |entries| && IsPowerOf2(cap) && n <= cap
    ensures Chained(RebuiltSlots(entries, n, cap), Hashes(entries)[..n])
    ensures IndexesLive(RebuiltSlots(entries, n, cap), entries, n)
  {
    RebuiltUnfolds(entries, n, cap);
    hide Chained, IndexesLive, Put, Hashes, EmptySlots, IsPowerOf2, RebuiltSlots;
    if n == 0 {
      EmptyIndexesNone(entries, cap);
    } else {
      RebuiltIsLive(entries, n - 1, cap);
      RebuildStep(RebuiltSlots(entries, n - 1, cap), entries, n - 1);
    }
  }

  lemma RebuildStep(before: seq<int>, entries: seq<Entry>, n: nat)
    requires n < |entries| && n < |before|
    requires Chained(before, Hashes(entries)[..n]) && IndexesLive(before, entries, n)
    ensures Chained(before, Hashes(entries)[..n + 1])
    ensures !entries[n].live ==> IndexesLive(before, entries, n + 1)
    ensures entries[n].live ==> Chained(Put(before, entries[n].hash, n), Hashes(entries)[..n + 1])
    ensures entries[n].live ==> IndexesLive(Put(before, entries[n].hash, n), entries, n + 1)
  {
    var hashes := Hashes(entries);
    assert hashes[..n + 1] == hashes[..n] + [hashes[n]];
    FreeSlotExists(before, hashes[..n], hashes[n]);
    ChainedExtends(before, hashes[..n], [hashes[n]]);
    PutChained(before, hashes[..n + 1], hashes[n], n);
  }

  /** One step of the rebuild loop: the next live entry always finds a slot. */
  lemma RebuiltNext(c: Core, i: nat)
    requires Inv(c) && i < |c.entries|
    ensures var before := RebuiltSlots(c.entries, i, |c.slots|);
      && |before| == |c.slots|
      && FirstFree(before, Home(c.entries[i].hash, |before|), 0) < |before|
      && RebuiltSlots(c.entries, i + 1, |c.slots|) ==
           if c.entries[i].live then Put(before, c.entries[i].hash, i) else before
  {
    RebuiltIsLive(c.entries, i, |c.slots|);
    FreeSlotExists(RebuiltSlots(c.entries, i, |c.slots|), Hashes(c.entries)[..i], c.entries[i].hash);
  }

  lemma RebuildInv(c: Core)
    requires Inv(c)
    ensures Inv(Rebuild(c))
    ensures IndexesLive(Rebuild(c).slots, c.entries, |c.entries|)
  {
    RebuiltIsLive(c.entries, |c.entries|, |c.slots|);
    assert Hashes(c.entries)[..|c.entries|] == Hashes(c.entries);
  }

  /** A rebuild keeps the invariant and every public lookup, and drops exactly the tombstones. */
  lemma RebuildCorrect(c: Core)
    requires Inv(c)
    ensures Inv(Rebuild(c))
    ensures IndexesLive(Rebuild(c).slots, c.entries, |c.entries|)
    ensures forall key :: Lookup(Rebuild(c), key) == Lookup(c, key)
  {
    RebuildInv(c);
    forall key ensures Lookup(Rebuild(c), key) == Lookup(c, key) {
      SameStoreSameLookup(c, Rebuild(c), key);
    }
  }

  /** The index is disposable: lookups depend on the store alone. */
  lemma SameStoreSameLookup(c: Core, d: Core, key: Key)
    requires Inv(c) && Inv(d) && c.entries == d.entries
    ensures Lookup(c, key) == Lookup(d, key)
  {
    LookupDecides(c, key);
    LookupDecides(d, key);
    assert LiveAt(c, key, Lookup(c, key)) ==> LiveAt(d, key, Lookup(c, key));
    assert LiveAt(d, key, Lookup(d, key)) ==> LiveAt(c, key, Lookup(d, key));
  }

  lemma MaintainedInv(c: Core)
    requires Inv(c)
    ensures Inv(Maintained(c)) && Maintained(c).entries == c.entries && Maintained(c).deleted == c.deleted
    ensures |Maintained(c).slots| == |c.slots| && (IsFull(Maintained(c)) <==> IsFull(c))
  {
    RebuildInv(c);
  }

  // ---- What one operation does ----

  lemma AppendInv(c: Core, key: Key)
    requires Inv(c) && !IsFull(c) && Locate(c, key) == NOT_FOUND
    ensures Inv(Append(c, key))
    ensures FirstFree(c.slots, Home(Fnv.Hash32(key), |c.slots|), 0) < |c.slots|
  {
    var hash := Fnv.Hash32(key);
    var a := Append(c, key);
    FullIff(c);
    assert Hashes(a.entries) == Hashes(c.entries) + [hash];
    AppendChained(c.slots, Hashes(c.entries), hash);
    AppendDistinct(c, key);
  }

  lemma AppendDistinct(c: Core, key: Key)
    requires Inv(c) && Locate(c, key) == NOT_FOUND && |c.entries| < |c.slots|
    ensures DistinctIndexed(Append(c, key))
  {
    LocateDecides(c, key);
    AppendChained(c.slots, Hashes(c.entries), Fnv.Hash32(key));
    hide Locate, Chained;
    var a := Append(c, key);
    forall i, j | i in a.slots && j in a.slots && 0 <= i < j < |a.entries|
      ensures a.entries[i].key != a.entries[j].key
    {
      assert !Holds(c, key, i);
    }
  }

  /** Changing liveness of an indexed entry keeps the invariant. */
  lemma FlipInv(c: Core, i: nat, live: bool, deleted: nat)
    requires Inv(c) && i < |c.entries| && i in c.slots && deleted < DWORD
    ensures Inv(c.(entries := c.entries[i := c.entries[i].(live := live)], deleted := deleted))
  {
    var d := c.(entries := c.entries[i := c.entries[i].(live := live)], deleted := deleted);
    assert Hashes(d.entries) == Hashes(c.entries);
  }

  ghost predicate TombstoneIndexed(c: Core, key: Key) {
    exists i :: Holds(c, key, i) && !c.entries[i].live
  }

  /** The liveness of every key but `key` is as before. */
  ghost predicate OthersKept(c: Core, d: Core, key: Key) {
    forall k, i :: k != key ==> (LiveAt(c, k, i) <==> LiveAt(d, k, i))
  }

  lemma FlipKeepsOthers(c: Core, i: nat, live: bool, deleted: nat)
    requires i < |c.entries|
    ensures OthersKept(c, c.(entries := c.entries[i := c.entries[i].(live := live)], deleted := deleted), c.entries[i].key)
  {
  }

  lemma AppendKeepsOthers(c: Core, key: Key)
    requires IsPowerOf2(|c.slots|)
    ensures OthersKept(c, Append(c, key), key) && LiveAt(Append(c, key), key, |c.entries|)
  {
  }

  lemma LiveIsHeld(c: Core, key: Key, i: int)
    requires Inv(c) && LiveAt(c, key, i)
    ensures Holds(c, key, i) && Locate(c, key) == i
  {
    assert Holds(c, key, i);
    hide Locate;
    LocateDecides(c, key);
  }

  /** A table that is not full accepts every insertion it has room for: the key is then live
      at the returned index, which is the old one if the key was live; a refused insertion
      changes no key. */
  lemma InsertCorrect(c: Core, key: Key, room: bool)
    requires Inv(c)
    ensures var (d, r) := Insert(c, key, room);
      && Inv(d) && |d.slots| == |c.slots| && OthersKept(c, d, key)
      && (IsFull(c) <==> r == -8) && (r == -8 ==> d == c)
      && (r >= 0 ==> LiveAt(d, key, r) && |c.entries| <= |d.entries|)
      && (r >= 0 ==> forall i :: LiveAt(c, key, i) ==> i == r)
      && (r < 0 ==> r == -8 || (r == -3 && !room && d.entries == c.entries && Lookup(c, key) == -11))
  {
    assert IsPowerOf2(|c.slots|);
    hide Inv, Locate, IsFull, Maintained, Append, OthersKept, LiveAt;
    var (d, r) := Insert(c, key, room);
    SameKept(c, c, key);
    if !IsFull(c) {
      var m := Maintained(c);
      MaintainedInv(c);
      SameKept(c, m, key);
      LocateDecides(m, key);
      forall i | LiveAt(c, key, i) ensures Locate(m, key) == i {
        LiveIsHeld(m, key, i);
      }
      LookupDecides(c, key);
      assert Lookup(c, key) >= 0 ==> LiveAt(c, key, Lookup(c, key));
      if Locate(m, key) >= 0 {
        ReviveCorrect(c, m, key, r);
      } else if room {
        AppendCorrect(c, m, key);
      }
    }
  }

  lemma SameKept(c: Core, m: Core, key: Key)
    requires m.entries == c.entries
    ensures OthersKept(c, m, key) && forall i :: LiveAt(c, key, i) == LiveAt(m, key, i)
  {
  }

  lemma ReviveCorrect(c: Core, m: Core, key: Key, i: nat)
    requires Inv(m) && m.entries == c.entries && Holds(m, key, i)
    ensures Inv(Revive(m, i)) && OthersKept(c, Revive(m, i), key) && LiveAt(Revive(m, i), key, i)
    ensures |Revive(m, i).slots| == |m.slots| && |Revive(m, i).entries| == |m.entries|
  {
    assert m.deleted < DWORD;
    hide Inv, Locate;
    var d := Revive(m, i);
    FlipInv(m, i, true, d.deleted);
    FlipKeepsOthers(m, i, true, d.deleted);
  }

  lemma AppendCorrect(c: Core, m: Core, key: Key)
    requires Inv(m) && m.entries == c.entries && !IsFull(m) && Locate(m, key) == NOT_FOUND
    ensures Inv(Append(m, key)) && OthersKept(c, Append(m, key), key) && LiveAt(Append(m, key), key, |m.entries|)
    ensures |Append(m, key).slots| == |m.slots| && |Append(m, key).entries| == |m.entries| + 1
  {
    assert IsPowerOf2(|m.slots|);
    hide Inv, Locate, IsFull;
    AppendInv(m, key);
    AppendKeepsOthers(m, key);
  }

  /** When a dead entry is reused: inserting a key that is not live returns an old index exactly
      when the table is below its limit, twice the deletion counter, in 32 bits, is below the number
      of entries, and the key's tombstone is still indexed. In every other accepted case a new
      entry is appended. */
  lemma DeadEntryReusedIff(c: Core, key: Key, room: bool)
    requires Inv(c) && forall i :: !LiveAt(c, key, i)
    ensures 0 <= Insert(c, key, room).1 < |c.entries| <==>
      |c.entries| < Limit(|c.slots|) && c.deleted * 2 % DWORD < |c.entries| && TombstoneIndexed(c, key)
  {
    FullIff(c);
    assert |c.entries| <= Limit(|c.slots|);
    if !IsFull(c) {
      var m := Maintained(c);
      InsertCases(c, key, room);
      LocateDecides(m, key);
      if ShouldRebuild(c) {
        RebuildInv(c);
        forall i ensures !Holds(m, key, i) {
          assert Holds(m, key, i) ==> LiveAt(c, key, i);
        }
      } else {
        forall i | Holds(m, key, i) ensures TombstoneIndexed(c, key) {
          assert !LiveAt(c, key, i);
        }
      }
      hide Inv, Locate, IsFull, Maintained, Insert, FirstFree, Limit;
    }
  }

  /** What an accepted insertion does to the index: other keys' tombstones leave it exactly when
      twice the deletion counter, in 32 bits, has reached the number of entries. */
  lemma InsertIndexes(c: Core, key: Key, room: bool, k: Key, i: int)
    requires Inv(c) && |c.entries| < Limit(|c.slots|) && k != key
    ensures Holds(Insert(c, key, room).0, k, i) <==>
      Holds(c, k, i) && (c.deleted * 2 % DWORD < |c.entries| || LiveAt(c, k, i))
  {
    FullIff(c);
    MaintainedHolds(c, k, i);
    InsertCases(c, key, room);
    hide Inv, Locate, IsFull, Maintained, Limit, Insert, Put, FirstFree;
    var m := Maintained(c);
    if Locate(m, key) < 0 && room {
      AppendHolds(m, key, k, i);
    }
  }

  lemma MaintainedHolds(c: Core, k: Key, i: int)
    requires Inv(c)
    ensures Holds(Maintained(c), k, i) <==> Holds(c, k, i) && (c.deleted * 2 % DWORD < |c.entries| || LiveAt(c, k, i))
  {
    RebuildInv(c);
  }

  lemma AppendHolds(m: Core, key: Key, k: Key, i: int)
    requires Inv(m) && |m.entries| < |m.slots| && k != key
    ensures Holds(Append(m, key), k, i) <==> Holds(m, k, i)
  {
    AppendChained(m.slots, Hashes(m.entries), Fnv.Hash32(key));
    hide Chained, Put;
  }

  /** A removal leaves the index as it is. */
  lemma RemoveIndexes(c: Core, key: Key, k: Key, i: int)
    requires Inv(c)
    ensures Remove(c, key).0.slots == c.slots && (Holds(Remove(c, key).0, k, i) <==> Holds(c, k, i))
  {
    RemoveCases(c, key);
    hide Inv, Locate, Remove;
  }

  /** Removal leaves the key dead and the others alone. It reports success for every live key,
      and also for a tombstone that is still indexed. */
  lemma RemoveCorrect(c: Core, key: Key)
    requires Inv(c)
    ensures var (d, r) := Remove(c, key);
      && Inv(d) && |d.slots| == |c.slots| && OthersKept(c, d, key) && (forall i :: !LiveAt(d, key, i))
      && (forall i :: LiveAt(c, key, i) ==> r == i)
      && (forall i :: Holds(c, key, i) ==> r == i)
      && (r >= 0 <==> exists i :: Holds(c, key, i))
      && (r < 0 ==> d == c && r == -11)
  {
    var (d, r) := Remove(c, key);
    LocateDecides(c, key);
    forall i | LiveAt(c, key, i) ensures r == i {
      LiveIsHeld(c, key, i);
    }
    if r >= 0 {
      FlipInv(c, r, false, d.deleted);
      FlipKeepsOthers(c, r, false, d.deleted);
    }
  }

  /** The store only grows, by one entry at a time, at the end. */
  lemma InsertGrows(c: Core, key: Key, room: bool)
    requires Inv(c)
    ensures var (d, r) := Insert(c, key, room);
      |d.entries| == (if r == |c.entries| then |c.entries| + 1 else |c.entries|) && r <= |c.entries|
  {
    MaintainedInv(c);
    LocateDecides(Maintained(c), key);
    hide Inv, Locate, IsFull;
  }

  lemma RemoveKeepsSize(c: Core, key: Key)
    requires Inv(c)
    ensures |Remove(c, key).0.entries| == |c.entries|
  {
    LocateDecides(c, key);
    hide Inv, Locate;
  }

  lemma LiveUnique(c: Core, key: Key, i: int, j: int)
    requires Inv(c) && LiveAt(c, key, i) && LiveAt(c, key, j)
    ensures i == j
  {
  }

  // ---- Whole runs ----

  datatype Op = InsertOp(key: Key, room: bool) | RemoveOp(key: Key)

  function Step(c: Core, op: Op): (Core, int)
    requires Inv(c)
  {
    match op
    case InsertOp(key, room) => Insert(c, key, room)
    case RemoveOp(key) => Remove(c, key)
  }

  lemma StepInv(c: Core, op: Op)
    requires Inv(c)
    ensures Inv(Step(c, op).0) && |Step(c, op).0.slots| == |c.slots|
  {
    match op
    case InsertOp(key, room) => InsertCorrect(c, key, room);
    case RemoveOp(key) => RemoveCorrect(c, key);
  }

  function Run(c: Core, ops: seq<Op>): (d: Core)
    requires Inv(c)
    ensures Inv(d)
    decreases |ops|
  {
    hide *;
    if ops == [] then c
    else
      StepInv(c, ops[0]);
      Run(Step(c, ops[0]).0, ops[1..])
  }

  lemma StepKeepsKeys(c: Core, op: Op, i: nat)
    requires Inv(c) && i < |c.entries|
    ensures i < |Step(c, op).0.entries| && Step(c, op).0.entries[i].key == c.entries[i].key
  {
    MaintainedInv(c);
    LocateDecides(Maintained(c), op.key);
    LocateDecides(c, op.key);
    hide Inv, Locate, IsFull, Maintained;
  }

  /** An appended entry keeps its key for ever. */
  lemma {:induction false} KeysNeverChange(c: Core, ops: seq<Op>, i: nat)
    requires Inv(c) && i < |c.entries|
    ensures i < |Run(c, ops).entries| && Run(c, ops).entries[i].key == c.entries[i].key
    decreases |ops|
  {
    hide Step, Inv;
    if ops != [] {
      StepInv(c, ops[0]);
      StepKeepsKeys(c, ops[0], i);
      KeysNeverChange(Step(c, ops[0]).0, ops[1..], i);
    }
  }

  lemma StepKeepsLive(c: Core, key: Key, i: nat, op: Op)
    requires Inv(c) && LiveAt(c, key, i) && op != RemoveOp(key)
    ensures Inv(Step(c, op).0) && LiveAt(Step(c, op).0, key, i)
  {
    hide Insert, Remove, Inv, Lookup;
    match op {
      case InsertOp(k, room) =>
        InsertCorrect(c, k, room);
        LookupDecides(c, key);
      case RemoveOp(k) =>
        RemoveCorrect(c, k);
        assert k != key;
    }
  }

  lemma {:induction false} StaysLive(c: Core, key: Key, i: nat, ops: seq<Op>)
    requires Inv(c) && LiveAt(c, key, i) && RemoveOp(key) !in ops
    ensures LiveAt(Run(c, ops), key, i)
    decreases |ops|
  {
    hide Step, Inv, LiveAt;
    if ops != [] {
      assert ops[0] != RemoveOp(key);
      StepKeepsLive(c, key, i, ops[0]);
      StaysLive(Step(c, ops[0]).0, key, i, ops[1..]);
    }
  }

  /** An index handed out for a key stays that key's index through any run, rebuilds included,
      that does not remove the key: looking the key up, or inserting it again, returns it. */
  lemma IndexIsStable(c: Core, key: Key, i: nat, ops: seq<Op>, room: bool)
    requires Inv(c) && LiveAt(c, key, i) && RemoveOp(key) !in ops
    ensures Lookup(Run(c, ops), key) == i
    ensures Insert(Run(c, ops), key, room).1 == if IsFull(Run(c, ops)) then -8 else i
  {
    hide Insert, Remove, Inv, Run, Lookup, IsFull;
    StaysLive(c, key, i, ops);
    LookupDecides(Run(c, ops), key);
    InsertCorrect(Run(c, ops), key, room);
  }

  /** Distinct live keys have distinct indices, and a key has at most one. */
  lemma IndicesAreInjective(c: Core, k: Key, k': Key)
    requires Inv(c) && Lookup(c, k) >= 0
    ensures Lookup(c, k) == Lookup(c, k') <==> k == k'
  {
    hide Lookup, Inv;
    LookupDecides(c, k);
    LookupDecides(c, k');
    assert LiveAt(c, k, Lookup(c, k));
    if Lookup(c, k) == Lookup(c, k') {
      assert LiveAt(c, k', Lookup(c, k'));
    }
  }

  lemma FullStays(c: Core, op: Op)
    requires Inv(c) && IsFull(c)
    ensures Inv(Step(c, op).0) && IsFull(Step(c, op).0)
  {
    LocateDecides(c, op.key);
    hide Inv, Locate;
    StepInv(c, op);
  }

  /** Nothing frees capacity: once a table is full it refuses insertions for ever. */
  lemma {:induction false} FullForever(c: Core, ops: seq<Op>)
    requires Inv(c) && IsFull(c)
    ensures IsFull(Run(c, ops))
    decreases |ops|
  {
    hide Step, Inv, IsFull;
    if ops != [] {
      FullStays(c, ops[0]);
      FullForever(Step(c, ops[0]).0, ops[1..]);
    }
  }

  /** Insert a key, remove it, insert it again: in a fresh table the second insertion does not find
      the tombstone and appends, so entry 0 stays dead while its key is live at index 1. */
  lemma ReinsertedAnew(cap: nat, key: Key)
    requires IsPowerOf2(cap) && 2 <= cap <= MAX_CAPACITY
    ensures Inv(Fresh(cap))
    ensures var d := Run(Fresh(cap), [InsertOp(key, true), RemoveOp(key), InsertOp(key, true)]);
      |d.entries| == 2 && d.entries[0].key == key && !d.entries[0].live && Lookup(d, key) == 1
  {
    hide Inv, Insert, Remove, Lookup, Run, IsPowerOf2, LiveAt, Fresh;
    FreshInv(cap);
    var c := Fresh(cap);
    var ops := [InsertOp(key, true), RemoveOp(key), InsertOp(key, true)];
    FirstInsertion(cap, key);
    var c1 := Insert(c, key, true).0;
    InsertAfterRemoval(c1, key);
    var c2 := Remove(c1, key).0;
    assert ops[1..][1..] == [InsertOp(key, true)] && [InsertOp(key, true)][1..] == [];
    RunUnfolds(c, ops);
    RunUnfolds(c1, ops[1..]);
    RunUnfolds(c2, [InsertOp(key, true)]);
    RunUnfolds(Insert(c2, key, true).0, []);
  }

  lemma RunUnfolds(c: Core, ops: seq<Op>)
    requires Inv(c)
    ensures ops == [] ==> Run(c, ops) == c
    ensures ops != [] ==> Inv(Step(c, ops[0]).0) && Run(c, ops) == Run(Step(c, ops[0]).0, ops[1..])
  {
    hide Inv, Step;
    if ops != [] { StepInv(c, ops[0]); }
  }

  lemma FirstInsertion(cap: nat, key: Key)
    requires IsPowerOf2(cap) && 2 <= cap <= MAX_CAPACITY && Inv(Fresh(cap))
    ensures var d := Insert(Fresh(cap), key, true).0;
      Inv(d) && |d.slots| == cap && |d.entries| == 1 && LiveAt(d, key, 0) && d.deleted == 0
  {
    var c := Fresh(cap);
    FullIff(c);
    InsertCases(c, key, true);
    hide Inv, Locate, IsFull, Put, IsPowerOf2, FirstFree;
  }

  lemma InsertAfterRemoval(c: Core, key: Key)
    requires Inv(c) && |c.slots| >= 2 && |c.entries| == 1 && LiveAt(c, key, 0) && c.deleted == 0
    ensures Inv(Remove(c, key).0)
    ensures var d := Insert(Remove(c, key).0, key, true).0;
      |d.entries| == 2 && d.entries[0].key == key && !d.entries[0].live && Inv(d) && Lookup(d, key) == 1
  {
    hide Inv, Insert, Lookup, Remove, IsFull, Limit;
    OneRemoved(c, key);
    var e := Remove(c, key).0;
    DeadEntryReusedIff(e, key, true);
    InsertCorrect(e, key, true);
    InsertGrows(e, key, true);
    FullIff(e);
    var d := Insert(e, key, true).0;
    LookupDecides(d, key);
    StepKeepsKeys(e, InsertOp(key, true), 0);
    LiveUnique(d, key, 1, if d.entries[0].live then 0 else 1);
  }

  lemma OneRemoved(c: Core, key: Key)
    requires Inv(c) && |c.slots| >= 2 && |c.entries| == 1 && LiveAt(c, key, 0) && c.deleted == 0
    ensures var e := Remove(c, key).0;
      && Inv(e) && |e.entries| == 1 && e.entries[0].key == key && e.deleted == 1
      && |e.entries| < Limit(|e.slots|) && forall i :: !LiveAt(e, key, i)
  {
    RemoveCorrect(c, key);
    RemoveKeepsSize(c, key);
    RemoveCases(c, key);
    LimitAboveOne(|c.slots|);
    hide Inv, Locate, Remove, Limit;
  }

  lemma LimitAboveOne(cap: nat)
    requires cap >= 2
    ensures 1 < Limit(cap)
  {
  }

  // ---- The deletion counter ----

  function DeadCount(entries: seq<Entry>): nat {
    if entries == [] then 0
    else DeadCount(entries[..|entries| - 1]) + (if entries[|entries| - 1].live then 0 else 1)
  }

  lemma {:induction false} DeadCountUpdate(entries: seq<Entry>, i: nat, live: bool)
    requires i < |entries|
    ensures DeadCount(entries[i := entries[i].(live := live)])
         == DeadCount(entries) + (if entries[i].live then 1 else 0) - (if live then 1 else 0)
  {
    var last := |entries| - 1;
    var after := entries[i := entries[i].(live := live)];
    if i < last {
      assert after[..last] == entries[..last][i := entries[i].(live := live)];
      DeadCountUpdate(entries[..last], i, live);
    } else {
      assert after[..last] == entries[..last];
    }
  }

  /** What an operation adds to the count: successful removals minus revivals. */
  function Net(c: Core, op: Op): int
    requires Inv(c)
  {
    MaintainedInv(c);
    match op
    case RemoveOp(key) => if Remove(c, key).1 >= 0 then 1 else 0
    case InsertOp(key, _) =>
      LocateDecides(Maintained(c), key);
      var i := Locate(Maintained(c), key);
      if !IsFull(c) && i >= 0 && !c.entries[i].live then -1 else 0
  }

  function NetOf(c: Core, ops: seq<Op>): int
    requires Inv(c)
    decreases |ops|
  {
    hide *;
    if ops == [] then 0
    else
      StepInv(c, ops[0]);
      Net(c, ops[0]) + NetOf(Step(c, ops[0]).0, ops[1..])
  }

  lemma StepCounts(c: Core, op: Op)
    requires Inv(c)
    ensures var d := Step(c, op).0;
      && DeadCount(d.entries) <= DeadCount(c.entries) + Net(c, op)
      && d.deleted == Wrap32(c.deleted + Net(c, op))
  {
    match op {
      case RemoveOp(key) =>
        RemoveCounts(c, key);
      case InsertOp(key, room) =>
        InsertCounts(c, key, room);
    }
  }

  lemma InsertCounts(c: Core, key: Key, room: bool)
    requires Inv(c)
    ensures var d := Insert(c, key, room).0;
      && DeadCount(d.entries) <= DeadCount(c.entries) + Net(c, InsertOp(key, room))
      && d.deleted == Wrap32(c.deleted + Net(c, InsertOp(key, room)))
  {
    hide Inv, Insert, Net, DeadCount, Wrap32;
    var shape := InsertShape(c, key, room);
    match shape
    case Same =>
    case Revived(i) => DeadCountUpdate(c.entries, i, true);
    case Appended(e) => DeadCountAppend(c.entries, e);
  }

  lemma RemoveCounts(c: Core, key: Key)
    requires Inv(c)
    ensures var d := Remove(c, key).0;
      && DeadCount(d.entries) <= DeadCount(c.entries) + Net(c, RemoveOp(key))
      && d.deleted == Wrap32(c.deleted + Net(c, RemoveOp(key)))
  {
    CounterFits(c);
    RemoveCases(c, key);
    hide Inv, Locate, Remove, DeadCount;
    var i := Locate(c, key);
    if i >= 0 { DeadCountUpdate(c.entries, i, false); }
  }

  lemma CounterFits(c: Core)
    requires Inv(c)
    ensures IsPowerOf2(|c.slots|) && c.deleted < DWORD && Wrap32(c.deleted) == c.deleted
  {
  }

  datatype Shape = Same | Revived(i: nat) | Appended(e: Entry)

  /** What an insertion does to the store and what it counts. */
  lemma InsertShape(c: Core, key: Key, room: bool) returns (shape: Shape)
    requires Inv(c)
    ensures var (d, net) := (Insert(c, key, room).0, Net(c, InsertOp(key, room)));
      && d.deleted == Wrap32(c.deleted + net)
      && match shape
         case Same => d.entries == c.entries && net == 0
         case Revived(i) =>
           && i < |c.entries| && d.entries == c.entries[i := c.entries[i].(live := true)]
           && net == if c.entries[i].live then 0 else -1
         case Appended(e) => e.live && d.entries == c.entries + [e] && net == 0
  {
    CounterFits(c);
    if IsFull(c) { return Same; }
    InsertCases(c, key, room);
    hide Insert, Inv, Locate, Maintained, IsFull, Put, FirstFree, Wrap32, IsPowerOf2;
    var i := Locate(Maintained(c), key);
    if i >= 0 { return Revived(i); }
    return if room then Appended(Entry(key, Fnv.Hash32(key), true)) else Same;
  }

  lemma DeadCountAppend(entries: seq<Entry>, e: Entry)
    ensures DeadCount(entries + [e]) == DeadCount(entries) + (if e.live then 0 else 1)
  {
  }

  lemma ModAdd(a: int, b: int, net: int)
    requires a == Wrap32(net)
    ensures Wrap32(a + b) == Wrap32(net + b)
  {
  }

  /** In every run the net number of removals bounds the tombstones, and the 32-bit counter is
      that number modulo 2^32. */
  lemma {:induction false} CounterBoundsTombstones(c: Core, net: nat, ops: seq<Op>)
    requires Inv(c) && DeadCount(c.entries) <= net && c.deleted == Wrap32(net)
    ensures var d := Run(c, ops);
      var total := net + NetOf(c, ops);
      && DeadCount(d.entries) <= total
      && d.deleted == Wrap32(total)
      && (d.deleted >= total <==> total < DWORD)
    decreases |ops|
  {
    hide Step, Inv, Net;
    if ops != [] {
      var op := ops[0];
      StepInv(c, op);
      StepCounts(c, op);
      ModAdd(c.deleted, Net(c, op), net);
      CounterBoundsTombstones(Step(c, op).0, net + Net(c, op), ops[1..]);
    }
  }

  ghost predicate Bounds(c: Core) {
    DeadCount(c.entries) <= c.deleted
  }

  /** The counter bounds the tombstones in every state a run passes through. */
  ghost predicate BoundsThroughout(c: Core, ops: seq<Op>)
    requires Inv(c)
  {
    forall k :: 0 <= k <= |ops| ==> Bounds(Run(c, ops[..k]))
  }

  /** The net number of removals stays below 2^32 all through a run. */
  ghost predicate NeverWraps(c: Core, net: nat, ops: seq<Op>)
    requires Inv(c)
  {
    forall k :: 0 <= k <= |ops| ==> net + NetOf(c, ops[..k]) < DWORD
  }

  lemma {:induction false} RunNext(c: Core, ops: seq<Op>, k: nat)
    requires Inv(c) && k < |ops|
    ensures Run(c, ops[..k + 1]) == Step(Run(c, ops[..k]), ops[k]).0
    ensures NetOf(c, ops[..k + 1]) == NetOf(c, ops[..k]) + Net(Run(c, ops[..k]), ops[k])
    decreases |ops|
  {
    hide Step, Inv, Net;
    StepInv(c, ops[0]);
    if k > 0 {
      assert ops[..k + 1][1..] == ops[1..][..k] && ops[..k][1..] == ops[1..][..k - 1];
      RunNext(Step(c, ops[0]).0, ops[1..], k - 1);
    } else {
      assert ops[..1][1..] == [];
    }
  }

  /** The step that brings the net number of removals to 2^32 is a successful removal: it leaves
      the counter at zero beside the tombstone it made. */
  lemma WrappingStep(c: Core, op: Op)
    requires Inv(c) && c.deleted + Net(c, op) >= DWORD
    ensures !Bounds(Step(c, op).0)
  {
    hide Inv, DeadCount, Net, Remove;
    StepCounts(c, op);
    NetUnfolds(c, op);
    RemoveCases(c, op.key);
    DeadIsCounted(Step(c, op).0.entries, Locate(c, op.key));
  }

  lemma NetUnfolds(c: Core, op: Op)
    requires Inv(c)
    ensures IsPowerOf2(|c.slots|) && c.deleted < DWORD
    ensures Net(c, op) <= 1 && (Net(c, op) == 1 <==> op.RemoveOp? && Remove(c, op.key).1 >= 0)
  {
    hide Locate, Remove;
  }

  lemma {:induction false} DeadIsCounted(entries: seq<Entry>, i: nat)
    requires i < |entries| && !entries[i].live
    ensures DeadCount(entries) > 0
  {
    if i < |entries| - 1 { DeadIsCounted(entries[..|entries| - 1], i); }
  }

  /** The first state of a run whose net number of removals is 2^32 breaks the bound. */
  lemma {:induction false} WrapBreaksBound(c: Core, net: nat, ops: seq<Op>, k: nat)
    requires Inv(c) && DeadCount(c.entries) <= net < DWORD && c.deleted == net
    requires k <= |ops| && net + NetOf(c, ops[..k]) >= DWORD
    ensures !BoundsThroughout(c, ops)
  {
    hide Inv, Net, Step, Bounds, DeadCount;
    if k > 0 {
      if net + NetOf(c, ops[..k - 1]) >= DWORD {
        WrapBreaksBound(c, net, ops, k - 1);
      } else {
        CounterBoundsTombstones(c, net, ops[..k - 1]);
        RunNext(c, ops, k - 1);
        WrappingStep(Run(c, ops[..k - 1]), ops[k - 1]);
        assert !Bounds(Run(c, ops[..k]));
      }
    }
  }

  /** The counter is at least the number of tombstones throughout a run exactly when the net number
      of removals never reaches 2^32 in it. */
  lemma BoundHoldsIff(c: Core, net: nat, ops: seq<Op>)
    requires Inv(c) && DeadCount(c.entries) <= net < DWORD && c.deleted == net
    ensures BoundsThroughout(c, ops) <==> NeverWraps(c, net, ops)
  {
    hide Inv, DeadCount, Run, NetOf;
    forall k | 0 <= k <= |ops| && net + NetOf(c, ops[..k]) < DWORD ensures Bounds(Run(c, ops[..k])) {
      CounterBoundsTombstones(c, net, ops[..k]);
    }
    if !NeverWraps(c, net, ops) {
      var k :| 0 <= k <= |ops| && net + NetOf(c, ops[..k]) >= DWORD;
      WrapBreaksBound(c, net, ops, k);
    }
  }

  /** Removing an indexed tombstone only bumps the counter. */
  lemma RemoveTombstone(c: Core, key: Key)
    requires Inv(c) && TombstoneIndexed(c, key)
    ensures Remove(c, key).0 == c.(deleted := Wrap32(c.deleted + 1)) && Remove(c, key).1 >= 0
    ensures Inv(Remove(c, key).0) && TombstoneIndexed(Remove(c, key).0, key)
  {
    var i :| Holds(c, key, i) && !c.entries[i].live;
    LocateDecides(c, key);
    hide Locate, Inv;
    RemoveCorrect(c, key);
    assert c.entries[i := c.entries[i].(live := false)] == c.entries;
    assert Holds(Remove(c, key).0, key, i);
  }

  lemma {:induction false} RemoveTombstoneAgain(c: Core, key: Key, ops: seq<Op>)
    requires Inv(c) && TombstoneIndexed(c, key)
    requires forall i :: 0 <= i < |ops| ==> ops[i] == RemoveOp(key)
    ensures Run(c, ops) == c.(deleted := Wrap32(c.deleted + |ops|))
    decreases |ops|
  {
    hide Inv, Remove, Run, TombstoneIndexed, Wrap32;
    RunUnfolds(c, ops);
    if ops != [] {
      RemoveTombstone(c, key);
      RemoveTombstoneAgain(Remove(c, key).0, key, ops[1..]);
      WrapAgain(c.deleted, |ops|);
    } else {
      CounterFits(c);
    }
  }

  lemma WrapAgain(a: nat, n: nat)
    requires n > 0
    ensures Wrap32(Wrap32(a + 1) + (n - 1)) == Wrap32(a + n)
  {
    ModAdd(Wrap32(a + 1), n - 1, a + 1);
  }

  /** The bound does fail once the counter wraps: removing a live key 2^32 times in a row, which
      succeeds every time, leaves a tombstone and a counter of zero. */
  lemma CounterWraps(c: Core, key: Key, i: nat, ops: seq<Op>)
    requires Inv(c) && LiveAt(c, key, i) && c.deleted == 0
    requires |ops| == DWORD && forall i :: 0 <= i < |ops| ==> ops[i] == RemoveOp(key)
    ensures Run(c, ops).deleted == 0 && DeadCount(Run(c, ops).entries) == DeadCount(c.entries) + 1
  {
    hide Inv, Remove, Run, DeadCount, LiveAt, TombstoneIndexed;
    FirstRemoval(c, key, i);
    RunUnfolds(c, ops);
    RemoveTombstoneAgain(Remove(c, key).0, key, ops[1..]);
  }

  lemma FirstRemoval(c: Core, key: Key, i: nat)
    requires Inv(c) && LiveAt(c, key, i) && c.deleted == 0
    ensures var d := Remove(c, key).0;
      Inv(d) && TombstoneIndexed(d, key) && d.deleted == 1 && DeadCount(d.entries) == DeadCount(c.entries) + 1
  {
    LiveIsHeld(c, key, i);
    RemoveCorrect(c, key);
    LocateDecides(c, key);
    DeadCountUpdate(c.entries, i, false);
    hide Inv, Locate, DeadCount;
    var d := Remove(c, key).0;
    assert Holds(d, key, i);
  }
}
