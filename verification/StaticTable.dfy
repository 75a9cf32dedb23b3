/** The fixed-size key/value table: parallel arrays of status, cached hash, key and value rows,
    with the hash index beside them. */
module StaticTable {
  import opened Bits
  import opened Wrappers
  import opened HashIndex
  import opened TombstoneTable
  import opened LocalString
  import Fnv
  import Arena = MemArena

  const TABLE_SUCCESS: int := 0
  const HIT_INIT_FAILURE: int := -4
  const HIT_INSERT_FAILED: int := -10
  const HIDXTBL_REBUILD_FAILED: int := -14

  type Value = seq<Byte>

  datatype Status = Empty | InUse | Deleted

  // ---- Specification ----

  /** The store and index of `Core`, and one value per appended entry. */
  datatype Table = Table(core: Core, vals: seq<Value>)

  ghost predicate TableInv(t: Table) {
    Inv(t.core) && |t.vals| == |t.core.entries|
  }

  function InsertValue(t: Table, key: Key, val: Value): (Table, int)
    requires TableInv(t)
  {
    var (core, r) := Insert(t.core, key, true);
    if r < 0 then (t.(core := core), r)
    else if r < |t.vals| then (Table(core, t.vals[r := val]), r)
    else (Table(core, t.vals + [val]), r)
  }

  function RemoveKey(t: Table, key: Key): (Table, int)
    requires TableInv(t)
  {
    var (core, r) := Remove(t.core, key);
    (t.(core := core), r)
  }

  function LookupValue(t: Table, key: Key): Option<Value>
    requires TableInv(t)
  {
    var i := Lookup(t.core, key);
    LocateDecides(t.core, key);
    if i < 0 then None else Some(t.vals[i])
  }

  /** The two ways an insertion into a table with room ends. */
  lemma InsertValueCases(t: Table, key: Key, val: Value)
    requires TableInv(t) && !IsFull(t.core)
    ensures var m := Maintained(t.core);
      && Inv(m) && m.entries == t.core.entries && |m.slots| == |t.core.slots| && |m.entries| < |m.slots|
      && var i := Locate(m, key);
         if i >= 0 then
           && i < |t.vals| && TableInv(Table(Revive(m, i), t.vals[i := val]))
           && InsertValue(t, key, val) == (Table(Revive(m, i), t.vals[i := val]), i)
         else
           && FirstFree(m.slots, Home(Fnv.Hash32(key), |m.slots|), 0) < |m.slots|
           && TableInv(Table(Append(m, key), t.vals + [val]))
           && InsertValue(t, key, val) == (Table(Append(m, key), t.vals + [val]), |t.vals|)
  {
    InsertCases(t.core, key, true);
    hide Inv, Locate, IsFull, Maintained, Put, Insert;
  }

  lemma InsertValueFull(t: Table, key: Key, val: Value)
    requires TableInv(t)
    ensures IsFull(t.core) <==> Wrap32(|t.core.entries| * 4) >= Wrap32(|t.core.slots| * 3)
    ensures IsFull(t.core) ==> InsertValue(t, key, val) == (t, -8)
  {
    hide Inv, Insert, IsFull;
    InsertFull(t.core, key, true);
  }

  /** A removal that finds the key marks its entry. */
  lemma RemoveKeyCase(t: Table, key: Key)
    requires TableInv(t)
    ensures var i := Locate(t.core, key);
      && (i < 0 ==> RemoveKey(t, key) == (t, NOT_FOUND))
      && (i >= 0 ==>
            && i < |t.core.entries|
            && var u := t.(core := t.core.(entries := t.core.entries[i := t.core.entries[i].(live := false)],
                                           deleted := Wrap32(t.core.deleted + 1)));
               RemoveKey(t, key) == (u, i) && TableInv(u))
  {
    RemoveCases(t.core, key);
    hide Inv, Locate, Remove;
  }

  /** The table is the finite map `m`. */
  ghost predicate Represents(t: Table, m: map<Key, Value>)
    requires TableInv(t)
  {
    && (forall k, i :: LiveAt(t.core, k, i) ==> k in m && m[k] == t.vals[i])
    && (forall k :: k in m ==> exists i :: LiveAt(t.core, k, i))
  }

  function MapGet(m: map<Key, Value>, key: Key): Option<Value> {
    if key in m then Some(m[key]) else None
  }

  /** Lookup in the table is lookup in the map. */
  lemma LookupIsGet(t: Table, m: map<Key, Value>, key: Key)
    requires TableInv(t) && Represents(t, m)
    ensures LookupValue(t, key) == MapGet(m, key)
  {
    LookupDecides(t.core, key);
    hide Lookup, Inv, LiveAt;
    var i := Lookup(t.core, key);
    assert i >= 0 ==> LiveAt(t.core, key, i);
  }

  /** Insertion is a map update unless the table is full; then it changes nothing. */
  lemma InsertIsUpdate(t: Table, m: map<Key, Value>, key: Key, val: Value)
    requires TableInv(t) && Represents(t, m)
    ensures var (u, r) := InsertValue(t, key, val);
      && TableInv(u) && |u.core.slots| == |t.core.slots|
      && (if |t.core.entries| == Limit(|t.core.slots|) then r == -8 && u == t
          else LiveAt(u.core, key, r) && u.vals[r] == val && Represents(u, m[key := val]))
  {
    InsertCorrect(t.core, key, true);
    InsertGrows(t.core, key, true);
    FullIff(t.core);
    hide Inv, Insert, IsFull, Lookup, Represents, LiveAt, OthersKept;
    var (u, r) := InsertValue(t, key, val);
    if r >= 0 {
      assert LiveAt(u.core, key, r);
      UpdateRepresents(t, m, u, key, val, r);
    }
  }

  lemma UpdateRepresents(t: Table, m: map<Key, Value>, u: Table, key: Key, val: Value, r: nat)
    requires TableInv(t) && TableInv(u) && Represents(t, m)
    requires OthersKept(t.core, u.core, key) && LiveAt(u.core, key, r) && |t.vals| <= |u.vals|
    requires u.vals[r] == val && forall i :: 0 <= i < |t.vals| && i != r ==> u.vals[i] == t.vals[i]
    ensures Represents(u, m[key := val])
  {
    hide Inv;
    var m' := m[key := val];
    forall k, i | LiveAt(u.core, k, i) ensures k in m' && m'[k] == u.vals[i] {
      if k == key {
        LiveUnique(u.core, key, i, r);
      } else {
        assert LiveAt(t.core, k, i);
      }
    }
    forall k | k in m' ensures exists i :: LiveAt(u.core, k, i) {
      if k != key {
        var i :| LiveAt(t.core, k, i);
        assert LiveAt(u.core, k, i);
      }
    }
  }

  /** Removal deletes the key from the map, whatever status it reports. */
  lemma RemoveIsDelete(t: Table, m: map<Key, Value>, key: Key)
    requires TableInv(t) && Represents(t, m)
    ensures var (u, r) := RemoveKey(t, key);
      && TableInv(u) && |u.core.slots| == |t.core.slots|
      && Represents(u, m - {key})
      && (forall i :: Holds(t.core, key, i) ==> r == i)
      && ((forall i :: !Holds(t.core, key, i)) ==> r == -11 && u == t && key !in m)
  {
    RemoveCorrect(t.core, key);
    RemoveKeepsSize(t.core, key);
    if key in m { KeyInMap(t, m, key); }
    hide Inv, Remove, OthersKept, Represents, Holds;
    var (u, r) := RemoveKey(t, key);
    DeleteRepresents(t, m, u, key);
  }

  /** A key of the map is held by the table. */
  lemma KeyInMap(t: Table, m: map<Key, Value>, key: Key)
    requires TableInv(t) && Represents(t, m) && key in m
    ensures exists i :: Holds(t.core, key, i)
  {
    hide Inv;
    var i :| LiveAt(t.core, key, i);
    LiveIsHeld(t.core, key, i);
  }

  lemma DeleteRepresents(t: Table, m: map<Key, Value>, u: Table, key: Key)
    requires TableInv(t) && TableInv(u) && Represents(t, m)
    requires OthersKept(t.core, u.core, key) && u.vals == t.vals && forall i :: !LiveAt(u.core, key, i)
    ensures Represents(u, m - {key})
  {
    hide Inv;
    var m' := m - {key};
    forall k, i | LiveAt(u.core, k, i) ensures k in m' && m'[k] == u.vals[i] {
      assert k != key;
      assert LiveAt(t.core, k, i);
    }
    forall k | k in m' ensures exists i :: LiveAt(u.core, k, i) {
      var i :| LiveAt(t.core, k, i);
      assert LiveAt(u.core, k, i);
    }
  }

  // ---- Whole runs ----

  datatype Op = InsertOp(key: Key, val: Value) | RemoveOp(key: Key) | LookupOp(key: Key)

  function Step(t: Table, op: Op): (Table, Option<Value>)
    requires TableInv(t)
  {
    match op
    case InsertOp(key, val) => (InsertValue(t, key, val).0, None)
    case RemoveOp(key) => (RemoveKey(t, key).0, None)
    case LookupOp(key) => (t, LookupValue(t, key))
  }

  lemma StepInv(t: Table, op: Op)
    requires TableInv(t)
    ensures TableInv(Step(t, op).0)
  {
    match op {
      case InsertOp(key, _) =>
        InsertCorrect(t.core, key, true);
        InsertGrows(t.core, key, true);
      case RemoveOp(key) =>
        RemoveCorrect(t.core, key);
        RemoveKeepsSize(t.core, key);
      case LookupOp(_) =>
    }
  }

  /** What the lookups of a run return. */
  function Answers(t: Table, ops: seq<Op>): seq<Option<Value>>
    requires TableInv(t)
    decreases |ops|
  {
    hide *;
    if ops == [] then []
    else
      StepInv(t, ops[0]);
      var (u, a) := Step(t, ops[0]);
      [a] + Answers(u, ops[1..])
  }

  /** The same run on a finite map that accepts insertions during the first `n` operations
      and ignores them afterwards. */
  function MapAnswers(m: map<Key, Value>, ops: seq<Op>, n: nat): seq<Option<Value>>
    decreases |ops|
  {
    if ops == [] then []
    else
      var n' := if n == 0 then 0 else n - 1;
      match ops[0]
      case InsertOp(key, val) => [None] + MapAnswers(if n == 0 then m else m[key := val], ops[1..], n')
      case RemoveOp(key) => [None] + MapAnswers(m - {key}, ops[1..], n')
      case LookupOp(key) => [MapGet(m, key)] + MapAnswers(m, ops[1..], n')
  }

  /** The number of operations of a run that start on a table with room. */
  function Accepting(t: Table, ops: seq<Op>): nat
    requires TableInv(t)
    decreases |ops|
  {
    hide *;
    if ops == [] || IsFull(t.core) then 0
    else
      StepInv(t, ops[0]);
      1 + Accepting(Step(t, ops[0]).0, ops[1..])
  }

  lemma StepRepresents(t: Table, m: map<Key, Value>, op: Op)
    requires TableInv(t) && Represents(t, m)
    ensures TableInv(Step(t, op).0)
    ensures IsFull(t.core) ==> IsFull(Step(t, op).0.core)
    ensures match op
      case InsertOp(key, val) => Step(t, op).1 == None && Represents(Step(t, op).0, if IsFull(t.core) then m else m[key := val])
      case RemoveOp(key) => Step(t, op).1 == None && Represents(Step(t, op).0, m - {key})
      case LookupOp(key) => Step(t, op) == (t, MapGet(m, key))
  {
    FullIff(t.core);
    match op {
      case InsertOp(key, val) => InsertIsUpdate(t, m, key, val);
      case RemoveOp(key) =>
        RemoveIsDelete(t, m, key);
        RemoveKeepsSize(t.core, key);
      case LookupOp(key) => LookupIsGet(t, m, key);
    }
  }

  /** Over every run of insertions, removals and lookups, with the rebuilds they trigger, the
      lookups answer what a finite map would, up to the moment the table fills; from then on
      they answer what that map would without further insertions. */
  lemma {:induction false} RunRefinesMap(t: Table, m: map<Key, Value>, ops: seq<Op>)
    requires TableInv(t) && Represents(t, m)
    ensures Answers(t, ops) == MapAnswers(m, ops, Accepting(t, ops))
    decreases |ops|
  {
    hide Step, TableInv, Represents, IsFull, MapGet;
    if ops != [] {
      StepRepresents(t, m, ops[0]);
      var u := Step(t, ops[0]).0;
      match ops[0] {
        case InsertOp(key, val) => RunRefinesMap(u, if IsFull(t.core) then m else m[key := val], ops[1..]);
        case RemoveOp(key) => RunRefinesMap(u, m - {key}, ops[1..]);
        case LookupOp(key) => RunRefinesMap(u, m, ops[1..]);
      }
    }
  }

  function InsertCount(ops: seq<Op>): nat {
    if ops == [] then 0 else (if ops[0].InsertOp? then 1 else 0) + InsertCount(ops[1..])
  }

  lemma StepGrows(t: Table, op: Op)
    requires TableInv(t)
    ensures TableInv(Step(t, op).0) && |Step(t, op).0.core.slots| == |t.core.slots|
    ensures |Step(t, op).0.core.entries| <= |t.core.entries| + (if op.InsertOp? then 1 else 0)
  {
    match op {
      case InsertOp(key, _) =>
        InsertCorrect(t.core, key, true);
        InsertGrows(t.core, key, true);
      case RemoveOp(key) =>
        RemoveCorrect(t.core, key);
        RemoveKeepsSize(t.core, key);
      case LookupOp(_) =>
    }
  }

  /** A table stops accepting only after as many insertions as it had free entries. */
  lemma {:induction false} AcceptsUpToLimit(t: Table, ops: seq<Op>)
    requires TableInv(t)
    requires InsertCount(ops) <= Limit(|t.core.slots|) - |t.core.entries|
    ensures Accepting(t, ops) <= |ops| && InsertCount(ops[Accepting(t, ops)..]) == 0
    decreases |ops|
  {
    FullIff(t.core);
    hide Step, TableInv, IsFull, Limit;
    if ops != [] {
      if IsFull(t.core) {
        assert ops[0..] == ops;
      } else {
        StepGrows(t, ops[0]);
        AcceptsUpToLimit(Step(t, ops[0]).0, ops[1..]);
        var n := Accepting(Step(t, ops[0]).0, ops[1..]);
        assert Accepting(t, ops) == 1 + n;
        assert ops[1..][n..] == ops[1 + n..];
      }
    }
  }


  // ---- The arrays ----

  ghost predicate StatusRows(stat: array<Status>, entries: seq<Entry>)
    reads stat
  {
    && |entries| <= stat.Length
    && (forall i :: 0 <= i < |entries| ==> stat[i] == if entries[i].live then InUse else Deleted)
    && (forall i :: |entries| <= i < stat.Length ==> stat[i] == Empty)
  }

  ghost predicate KeyRows(keyHash: array<nat>, keys: array2<Byte>, entries: seq<Entry>)
    reads keyHash, keys
  {
    && |entries| <= keyHash.Length && |entries| <= keys.Length0
    && (forall i :: 0 <= i < |entries| ==> keyHash[i] == entries[i].hash)
    && (forall i :: 0 <= i < |entries| ==> RowIs(keys, i, entries[i].key))
  }

  ghost predicate ValueRows(vals: array2<Byte>, values: seq<Value>)
    reads vals
  {
    |values| <= vals.Length0 && forall i :: 0 <= i < |values| ==> RowIs(vals, i, values[i])
  }

  /** The test a lookup makes at each occupied slot. */
  method RowMatches(stat: array<Status>, keyHash: array<nat>, keys: array2<Byte>, row: nat, hash: nat, key: Key,
                    ghost entries: seq<Entry>)
    returns (same: bool)
    requires row < |entries| && |key| == keys.Length1
    requires StatusRows(stat, entries) && KeyRows(keyHash, keys, entries)
    ensures same == (row in Hits(entries, hash, key))
  {
    if stat[row] == Empty || keyHash[row] != hash { return false; }
    var cmp := MemCmp(key, keys, row);
    return cmp == 0;
  }

  /** `_KVTable_lookup_with_key_hash_raw`. */
  method ProbeForKey(slots: array<int>, stat: array<Status>, keyHash: array<nat>, keys: array2<Byte>,
                     hash: nat, key: Key, ghost entries: seq<Entry>)
    returns (r: int)
    requires IsPowerOf2(slots.Length) && |key| == keys.Length1
    requires forall p :: 0 <= p < slots.Length ==> EMPTY <= slots[p] < |entries|
    requires StatusRows(stat, entries) && KeyRows(keyHash, keys, entries)
    ensures r == Find(slots[..], Home(hash, slots.Length), 0, Hits(entries, hash, key))
  {
    ghost var s, hit := slots[..], Hits(entries, hash, key);
    var capacity := slots.Length;
    ghost var home := Home(hash, capacity);
    ghost var target := Find(s, home, 0, hit);
    assert And(hash, capacity - 1) == home;
    hide IsPowerOf2, Hits, StatusRows, KeyRows, And, Home;
    var hidx := And(hash, capacity - 1);
    if slots[hidx] == EMPTY { return NOT_FOUND; }
    var probes := 0;
    while probes < capacity
      invariant 0 <= probes <= capacity
      invariant hidx == ProbeAt(home, probes, capacity)
      invariant target == Find(s, home, probes, hit)
    {
      var kidx := slots[hidx];
      assert kidx == s[hidx];
      if kidx == EMPTY { break; }
      var same := RowMatches(stat, keyHash, keys, kidx, hash, key, entries);
      if same { return kidx; }
      MaskedStep(home, probes, capacity);
      probes := probes + 1;
      hidx := hidx + 1;
      hidx := And(hidx, capacity - 1);
    }
    return NOT_FOUND;
  }

  /** `_KVTable_rebuild_hidxtbl`: never fails. */
  method RebuildIndex(slots: array<int>, stat: array<Status>, keyHash: array<nat>, entryCnt: nat, ghost core: Core)
    returns (st: int)
    requires Inv(core) && |core.slots| == slots.Length && entryCnt == |core.entries| <= keyHash.Length
    requires StatusRows(stat, core.entries) && keyHash as object != slots
    requires forall i :: 0 <= i < entryCnt ==> keyHash[i] == core.entries[i].hash
    modifies slots
    ensures st == TABLE_SUCCESS && slots[..] == Rebuild(core).slots
  {
    var capacity := slots.Length;
    RebuiltUnfolds(core.entries, 0, capacity);
    st := InitSlots(slots, capacity);
    if st < 0 { return HIT_INIT_FAILURE; }
    var i := 0;
    while i < entryCnt
      invariant 0 <= i <= entryCnt
      invariant slots[..] == RebuiltSlots(core.entries, i, capacity)
    {
      RebuiltNext(core, i);
      if stat[i] == InUse {
        st := InsertSlot(slots, capacity, keyHash[i], i);
        if st < 0 { return HIT_INSERT_FAILED; }
      }
      i := i + 1;
    }
    return TABLE_SUCCESS;
  }

  method StoreKey(keyHash: array<nat>, keys: array2<Byte>, row: nat, key: Key, hash: nat, ghost entries: seq<Entry>)
    requires |entries| == row < keyHash.Length && row < keys.Length0 && |key| == keys.Length1
    requires KeyRows(keyHash, keys, entries)
    modifies keyHash, keys
    ensures KeyRows(keyHash, keys, entries + [Entry(key, hash, true)])
  {
    MemCpy(keys, row, key);
    keyHash[row] := hash;
  }

  /** Append the key and index it: the branch of an insertion that finds no entry. */
  method AppendKey(slots: array<int>, keyHash: array<nat>, keys: array2<Byte>, row: nat, key: Key, hash: nat, ghost m: Core)
    returns (st: int)
    requires slots[..] == m.slots && IsPowerOf2(slots.Length) && hash == Fnv.Hash32(key)
    requires FirstFree(m.slots, Home(hash, |m.slots|), 0) < |m.slots|
    requires |m.entries| == row < keyHash.Length && row < keys.Length0 && |key| == keys.Length1
    requires KeyRows(keyHash, keys, m.entries) && keyHash as object != slots && keys as object != slots
    modifies slots, keyHash, keys
    ensures st == TABLE_SUCCESS
    ensures KeyRows(keyHash, keys, Append(m, key).entries) && slots[..] == Append(m, key).slots
  {
    StoreKey(keyHash, keys, row, key, hash, m.entries);
    st := InsertSlot(slots, slots.Length, hash, row);
  }

  /** Store the value and mark the row live; says whether that revived a tombstone. */
  method StoreValue(vals: array2<Byte>, stat: array<Status>, row: nat, val: Value,
                    ghost was: Table, ghost now: Table)
    returns (revived: bool)
    requires ValueRows(vals, was.vals) && StatusRows(stat, was.core.entries)
    requires row < vals.Length0 && |val| == vals.Length1
    requires |was.vals| == |was.core.entries| && |now.core.entries| <= stat.Length
    requires if row < |was.vals| then
        now.vals == was.vals[row := val] && now.core == Revive(was.core, row)
      else
        row == |was.vals| && now.vals == was.vals + [val]
        && exists e: Entry :: e.live && now.core.entries == was.core.entries + [e]
    modifies vals, stat
    ensures ValueRows(vals, now.vals) && StatusRows(stat, now.core.entries)
    ensures revived == (row < |was.vals| && !was.core.entries[row].live)
  {
    MemCpy(vals, row, val);
    revived := stat[row] == Deleted;
    stat[row] := InUse;
  }

  /** Key rows do not record liveness. */
  lemma FlippedKeys(keyHash: array<nat>, keys: array2<Byte>, entries: seq<Entry>, i: nat, live: bool)
    requires i < |entries| && KeyRows(keyHash, keys, entries)
    ensures KeyRows(keyHash, keys, entries[i := entries[i].(live := live)])
  {
  }

  // ---- Creation ----

  /** What `_KVTable_init` asks of the arena for a given capacity, and whether it gets it. */
  function CarveTable(a: Arena.Arena, cap: nat, keySize: nat, valSize: nat): (Arena.Arena, bool)
    requires a.align > 0
  {
    Arena.AllocAll(a, [cap, cap * 4, cap * 8, cap * keySize, cap * valSize])
  }

  /** That is a status byte, a hash of four bytes, an index slot of eight, a key and a value for each
      entry, in this order; had exactly when they all fit behind the cursor. */
  lemma CarveExact(a: Arena.Arena, cap: nat, keySize: nat, valSize: nat)
    requires Arena.Safe(a)
    ensures a.align > 0
    ensures var (b, ok) := CarveTable(a, cap, keySize, valSize);
      var sizes := [cap, 4 * cap, 8 * cap, keySize * cap, valSize * cap];
      && (ok <==> cap > 0 && keySize > 0 && valSize > 0 && Arena.StackEnd(a.cur, a.align, sizes) <= a.size)
      && (ok ==> b.cur == Arena.StackEnd(a.cur, a.align, sizes) && b.live == a.live + Arena.Stacked(a.cur, a.align, sizes))
  {
    hide Arena.Safe, Arena.StackEnd, Arena.Stacked, Arena.AllocAll, Arena.Grown, Arena.NoneZero;
    var sizes := [cap, 4 * cap, 8 * cap, keySize * cap, valSize * cap];
    assert sizes == [cap, cap * 4, cap * 8, cap * keySize, cap * valSize];
    Arena.AllocAllExact(a, sizes);
    AllPositive(cap, keySize, valSize);
  }

  lemma AllPositive(cap: nat, keySize: nat, valSize: nat)
    ensures var sizes := [cap, 4 * cap, 8 * cap, keySize * cap, valSize * cap];
      Arena.NoneZero(sizes) <==> cap > 0 && keySize > 0 && valSize > 0
  {
    var sizes := [cap, 4 * cap, 8 * cap, keySize * cap, valSize * cap];
    assert |sizes| == 5 && sizes[0] == cap && sizes[3] == keySize * cap && sizes[4] == valSize * cap;
    if cap > 0 && keySize > 0 && valSize > 0 {
      MulMonotone(cap, 1, keySize);
      MulMonotone(cap, 1, valSize);
    }
  }

  // ---- The table object ----

  /** The allocations of `_KVTable_init`. If one fails the cursor goes back to a mark kept in 32
      bits, which undoes them exactly when the cursor was below 2^32. */
  method AllocateArrays(alloc: Arena.MemArena, cap: nat, keySize: nat, valSize: nat) returns (ok: bool)
    requires Arena.Safe(alloc.State())
    modifies alloc
    ensures Arena.Safe(alloc.State())
    ensures var (carved, fits) := CarveTable(old(alloc.State()), cap, keySize, valSize);
      && ok == fits && alloc.State() == (if ok then carved else carved.SetCur(Wrap32(old(alloc.cur))))
      && (!ok ==> (alloc.State() == old(alloc.State()).(allocs := carved.allocs) <==> old(alloc.cur) < DWORD))
  {
    var mark := Wrap32(alloc.cur);
    ghost var before := alloc.State();
    Arena.AllocAllExact(before, [cap, cap * 4, cap * 8, cap * keySize, cap * valSize]);
    hide Arena.NextAlloc, Arena.Safe, Arena.Grown, Arena.Below, Arena.AllocAll, Arena.Stacked, Arena.StackEnd;
    ok := AllocateFive(alloc, cap, keySize, valSize);
    if !ok {
      Arena.NarrowMark(before, alloc.State());
      alloc.SetCur(mark);
    }
  }

  method AllocateFive(alloc: Arena.MemArena, cap: nat, keySize: nat, valSize: nat) returns (ok: bool)
    requires Arena.Safe(alloc.State())
    modifies alloc
    ensures Arena.Safe(alloc.State())
    ensures (alloc.State(), ok) == CarveTable(old(alloc.State()), cap, keySize, valSize)
  {
    hide Arena.NextAlloc, Arena.Safe, Arena.AllocAll;
    Arena.PositiveAlign(alloc.State());
    ghost var a0, n4, n5 := alloc.State(), cap * keySize, cap * valSize;
    Arena.AllocAllFirst(a0, cap, [cap * 4, cap * 8, n4, n5]);
    assert [cap] + [cap * 4, cap * 8, n4, n5] == [cap, cap * 4, cap * 8, n4, n5];
    var statP := alloc.AllocArr(cap, 1);
    Arena.AllocAllFirst(alloc.State(), cap * 4, [cap * 8, n4, n5]);
    assert [cap * 4] + [cap * 8, n4, n5] == [cap * 4, cap * 8, n4, n5];
    var hashP := alloc.AllocArr(cap, 4);
    Arena.AllocAllFirst(alloc.State(), cap * 8, [n4, n5]);
    assert [cap * 8] + [n4, n5] == [cap * 8, n4, n5];
    var slotP := alloc.AllocArr(cap, 8);
    Arena.AllocAllFirst(alloc.State(), n4, [n5]);
    assert [n4] + [n5] == [n4, n5];
    var keyP := alloc.AllocArr(cap, keySize);
    Arena.AllocAllFirst(alloc.State(), n5, []);
    assert [n5] + [] == [n5];
    var valP := alloc.AllocArr(cap, valSize);
    Arena.AllocAllFirst(alloc.State(), 0, []);
    ok := statP >= 0 && hashP >= 0 && slotP >= 0 && keyP >= 0 && valP >= 0;
  }

  class KVTable {
    const stat: array<Status>
    const keyHash: array<nat>
    const slots: array<int>
    const keys: array2<Byte>
    const vals: array2<Byte>
    var entryCnt: nat
    var deletedCnt: nat
    const capacity: nat
    const keySize: nat
    const valSize: nat
    ghost var model: Table

    ghost predicate Shape()
      reads this, slots
    {
      && keyHash as object != slots && keys as object != slots && vals as object != slots && keys != vals
      && stat.Length == keyHash.Length == slots.Length == capacity
      && keys.Length0 == vals.Length0 == capacity && keys.Length1 == keySize && vals.Length1 == valSize
      && entryCnt == |model.core.entries| == |model.vals| <= capacity
      && deletedCnt == model.core.deleted
      && slots[..] == model.core.slots
    }

    ghost predicate Rows()
      reads this, stat, keyHash, keys, vals
    {
      && StatusRows(stat, model.core.entries)
      && KeyRows(keyHash, keys, model.core.entries)
      && ValueRows(vals, model.vals)
    }

    ghost predicate Valid()
      reads this, stat, keyHash, slots, keys, vals
    {
      Shape() && Rows() && TableInv(model)
    }

    /** `_KVTable_full` and `_KVTable_hidxtbl_should_rebuild`, in 32-bit arithmetic. */
    predicate Full()
      reads this
    {
      Wrap32(entryCnt * 4) >= Wrap32(capacity * 3)
    }

    predicate IndexShouldRebuild()
      reads this
    {
      Wrap32(deletedCnt * 2) >= entryCnt
    }

    /** `_KVTable_lookup`. */
    method LookupRaw(key: Key) returns (r: int)
      requires Valid() && |key| == keySize
      ensures r == Locate(model.core, key)
    {
      var hash := Fnv.ComputeHash32(key);
      r := LookupWithHash(hash, key);
    }

    method LookupWithHash(hash: nat, key: Key) returns (r: int)
      requires Valid() && |key| == keySize && hash == Fnv.Hash32(key)
      ensures r == Locate(model.core, key)
    {
      r := ProbeForKey(slots, stat, keyHash, keys, hash, key, model.core.entries);
    }

    /** The maintenance step of an insertion. */
    method Maintain() returns (st: int)
      requires Valid()
      modifies this`model, slots
      ensures Valid() && st == TABLE_SUCCESS
      ensures model == old(model).(core := Maintained(old(model.core)))
    {
      MaintainedInv(model.core);
      assert IndexShouldRebuild() == ShouldRebuild(model.core);
      st := TABLE_SUCCESS;
      if IndexShouldRebuild() {
        st := RebuildIndex(slots, stat, keyHash, entryCnt, model.core);
        model := model.(core := Rebuild(model.core));
      }
    }

    /** The tail of an insertion that found no entry: append one. */
    method InsertNew(key: Key, hash: nat, val: Value) returns (r: int)
      requires Valid() && |key| == keySize && |val| == valSize && hash == Fnv.Hash32(key)
      requires entryCnt < capacity && FirstFree(model.core.slots, Home(hash, |model.core.slots|), 0) < capacity
      requires TableInv(Table(Append(model.core, key), model.vals + [val]))
      modifies this, stat, keyHash, slots, keys, vals
      ensures Valid() && r == old(entryCnt)
      ensures model == Table(Append(old(model.core), key), old(model.vals) + [val])
    {
      hide Inv, Put, FirstFree, Home, IsPowerOf2, StatusRows, KeyRows, ValueRows;
      ghost var was := model;
      ghost var e := Entry(key, hash, true);
      r := entryCnt;
      CounterFits(was.core);
      var st := AppendKey(slots, keyHash, keys, r, key, hash, was.core);
      if st < 0 { return HIT_INSERT_FAILED; }
      entryCnt := entryCnt + 1;
      model := Table(Append(was.core, key), was.vals + [val]);
      var revived := StoreValue(vals, stat, r, val, was, model);
    }

    /** The tail of an insertion that found an entry: overwrite its value and make it live. */
    method Update(kidx: nat, val: Value)
      requires Valid() && kidx < entryCnt && |val| == valSize
      requires TableInv(Table(Revive(model.core, kidx), model.vals[kidx := val]))
      modifies this, stat, vals
      ensures Valid()
      ensures model == Table(Revive(old(model.core), kidx), old(model.vals)[kidx := val])
    {
      ghost var was := model;
      FlippedKeys(keyHash, keys, was.core.entries, kidx, true);
      hide Inv, StatusRows, KeyRows, ValueRows, TableInv;
      model := Table(Revive(was.core, kidx), was.vals[kidx := val]);
      var revived := StoreValue(vals, stat, kidx, val, was, model);
      if revived {
        deletedCnt := Wrap32(deletedCnt - 1);
      }
    }

    /** `KVTable_insert`: the entry's index, or why it was refused. */
    method Insert(key: Key, val: Value) returns (r: int)
      requires Valid() && |key| == keySize && |val| == valSize
      modifies this, stat, keyHash, slots, keys, vals
      ensures Valid()
      ensures (model, r) == InsertValue(old(model), key, val)
    {
      hide Inv, Locate, IsFull, Maintained, Put, InsertValue, FirstFree, Home, IsPowerOf2, TableInv, Wrap32,
        StatusRows, KeyRows, ValueRows;
      ghost var was := model;
      InsertValueFull(was, key, val);
      if Full() { return FULL; }
      InsertValueCases(was, key, val);
      var st := Maintain();
      if st < 0 { return HIDXTBL_REBUILD_FAILED; }
      var hash := Fnv.ComputeHash32(key);
      r := LookupWithHash(hash, key);
      if r < 0 {
        r := InsertNew(key, hash, val);
      } else {
        Update(r, val);
      }
    }

    /** `KVTable_remove`. */
    method Remove(key: Key) returns (r: int)
      requires Valid() && |key| == keySize
      modifies this, stat
      ensures Valid()
      ensures (model, r) == RemoveKey(old(model), key)
    {
      hide Inv, Locate, KeyRows, ValueRows, TableInv, RemoveKey, Wrap32, IsPowerOf2;
      RemoveKeyCase(model, key);
      r := LookupRaw(key);
      if r < 0 { return NOT_FOUND; }
      FlippedKeys(keyHash, keys, model.core.entries, r, false);
      stat[r] := Deleted;
      deletedCnt := Wrap32(deletedCnt + 1);
      model := RemoveKey(model, key).0;
    }

    /** `KVTable_lookup`: the row holding the value. */
    method Lookup(key: Key) returns (r: Option<nat>)
      requires Valid() && |key| == keySize
      ensures match LookupValue(model, key)
        case None => r == None
        case Some(v) => r.Some? && LiveAt(model.core, key, r.value) && r.value < vals.Length0 && RowIs(vals, r.value, v)
    {
      LocateDecides(model.core, key);
      hide Inv, Locate, IsPowerOf2;
      var kidx := LookupRaw(key);
      if kidx < 0 || stat[kidx] != InUse { return None; }
      return Some(kidx);
    }

    constructor Adopt(capacity: nat, keySize: nat, valSize: nat)
      requires IsPowerOf2(capacity) && capacity <= MAX_CAPACITY
      ensures this.capacity == capacity && this.keySize == keySize && this.valSize == valSize
      ensures fresh(stat) && fresh(keyHash) && fresh(slots) && fresh(keys) && fresh(vals)
      ensures Valid() && model == Table(Fresh(capacity), [])
    {
      var stat := new Status[capacity](_ => Empty);
      var keyHash := new nat[capacity](_ => 0);
      var slots := new int[capacity];
      var keys := new Byte[capacity, keySize]((_, _) => 0);
      var vals := new Byte[capacity, valSize]((_, _) => 0);
      var st := InitSlots(slots, capacity);
      this.stat, this.keyHash, this.slots, this.keys, this.vals := stat, keyHash, slots, keys, vals;
      this.capacity, this.keySize, this.valSize := capacity, keySize, valSize;
      entryCnt, deletedCnt := 0, 0;
      model := Table(Fresh(capacity), []);
      FreshInv(capacity);
    }

    /** `KVTable_init`: a table of the requested capacity rounded up to a power of two, its arrays
        accounted for in the caller's arena; on failure the arena's cursor goes back to its old
        value modulo 2^32. */
    static method Init(capacity: nat, keySize: nat, valSize: nat, alloc: Arena.MemArena)
      returns (st: int, t: KVTable?)
      requires capacity <= MAX_CAPACITY && Arena.Safe(alloc.State())
      modifies alloc
      ensures Arena.Safe(alloc.State())
      ensures var cap := if IsPowerOf2(capacity) then capacity else DwordNextPow2(capacity);
        var (carved, ok) := CarveTable(old(alloc.State()), cap, keySize, valSize);
        if ok then
          && st == 0 && alloc.State() == carved
          && t != null && fresh(t) && t.Valid() && t.capacity == cap && t.keySize == keySize && t.valSize == valSize
          && t.model == Table(Fresh(cap), [])
        else
          && st == -3 && t == null
          && alloc.State() == carved.SetCur(Wrap32(old(alloc.cur)))
          && (alloc.State() == old(alloc.State()).(allocs := carved.allocs) <==> old(alloc.cur) < DWORD)
    {
      var cap := capacity;
      if !IsPowerOf2(cap) {
        NextPow2Least(cap);
        cap := DwordNextPow2(cap);
      }
      hide IsPowerOf2, DwordNextPow2, CarveTable, Arena.Safe;
      var ok := AllocateArrays(alloc, cap, keySize, valSize);
      if !ok { return ALLOC_FAILURE, null; }
      t := new KVTable.Adopt(cap, keySize, valSize);
      return TABLE_SUCCESS, t;
    }
  }
}
