/** The key-index table: the tombstone table with NUL-terminated keys stored in the caller's
    arena, whose indices clients keep as handles. */
module KeyIndexTable {
  import opened Bits
  import opened Wrappers
  import opened HashIndex
  import opened TombstoneTable
  import opened LocalString
  import Fnv
  import Arena = MemArena

  const KIST_SUCCESS: int := 0
  const KIST_HIT_INIT_FAILURE: int := -4
  const KIST_HIT_INSERT_FAILED: int := -10
  const KIST_HIDXTBL_REBUILD_FAILED: int := -14

  /** Indices are 32-bit signed here, so the largest capacity whose probing stays in range. */
  const KIT_MAX_CAPACITY: nat := 0x4000_0000

  datatype State = Empty | InUse | Deleted

  datatype Record = Record(keyHash: nat, keyOff: nat, state: State)

  // ---- The records and the key bytes ----

  ghost predicate Recorded(recs: seq<Record>, entries: seq<Entry>) {
    && |entries| <= |recs|
    && (forall i :: 0 <= i < |entries| ==>
          recs[i].keyHash == entries[i].hash && recs[i].state == if entries[i].live then InUse else Deleted)
    && (forall i :: |entries| <= i < |recs| ==> recs[i].state == Empty)
  }

  /** Every appended key is the string at its offset, below the arena's cursor. */
  ghost predicate Stored(recs: seq<Record>, entries: seq<Entry>, bytes: seq<Byte>, cur: nat) {
    && |entries| <= |recs|
    && forall i :: 0 <= i < |entries| ==>
         StringAt(bytes, recs[i].keyOff, entries[i].key) && recs[i].keyOff + |entries[i].key| < cur
  }

  /** Bytes below the cursor decide what is stored. */
  lemma StoredFrame(recs: seq<Record>, entries: seq<Entry>, bytes: seq<Byte>, bytes': seq<Byte>, cur: nat, cur': nat)
    requires Stored(recs, entries, bytes, cur) && cur <= cur' && cur <= |bytes| == |bytes'| && bytes[..cur] == bytes'[..cur]
    ensures Stored(recs, entries, bytes', cur')
  {
    forall i | 0 <= i < |entries|
      ensures StringAt(bytes', recs[i].keyOff, entries[i].key)
    {
      StringFrame(bytes, bytes', recs[i].keyOff, entries[i].key, cur);
    }
  }

  lemma StringFrame(bytes: seq<Byte>, bytes': seq<Byte>, off: nat, str: seq<Byte>, cur: nat)
    requires StringAt(bytes, off, str) && off + |str| < cur <= |bytes| == |bytes'| && bytes[..cur] == bytes'[..cur]
    ensures StringAt(bytes', off, str)
  {
    forall p | off <= p < cur ensures bytes'[p] == bytes[p] {
      assert bytes[..cur][p] == bytes'[..cur][p];
    }
  }

  /** What a forward copy of `s` puts at position `i` of its destination, which lies `shift` bytes
      further on in the same buffer: after that many bytes it reads its own output. A shift of
      zero stands for a destination that the copy does not read. */
  function CopiedByte(s: seq<Byte>, shift: nat, i: nat): Byte
    requires i < |s|
  {
    if i < shift || shift == 0 then s[i] else CopiedByte(s, shift, i - shift)
  }

  ghost predicate Repeats(s: seq<Byte>, shift: nat) {
    forall i :: shift <= i < |s| ==> s[i] == s[i - shift]
  }

  lemma {:induction false} CopiedRepeats(s: seq<Byte>, shift: nat, i: nat)
    requires i < |s| && Repeats(s, shift)
    ensures CopiedByte(s, shift, i) == s[i]
  {
    if i >= shift > 0 { CopiedRepeats(s, shift, i - shift); }
  }

  /** Such a copy is exact precisely when the string repeats itself at that distance, in particular
      when it ends before it. */
  lemma CopyExactIff(s: seq<Byte>, shift: nat)
    ensures (forall i :: 0 <= i < |s| ==> CopiedByte(s, shift, i) == s[i]) <==> Repeats(s, shift)
  {
    if Repeats(s, shift) {
      forall i | 0 <= i < |s| ensures CopiedByte(s, shift, i) == s[i] {
        CopiedRepeats(s, shift, i);
      }
    } else {
      var i :| shift <= i < |s| && s[i] != s[i - shift];
      assert CopiedByte(s, shift, i) == CopiedByte(s, shift, i - shift);
    }
  }

  /** How far behind its source in the same buffer a copy starts; zero if it does not. */
  function Shift(src: array<Byte>, at: nat, buf: array<Byte>, off: nat): nat {
    if src == buf && at < off then off - at else 0
  }

  /** Whether copying the string at `at` to `off` is exact. */
  ghost predicate Copies(src: array<Byte>, at: nat, str: seq<Byte>, buf: array<Byte>, off: nat) {
    Repeats(str, Shift(src, at, buf, off))
  }

  /** `local_memcpy` of a string of known length, byte by byte, and its terminator. */
  method WriteString(buf: array<Byte>, off: nat, src: array<Byte>, at: nat, len: nat, ghost str: seq<Byte>)
    requires off + len < buf.Length && len == |str| && StringAt(src[..], at, str)
    modifies buf
    ensures forall i :: 0 <= i < len ==> buf[off + i] == CopiedByte(str, Shift(src, at, buf, off), i)
    ensures buf[off + len] == 0
    ensures Copies(src, at, str, buf, off) ==> StringAt(buf[..], off, str)
    ensures buf[..off] == old(buf[..off]) && buf[off + len + 1..] == old(buf[off + len + 1..])
  {
    ghost var shift := Shift(src, at, buf, off);
    ghost var was := src[..];
    var i := 0;
    while i < len
      invariant 0 <= i <= len
      invariant forall j :: 0 <= j < i ==> buf[off + j] == CopiedByte(str, shift, j)
      invariant forall j :: 0 <= j < src.Length && (src != buf || j < off || off + i <= j) ==> src[j] == was[j]
      invariant buf[..off] == old(buf[..off]) && buf[off + len + 1..] == old(buf[off + len + 1..])
    {
      if 0 < shift <= i {
        ghost var back := i - shift;
        assert src[at + i] == buf[off + back];
      }
      assert src[at + i] == CopiedByte(str, shift, i);
      buf[off + i] := src[at + i];
      i := i + 1;
    }
    buf[off + len] := 0;
    CopyExactIff(str, shift);
  }

  /** The test a lookup makes at each occupied slot. */
  method RecordMatches(recs: array<Record>, buf: array<Byte>, row: nat, hash: nat, key: Key,
                       ghost entries: seq<Entry>, ghost cur: nat)
    returns (same: bool)
    requires row < |entries| && 0 !in key
    requires Recorded(recs[..], entries) && Stored(recs[..], entries, buf[..], cur)
    ensures same == (row in Hits(entries, hash, key))
  {
    assert recs[row] == recs[..][row];
    if recs[row].state == Empty || recs[row].keyHash != hash { return false; }
    var cmp := StrCmp(key, buf, recs[row].keyOff, entries[row].key);
    return cmp == 0;
  }

  /** `_KeyIndexTable_lookup_with_key_hash`. */
  method ProbeForKey(slots: array<int>, recs: array<Record>, buf: array<Byte>, hash: nat, key: Key,
                     ghost entries: seq<Entry>, ghost cur: nat)
    returns (r: int)
    requires IsPowerOf2(slots.Length) && 0 !in key
    requires forall p :: 0 <= p < slots.Length ==> EMPTY <= slots[p] < |entries|
    requires Recorded(recs[..], entries) && Stored(recs[..], entries, buf[..], cur)
    ensures r == Find(slots[..], Home(hash, slots.Length), 0, Hits(entries, hash, key))
  {
    ghost var s, hit := slots[..], Hits(entries, hash, key);
    var capacity := slots.Length;
    ghost var home := Home(hash, capacity);
    ghost var target := Find(s, home, 0, hit);
    assert And(hash, capacity - 1) == home;
    hide IsPowerOf2, Hits, Recorded, Stored, And, Home;
    var hidx := And(hash, capacity - 1);
    if slots[hidx] == EMPTY { return NOT_FOUND; }
    var probes := 0;
    while probes < capacity
      invariant 0 <= probes <= capacity
      invariant hidx == ProbeAt(home, probes, capacity)
      invariant target == Find(s, home, probes, hit)
    {
      var kidx := slots[hidx];
      assert kidx == s[hidx];
      if kidx == EMPTY { break; }
      var same := RecordMatches(recs, buf, kidx, hash, key, entries, cur);
      if same { return kidx; }
      MaskedStep(home, probes, capacity);
      probes := probes + 1;
      hidx := hidx + 1;
      hidx := And(hidx, capacity - 1);
    }
    return NOT_FOUND;
  }

  /** `_KeyIndexTable_rebuild_hidxtbl`: never fails. */
  method RebuildIndex(slots: array<int>, recs: array<Record>, entryCnt: nat, ghost core: Core)
    returns (st: int)
    requires Inv(core) && |core.slots| == slots.Length && entryCnt == |core.entries|
    requires Recorded(recs[..], core.entries) && recs as object != slots
    modifies slots
    ensures st == KIST_SUCCESS && slots[..] == Rebuild(core).slots
  {
    var capacity := slots.Length;
    ghost var was := recs[..];
    RebuiltUnfolds(core.entries, 0, capacity);
    st := InitSlots(slots, capacity);
    if st < 0 { return KIST_HIT_INIT_FAILURE; }
    var i := 0;
    while i < entryCnt
      invariant 0 <= i <= entryCnt
      invariant slots[..] == RebuiltSlots(core.entries, i, capacity)
      invariant recs[..] == was
    {
      RebuiltNext(core, i);
      assert recs[i] == was[i];
      if recs[i].state == InUse {
        st := InsertSlot(slots, capacity, recs[i].keyHash, i);
        if st < 0 { return KIST_HIT_INSERT_FAILED; }
      }
      i := i + 1;
    }
    return KIST_SUCCESS;
  }

  /** Write an appended entry's record and key bytes at the block just allocated for it. */
  method StoreKey(recs: array<Record>, buf: array<Byte>, row: nat, src: array<Byte>, at: nat, len: nat, hash: nat, off: nat,
                  ghost key: Key, ghost entries: seq<Entry>, ghost cur: nat)
    requires |entries| == row < recs.Length && len == |key| && cur <= off && off + len < buf.Length
    requires StringAt(src[..], at, key) && Copies(src, at, key, buf, off)
    requires Recorded(recs[..], entries) && Stored(recs[..], entries, buf[..], cur) && recs as object != buf
    modifies recs, buf
    ensures Recorded(recs[..], entries + [Entry(key, hash, true)])
    ensures Stored(recs[..], entries + [Entry(key, hash, true)], buf[..], off + |key| + 1)
    ensures forall i :: 0 <= i < row ==> recs[i].keyOff == old(recs[i].keyOff)
    ensures recs[row].keyOff == off
    ensures buf[..off] == old(buf[..off])
  {
    ghost var was, bytes := recs[..], buf[..];
    WriteString(buf, off, src, at, len, key);
    assert buf[..cur] == bytes[..cur] by { assert buf[..cur] == buf[..off][..cur]; }
    StoredFrame(was, entries, bytes, buf[..], cur, off + |key| + 1);
    recs[row] := Record(hash, off, InUse);
    assert recs[..] == was[row := Record(hash, off, InUse)];
  }

  /** Index the key and store it in its block. */
  method AppendKey(slots: array<int>, recs: array<Record>, buf: array<Byte>, row: nat, src: array<Byte>, at: nat, len: nat,
                   hash: nat, off: nat, ghost key: Key, ghost m: Core, ghost cur: nat)
    returns (st: int)
    requires slots[..] == m.slots && IsPowerOf2(slots.Length) && hash == Fnv.Hash32(key)
    requires FirstFree(m.slots, Home(hash, |m.slots|), 0) < |m.slots|
    requires |m.entries| == row < recs.Length && len == |key| && cur <= off && off + len < buf.Length
    requires StringAt(src[..], at, key) && Copies(src, at, key, buf, off)
    requires Recorded(recs[..], m.entries) && Stored(recs[..], m.entries, buf[..], cur)
    requires recs as object != buf && recs as object != slots && buf as object != slots
    requires src as object != slots && src as object != recs
    modifies slots, recs, buf
    ensures st == KIST_SUCCESS && slots[..] == Append(m, key).slots
    ensures Recorded(recs[..], Append(m, key).entries)
    ensures Stored(recs[..], Append(m, key).entries, buf[..], off + |key| + 1)
    ensures forall i :: 0 <= i < row ==> recs[i].keyOff == old(recs[i].keyOff)
    ensures recs[row].keyOff == off
    ensures buf[..cur] == old(buf[..cur])
  {
    hide Recorded, Stored, StringAt, Copies;
    st := InsertSlot(slots, slots.Length, hash, row);
    if st < 0 { return KIST_HIT_INSERT_FAILED; }
    StoreKey(recs, buf, row, src, at, len, hash, off, key, m.entries, cur);
    assert buf[..cur] == buf[..off][..cur];
  }

  /** Mark a record live or deleted; says whether it was a tombstone. */
  method SetState(recs: array<Record>, row: nat, live: bool, ghost entries: seq<Entry>, ghost bytes: seq<Byte>, ghost cur: nat)
    returns (wasDeleted: bool)
    requires row < |entries| && Recorded(recs[..], entries) && Stored(recs[..], entries, bytes, cur)
    modifies recs
    ensures Recorded(recs[..], entries[row := entries[row].(live := live)])
    ensures Stored(recs[..], entries[row := entries[row].(live := live)], bytes, cur)
    ensures forall i :: 0 <= i < recs.Length ==> recs[i].keyOff == old(recs[i].keyOff)
    ensures wasDeleted == !entries[row].live
  {
    ghost var was := recs[..];
    assert recs[row] == was[row];
    wasDeleted := recs[row].state == Deleted;
    recs[row] := recs[row].(state := if live then InUse else Deleted);
    assert recs[..] == was[row := recs[row]];
  }

  /** Whether the arena can supply a key of this length and its terminator. */
  predicate Room(a: Arena.Arena, key: Key)
    requires a.align > 0
  {
    a.Alloc(|key| + 1).1 >= 0
  }

  /** The string at an offset, its length found by `local_strlen`. */
  method ReadString(buf: array<Byte>, at: nat, ghost key: Key) returns (str: Key)
    requires StringAt(buf[..], at, key)
    ensures str == key
  {
    var len := StrLen(buf, at, key);
    str := buf[at..at + len];
  }

  /** What `_KeyIndexTable_init` asks of the arena, and whether it gets it. */
  function CarveTable(a: Arena.Arena, cap: nat): (Arena.Arena, bool)
    requires a.align > 0
  {
    Arena.AllocAll(a, [cap * 12, cap * 4])
  }

  /** That is twelve bytes a record and four an index slot, had exactly when both fit behind the
      cursor. */
  lemma CarveExact(a: Arena.Arena, cap: nat)
    requires Arena.Safe(a)
    ensures a.align > 0
    ensures var (b, ok) := CarveTable(a, cap);
      var sizes := [12 * cap, 4 * cap];
      && (ok <==> cap > 0 && Arena.StackEnd(a.cur, a.align, sizes) <= a.size)
      && (ok ==> b.cur == Arena.StackEnd(a.cur, a.align, sizes) && b.live == a.live + Arena.Stacked(a.cur, a.align, sizes))
  {
    hide Arena.Safe, Arena.StackEnd, Arena.Stacked, Arena.AllocAll, Arena.Grown;
    var sizes := [12 * cap, 4 * cap];
    assert sizes == [cap * 12, cap * 4] && sizes[0] == 12 * cap;
    Arena.AllocAllExact(a, sizes);
  }

  /** When the arena can supply a key. */
  lemma RoomIff(a: Arena.Arena, key: Key)
    requires Arena.Safe(a)
    ensures a.align > 0
    ensures Room(a, key) <==> AlignOffset(a.cur, a.align) + |key| + 1 <= a.size
  {
    hide Arena.Safe, AlignOffset;
    Arena.AllocEnds(a, |key| + 1);
  }

  method AllocateArrays(alloc: Arena.MemArena, cap: nat) returns (ok: bool)
    requires Arena.Safe(alloc.State())
    modifies alloc
    ensures Arena.Safe(alloc.State())
    ensures var (carved, fits) := CarveTable(old(alloc.State()), cap);
      && ok == fits && alloc.State() == (if ok then carved else carved.SetCur(Wrap32(old(alloc.cur))))
      && (!ok ==> (alloc.State() == old(alloc.State()).(allocs := carved.allocs) <==> old(alloc.cur) < DWORD))
      && (ok ==> cap * 12 <= alloc.buf.Length)
  {
    var mark := Wrap32(alloc.cur);
    ghost var before := alloc.State();
    Arena.AllocAllExact(before, [cap * 12, cap * 4]);
    hide Arena.NextAlloc, Arena.Safe, Arena.Grown, Arena.Below, Arena.AllocAll, Arena.Stacked, Arena.StackEnd;
    Arena.AllocEnds(before, cap * 12);
    Arena.AllocAllFirst(before, cap * 12, [cap * 4]);
    assert [cap * 12] + [cap * 4] == [cap * 12, cap * 4];
    var recP := alloc.AllocArr(cap, 12);
    Arena.AllocAllFirst(alloc.State(), cap * 4, []);
    assert [cap * 4] + [] == [cap * 4];
    var slotP := alloc.AllocArr(cap, 4);
    Arena.AllocAllFirst(alloc.State(), 0, []);
    ok := recP >= 0 && slotP >= 0;
    if !ok {
      Arena.NarrowMark(before, alloc.State());
      alloc.SetCur(mark);
    }
  }

  lemma StoreSizes(c: Core, key: Key)
    requires IsPowerOf2(|c.slots|)
    ensures |Append(c, key).entries| == |c.entries| + 1
    ensures forall i: nat :: i < |c.entries| ==> |Revive(c, i).entries| == |c.entries|
  {
  }

  /** Where the arena puts a block, told as the code finds it again: cursor minus length. */
  lemma KeyBlock(a: Arena.Arena, n: nat)
    requires Arena.Safe(a) && n > 0
    ensures var (b, off) := a.Alloc(n);
      && Arena.Safe(b) && b.size == a.size && b.align == a.align
      && (off >= 0 ==> a.cur <= off == AlignOffset(a.cur, a.align) == b.cur - n && b.cur <= b.size)
      && (off < 0 ==> b == a && off == Arena.NULL)
  {
    hide IsPowerOf2, AlignOffset;
    Arena.AllocatesAbove(a, n);
  }

  // ---- The table object ----

  class KeyIndexTable {
    const recs: array<Record>
    const slots: array<int>
    const capacity: nat
    const alloc: Arena.MemArena
    var entryCnt: nat
    var deletedCnt: nat
    ghost var model: Core

    ghost predicate Shape()
      reads this, slots, alloc
    {
      && recs as object != slots && recs as object != alloc.buf && slots as object != alloc.buf
      && recs.Length == slots.Length == capacity <= KIT_MAX_CAPACITY
      && entryCnt == |model.entries| <= capacity
      && deletedCnt == model.deleted
      && slots[..] == model.slots
      && Arena.Safe(alloc.State()) && alloc.buf.Length <= DWORD
    }

    ghost predicate Rows()
      reads this, recs, alloc, alloc.buf
    {
      Recorded(recs[..], model.entries) && Stored(recs[..], model.entries, alloc.buf[..], alloc.cur)
    }

    ghost predicate Valid()
      reads this, slots, recs, alloc, alloc.buf
    {
      Shape() && Rows() && Inv(model)
    }

    constructor Adopt(capacity: nat, alloc: Arena.MemArena)
      requires IsPowerOf2(capacity) && capacity <= KIT_MAX_CAPACITY
      requires Arena.Safe(alloc.State()) && alloc.buf.Length <= DWORD
      ensures this.capacity == capacity && this.alloc == alloc
      ensures fresh(recs) && fresh(slots)
      ensures Valid() && model == Fresh(capacity)
    {
      var recs := new Record[capacity](_ => Record(0, 0, Empty));
      var slots := new int[capacity];
      var st := InitSlots(slots, capacity);
      this.recs, this.slots, this.capacity, this.alloc := recs, slots, capacity, alloc;
      entryCnt, deletedCnt := 0, 0;
      model := Fresh(capacity);
      FreshInv(capacity);
    }

    /** `_KeyIndexTable_full` and `_KeyIndexTable_hidxtbl_should_rebuild`, in 32-bit arithmetic. */
    predicate Full()
      reads this
    {
      Wrap32(entryCnt * 4) >= Wrap32(capacity * 3)
    }

    predicate IndexShouldRebuild()
      reads this
    {
      Wrap32(deletedCnt * 2) >= entryCnt
    }

    method LookupWithHash(hash: nat, key: Key) returns (r: int)
      requires Valid() && 0 !in key && hash == Fnv.Hash32(key)
      ensures r == Locate(model, key)
    {
      r := ProbeForKey(slots, recs, alloc.buf, hash, key, model.entries, alloc.cur);
    }

    /** `_KeyIndexTable_lookup`, on the string at an offset of a buffer. */
    method LookupRaw(buf: array<Byte>, at: nat, ghost key: Key) returns (r: int)
      requires Valid() && StringAt(buf[..], at, key)
      ensures r == Locate(model, key)
    {
      var str := ReadString(buf, at, key);
      var hash := Fnv.ComputeHash32(str);
      r := LookupWithHash(hash, str);
    }

    /** The maintenance step of an insertion. */
    method Maintain() returns (st: int)
      requires Valid()
      modifies this`model, slots
      ensures Valid() && st == KIST_SUCCESS
      ensures model == Maintained(old(model))
    {
      MaintainedInv(model);
      assert IndexShouldRebuild() == ShouldRebuild(model);
      st := KIST_SUCCESS;
      if IndexShouldRebuild() {
        st := RebuildIndex(slots, recs, entryCnt, model);
        model := Rebuild(model);
      }
    }

    /** The string's copy would be exact: it is not in the free bytes where its own block would
        start later than it does, or it repeats itself at that distance. */
    ghost predicate Insertable(buf: array<Byte>, at: nat, key: Key)
      reads this, alloc
      requires Arena.Safe(alloc.State())
    {
      && buf as object != slots && buf as object != recs
      && Copies(buf, at, key, alloc.buf, AlignOffset(alloc.cur, alloc.align))
    }

    /** The tail of an insertion that found no entry: allocate, index, copy, append. */
    method InsertNew(buf: array<Byte>, at: nat, len: nat, hash: nat, ghost key: Key) returns (r: int)
      requires Valid() && StringAt(buf[..], at, key) && len == |key| && hash == Fnv.Hash32(key) && Insertable(buf, at, key)
      requires entryCnt < capacity && FirstFree(model.slots, Home(hash, |model.slots|), 0) < capacity
      requires Inv(Append(model, key))
      modifies this, recs, slots, alloc, alloc.buf
      ensures Valid()
      ensures if Room(old(alloc.State()), key) then
          && r == old(entryCnt) && model == Append(old(model), key)
          && alloc.State() == old(alloc.State()).Alloc(|key| + 1).0
        else
          && r == -3 && model == old(model) && alloc.State() == old(alloc.State())
      ensures r >= 0 ==> r < recs.Length && recs[r].keyOff == alloc.cur - |key| - 1
      ensures alloc.buf[..old(alloc.cur)] == old(alloc.buf[..alloc.cur])
      ensures forall i :: 0 <= i < old(entryCnt) ==> recs[i].keyOff == old(recs[i].keyOff)
    {
      hide Inv, Put, FirstFree, Home, IsPowerOf2, Recorded, Stored, Arena.Safe, Arena.NextAlloc, StringAt, Copies, AlignOffset;
      ghost var m := model;
      r := entryCnt;
      var mark := alloc.cur;
      CounterFits(m);
      KeyBlock(alloc.State(), len + 1);
      var cstr := alloc.Alloc(len + 1);
      if cstr == Arena.NULL { return ALLOC_FAILURE; }
      var keyOff := alloc.cur - (len + 1);
      var st := AppendKey(slots, recs, alloc.buf, r, buf, at, len, hash, keyOff, key, m, mark);
      if st < 0 { return KIST_HIT_INSERT_FAILED; }
      entryCnt := entryCnt + 1;
      model := Append(m, key);
    }

    /** The tail of an insertion that found an entry: make it live. */
    method ReviveEntry(kidx: nat)
      requires Valid() && kidx < entryCnt && Inv(Revive(model, kidx))
      modifies this, recs
      ensures Valid() && model == Revive(old(model), kidx)
      ensures forall i :: 0 <= i < recs.Length ==> recs[i].keyOff == old(recs[i].keyOff)
    {
      hide Inv, Recorded, Stored, Arena.Safe;
      var wasDeleted := SetState(recs, kidx, true, model.entries, alloc.buf[..], alloc.cur);
      if wasDeleted {
        deletedCnt := Wrap32(deletedCnt - 1);
      }
      model := Revive(model, kidx);
    }

    /** The part of an insertion after the maintenance step. */
    method InsertString(buf: array<Byte>, at: nat, ghost key: Key) returns (r: int)
      requires Valid() && StringAt(buf[..], at, key) && Insertable(buf, at, key)
      requires var i := Locate(model, key);
        if i >= 0 then i < entryCnt && Inv(Revive(model, i))
        else
          && entryCnt < capacity && Inv(Append(model, key))
          && FirstFree(model.slots, Home(Fnv.Hash32(key), |model.slots|), 0) < capacity
      modifies this, recs, slots, alloc, alloc.buf
      ensures Valid()
      ensures var m := old(model);
        var i := Locate(m, key);
        var room := Room(old(alloc.State()), key);
        && (if i >= 0 then r == i && model == Revive(m, i)
            else if room then r == |m.entries| && model == Append(m, key)
            else r == ALLOC_FAILURE && model == m)
        && alloc.State() == if i < 0 && room then old(alloc.State()).Alloc(|key| + 1).0 else old(alloc.State())
      ensures alloc.buf[..old(alloc.cur)] == old(alloc.buf[..alloc.cur])
      ensures forall i :: 0 <= i < old(entryCnt) ==> recs[i].keyOff == old(recs[i].keyOff)
    {
      hide Inv, Locate, Put, FirstFree, Home, IsPowerOf2, Room, Revive, Append, Copies, AlignOffset, Recorded, Stored;
      var str := ReadString(buf, at, key);
      var hash := Fnv.ComputeHash32(str);
      r := LookupWithHash(hash, str);
      if r < 0 {
        r := InsertNew(buf, at, |str|, hash, key);
      } else {
        ReviveEntry(r);
      }
    }

    /** `KeyIndexTable_insert`, of the string at an offset of a buffer, which may be one of the
        table's own keys. */
    method Insert(buf: array<Byte>, at: nat, ghost key: Key) returns (r: int)
      requires Valid() && StringAt(buf[..], at, key) && Insertable(buf, at, key)
      modifies this, recs, slots, alloc, alloc.buf
      ensures Valid()
      ensures (model, r) == TombstoneTable.Insert(old(model), key, Room(old(alloc.State()), key))
      ensures alloc.State() ==
        if |model.entries| > |old(model.entries)| then old(alloc.State()).Alloc(|key| + 1).0 else old(alloc.State())
      ensures alloc.buf[..old(alloc.cur)] == old(alloc.buf[..alloc.cur])
      ensures forall i :: 0 <= i < old(entryCnt) ==> recs[i].keyOff == old(recs[i].keyOff)
    {
      hide Inv, Locate, IsFull, Maintained, Put, TombstoneTable.Insert, FirstFree, Home, IsPowerOf2, Room, Stored, Recorded,
        StringAt, Copies, AlignOffset, Append, Revive, Wrap32, Arena.NextAlloc;
      ghost var was := model;
      CounterFits(was);
      Arena.PositiveAlign(alloc.State());
      ghost var room := Room(alloc.State(), key);
      InsertFull(was, key, room);
      if Full() { return FULL; }
      InsertCases(was, key, room);
      StoreSizes(Maintained(was), key);
      var st := Maintain();
      if st < 0 { return KIST_HIDXTBL_REBUILD_FAILED; }
      r := InsertString(buf, at, key);
    }

    /** `KeyIndexTable_remove`. */
    method Remove(buf: array<Byte>, at: nat, ghost key: Key) returns (r: int)
      requires Valid() && StringAt(buf[..], at, key)
      modifies this, recs
      ensures Valid()
      ensures (model, r) == TombstoneTable.Remove(old(model), key)
      ensures forall i :: 0 <= i < recs.Length ==> recs[i].keyOff == old(recs[i].keyOff)
    {
      hide Inv, Locate, Recorded, Stored, TombstoneTable.Remove, Arena.Safe, Wrap32, IsPowerOf2;
      RemoveCases(model, key);
      r := LookupRaw(buf, at, key);
      if r < 0 { return NOT_FOUND; }
      var wasDeleted := SetState(recs, r, false, model.entries, alloc.buf[..], alloc.cur);
      deletedCnt := Wrap32(deletedCnt + 1);
      model := TombstoneTable.Remove(model, key).0;
    }

    /** `KeyIndexTable_lookup`: hides tombstones. */
    method Lookup(buf: array<Byte>, at: nat, ghost key: Key) returns (r: int)
      requires Valid() && StringAt(buf[..], at, key)
      ensures r == TombstoneTable.Lookup(model, key)
    {
      LocateDecides(model, key);
      hide Inv, Locate, Holds;
      r := LookupRaw(buf, at, key);
      if r < 0 || recs[..][r].state != InUse { return NOT_FOUND; }
    }

    /** `KeyIndexTable_get_key_raw`: where the key of an appended entry is stored. */
    method GetKeyRaw(idx: nat) returns (off: Option<nat>)
      requires Valid()
      ensures off.Some? <==> idx < entryCnt
      ensures off.Some? ==> idx < recs.Length && off.value == recs[idx].keyOff
      ensures off.Some? ==> StringAt(alloc.buf[..], off.value, model.entries[idx].key)
    {
      if idx >= entryCnt { return None; }
      assert recs[..][idx] == recs[idx];
      return Some(recs[idx].keyOff);
    }

    /** `KeyIndexTable_get_key`: non-NULL exactly when the entry's key is live, be it at this
        index or, for a tombstone, at a later one. */
    method GetKey(idx: nat) returns (off: Option<nat>)
      requires Valid()
      ensures off.Some? <==> idx < entryCnt && TombstoneTable.Lookup(model, model.entries[idx].key) >= 0
      ensures off.Some? ==> StringAt(alloc.buf[..], off.value, model.entries[idx].key)
    {
      if idx >= entryCnt { return None; }
      hide Inv, Recorded;
      var raw := GetKeyRaw(idx);
      var kidx := Lookup(alloc.buf, raw.value, model.entries[idx].key);
      if kidx < 0 { return None; }
      return raw;
    }

    /** `KeyIndexTable_init`: the capacity is rounded up to a power of two; on failure the arena's
        cursor goes back to its old value modulo 2^32. A capacity whose indices would not fit 32
        signed bits needs more memory than the arena can have. */
    static method Init(capacity: nat, alloc: Arena.MemArena) returns (st: int, t: KeyIndexTable?)
      requires capacity <= MAX_CAPACITY && Arena.Safe(alloc.State()) && alloc.buf.Length <= DWORD
      modifies alloc
      ensures Arena.Safe(alloc.State())
      ensures var cap := if IsPowerOf2(capacity) then capacity else DwordNextPow2(capacity);
        var (carved, ok) := CarveTable(old(alloc.State()), cap);
        if ok then
          && st == 0 && alloc.State() == carved
          && t != null && fresh(t) && t.Valid() && t.capacity == cap && t.alloc == alloc && t.model == Fresh(cap)
        else
          && st == -3 && t == null
          && alloc.State() == carved.SetCur(Wrap32(old(alloc.cur)))
          && (alloc.State() == old(alloc.State()).(allocs := carved.allocs) <==> old(alloc.cur) < DWORD)
    {
      var cap := capacity;
      if !IsPowerOf2(cap) {
        NextPow2Least(cap);
        cap := DwordNextPow2(cap);
      }
      hide IsPowerOf2, DwordNextPow2, CarveTable, Arena.Safe;
      var ok := AllocateArrays(alloc, cap);
      if !ok { return ALLOC_FAILURE, null; }
      t := new KeyIndexTable.Adopt(cap, alloc);
      return KIST_SUCCESS, t;
    }
  }
}
