/** The growing key/value table as an object: entry records, hash index and private arena. */
module KvTable {
  import opened Bits
  import opened Wrappers
  import opened HashIndex
  import opened KvModel
  import Fnv
  import Arena = MemArena

  const HIT_INSERT_FAILED: int := -10
  const STAT_INUSE: nat := 1
  const STAT_DELETED: nat := 2

  /** An entry of the table: where its key and value lie in the arena, and its state. */
  datatype KvRec = KvRec(keyLen: nat, keyOff: nat, valLen: nat, valOff: nat, keyHash: nat, stat: nat)

  // ---- Records and bytes ----

  function RecFor(pairs: seq<Pair>, i: nat): KvRec
    requires i < |pairs|
  {
    KvRec(|pairs[i].key|, KeyOff(pairs, i), |pairs[i].val|, ValOff(pairs, i),
          Fnv.Hash32(pairs[i].key), if pairs[i].live then STAT_INUSE else STAT_DELETED)
  }

  ghost predicate RecIs(r: KvRec, pairs: seq<Pair>, i: nat)
    requires i < |pairs|
  {
    r == RecFor(pairs, i)
  }

  ghost predicate Recorded(recs: seq<KvRec>, pairs: seq<Pair>) {
    |pairs| <= |recs| && forall i :: 0 <= i < |pairs| ==> RecIs(recs[i], pairs, i)
  }

  ghost predicate PairAt(bytes: seq<Byte>, pairs: seq<Pair>, i: nat)
    requires i < |pairs|
  {
    BytesAt(bytes, KeyOff(pairs, i), pairs[i].key) && BytesAt(bytes, ValOff(pairs, i), pairs[i].val)
  }

  /** Every appended pair's bytes are at its offsets, dead pairs included. */
  ghost predicate Stored(bytes: seq<Byte>, pairs: seq<Pair>) {
    forall i :: 0 <= i < |pairs| ==> PairAt(bytes, pairs, i)
  }

  ghost predicate TermAt(bytes: seq<Byte>, pairs: seq<Pair>, i: nat)
    requires i < |pairs|
  {
    BytesAt(bytes, KeyOff(pairs, i) + |pairs[i].key|, [0]) && BytesAt(bytes, ValOff(pairs, i) + |pairs[i].val|, [0])
  }

  /** Every key and value is followed by a NUL. */
  ghost predicate Terminated(bytes: seq<Byte>, pairs: seq<Pair>) {
    forall i :: 0 <= i < |pairs| ==> TermAt(bytes, pairs, i)
  }

  lemma BytesAtFrame(bytes: seq<Byte>, bytes': seq<Byte>, off: nat, s: seq<Byte>, n: nat)
    requires BytesAt(bytes, off, s) && off + |s| <= n <= |bytes| == |bytes'| && bytes[..n] == bytes'[..n]
    ensures BytesAt(bytes', off, s)
  {
    assert bytes'[off..off + |s|] == bytes'[..n][off..off + |s|];
    assert bytes[off..off + |s|] == bytes[..n][off..off + |s|];
  }

  /** An earlier pair keeps its bytes when another is appended beyond the end of the layout. */
  lemma PairFrame(bytes: seq<Byte>, bytes': seq<Byte>, pairs: seq<Pair>, p: Pair, i: nat)
    requires i < |pairs| && RoomFits(pairs[i]) && PairAt(bytes, pairs, i) && TermAt(bytes, pairs, i)
    requires End(pairs) <= |bytes| == |bytes'| && bytes[..End(pairs)] == bytes'[..End(pairs)]
    ensures PairAt(bytes', pairs + [p], i) && TermAt(bytes', pairs + [p], i)
  {
    hide KeyOff, ValOff, End, BytesAt;
    OffsetsExtend(pairs, p, i);
    PairWithin(pairs, i);
    var n, key, val := End(pairs), pairs[i].key, pairs[i].val;
    assert (pairs + [p])[i] == pairs[i];
    BytesAtFrame(bytes, bytes', KeyOff(pairs, i), key, n);
    BytesAtFrame(bytes, bytes', ValOff(pairs, i), val, n);
    BytesAtFrame(bytes, bytes', KeyOff(pairs, i) + |key|, [0], n);
    BytesAtFrame(bytes, bytes', ValOff(pairs, i) + |val|, [0], n);
  }

  lemma PairNew(bytes: seq<Byte>, pairs: seq<Pair>, p: Pair)
    requires BytesAt(bytes, KeyOff(pairs + [p], |pairs|), p.key + [0])
    requires BytesAt(bytes, ValOff(pairs + [p], |pairs|), p.val + [0])
    ensures PairAt(bytes, pairs + [p], |pairs|) && TermAt(bytes, pairs + [p], |pairs|)
  {
    hide KeyOff, ValOff, BytesAt;
    var q, n := pairs + [p], |pairs|;
    assert q[n] == p;
    SplitTerminated(bytes, KeyOff(q, n), p.key);
    SplitTerminated(bytes, ValOff(q, n), p.val);
  }

  /** Writing a pair at its place after the layout's end keeps all others stored. */
  lemma StoredAppend(bytes: seq<Byte>, bytes': seq<Byte>, pairs: seq<Pair>, p: Pair)
    requires Roomy(pairs) && Stored(bytes, pairs) && Terminated(bytes, pairs)
    requires End(pairs) <= |bytes| == |bytes'| && bytes[..End(pairs)] == bytes'[..End(pairs)]
    requires BytesAt(bytes', KeyOff(pairs + [p], |pairs|), p.key + [0])
    requires BytesAt(bytes', ValOff(pairs + [p], |pairs|), p.val + [0])
    ensures Stored(bytes', pairs + [p]) && Terminated(bytes', pairs + [p])
  {
    hide PairAt, TermAt, KeyOff, ValOff, End, BytesAt, RoomFits;
    var q := pairs + [p];
    PairNew(bytes', pairs, p);
    forall i | 0 <= i < |q| ensures PairAt(bytes', q, i) && TermAt(bytes', q, i) {
      if i < |pairs| {
        PairFrame(bytes, bytes', pairs, p, i);
      }
    }
  }

  lemma SplitTerminated(bytes: seq<Byte>, off: nat, s: seq<Byte>)
    requires BytesAt(bytes, off, s + [0])
    ensures BytesAt(bytes, off, s) && BytesAt(bytes, off + |s|, [0])
  {
    var w := bytes[off..off + |s| + 1];
    assert w[..|s|] == s && bytes[off..off + |s|] == w[..|s|];
    assert bytes[off + |s|] == w[|s|] == 0;
  }

  lemma RecordedAppend(recs: seq<KvRec>, pairs: seq<Pair>, p: Pair, r: KvRec)
    requires Recorded(recs, pairs) && |pairs| < |recs| && RecIs(r, pairs + [p], |pairs|)
    ensures Recorded(recs[|pairs| := r], pairs + [p])
  {
    hide KeyOff, ValOff;
    var q, recs' := pairs + [p], recs[|pairs| := r];
    forall i | 0 <= i < |q| ensures RecIs(recs'[i], q, i) {
      if i < |pairs| {
        OffsetsExtend(pairs, p, i);
        assert RecIs(recs[i], pairs, i);
      }
    }
  }

  lemma MarkKeepsOffsets(pairs: seq<Pair>, i: nat, j: nat)
    requires i < |pairs| && j < |pairs|
    ensures var q := pairs[i := pairs[i].(live := false)];
      KeyOff(q, j) == KeyOff(pairs, j) && ValOff(q, j) == ValOff(pairs, j) && q[j].key == pairs[j].key && q[j].val == pairs[j].val
  {
    var q := pairs[i := pairs[i].(live := false)];
    SameLengthsSameEnd(pairs[..j], q[..j]);
    hide End, Align4;
  }

  /** Marking a pair dead affects neither offsets nor bytes. */
  lemma StoredMark(recs: seq<KvRec>, bytes: seq<Byte>, pairs: seq<Pair>, i: nat)
    requires i < |pairs| && Recorded(recs, pairs) && Stored(bytes, pairs)
    ensures var q := pairs[i := pairs[i].(live := false)];
      && Recorded(recs[i := recs[i].(stat := STAT_DELETED)], q) && Stored(bytes, q)
      && (Terminated(bytes, pairs) ==> Terminated(bytes, q))
  {
    hide KeyOff, ValOff, BytesAt;
    var q, recs' := pairs[i := pairs[i].(live := false)], recs[i := recs[i].(stat := STAT_DELETED)];
    forall j | 0 <= j < |q| ensures RecIs(recs'[j], q, j) {
      MarkKeepsOffsets(pairs, i, j);
      assert RecIs(recs[j], pairs, j);
    }
    forall j | 0 <= j < |q| ensures PairAt(bytes, q, j) {
      MarkKeepsOffsets(pairs, i, j);
      assert PairAt(bytes, pairs, j);
    }
    if Terminated(bytes, pairs) {
      forall j | 0 <= j < |q| ensures TermAt(bytes, q, j) {
        MarkKeepsOffsets(pairs, i, j);
        assert TermAt(bytes, pairs, j);
      }
    }
  }

  /** `memcmp` of a key with bytes of the arena, zero exactly when they are equal. */
  method MemCmp(buf: array<Byte>, off: nat, key: Key) returns (same: bool)
    requires off + |key| <= buf.Length
    ensures same <==> buf[off..off + |key|] == key
  {
    var i := 0;
    while i < |key|
      invariant 0 <= i <= |key|
      invariant buf[off..off + i] == key[..i]
    {
      if buf[off + i] != key[i] {
        assert buf[off..off + |key|][i] != key[i];
        return false;
      }
      assert buf[off..off + i + 1] == buf[off..off + i] + [buf[off + i]];
      i := i + 1;
    }
    return true;
  }

  /** `memcpy` of a string and its terminator into the arena. */
  method MemCpy(buf: array<Byte>, off: nat, s: seq<Byte>)
    requires off + |s| < buf.Length
    modifies buf
    ensures BytesAt(buf[..], off, s + [0])
    ensures buf[..off] == old(buf[..off])
    ensures buf[off + |s| + 1..] == old(buf[off + |s| + 1..])
  {
    var i := 0;
    while i < |s|
      invariant 0 <= i <= |s|
      invariant forall j :: 0 <= j < i ==> buf[off + j] == s[j]
      invariant buf[..off] == old(buf[..off])
      invariant buf[off + |s| + 1..] == old(buf[off + |s| + 1..])
    {
      buf[off + i] := s[i];
      i := i + 1;
    }
    buf[off + |s|] := 0;
    assert forall j :: 0 <= j < |s| + 1 ==> buf[..][off..off + |s| + 1][j] == (s + [0])[j];
  }

  /** What a lookup accepts among some records over some bytes. */
  ghost function RecHits(recs: seq<KvRec>, bytes: seq<Byte>, key: Key): set<int> {
    set i | 0 <= i < |recs| && recs[i].stat == STAT_INUSE && recs[i].keyHash == Fnv.Hash32(key)
            && recs[i].keyLen == |key| && BytesAt(bytes, recs[i].keyOff, key)
  }

  ghost predicate KeysInside(recs: seq<KvRec>, bytes: seq<Byte>) {
    forall i :: 0 <= i < |recs| ==> recs[i].keyOff + recs[i].keyLen <= |bytes|
  }

  /** In a table that holds pairs these are the live pairs with the key. */
  lemma RecHitsAre(recs: seq<KvRec>, bytes: seq<Byte>, pairs: seq<Pair>, key: Key)
    requires |recs| == |pairs| && Recorded(recs, pairs) && Stored(bytes, pairs)
    ensures KeysInside(recs, bytes) && RecHits(recs, bytes, key) == LiveHits(pairs, key)
  {
    hide KeyOff, ValOff;
    forall i | 0 <= i < |recs|
      ensures recs[i].keyOff + recs[i].keyLen <= |bytes| && (i in RecHits(recs, bytes, key) <==> i in LiveHits(pairs, key))
    {
      assert RecIs(recs[i], pairs, i) && PairAt(bytes, pairs, i);
    }
  }

  lemma RecordedSlice(recs: seq<KvRec>, pairs: seq<Pair>)
    requires Recorded(recs, pairs)
    ensures |pairs| <= |recs| && Recorded(recs[..|pairs|], pairs)
  {
    hide RecIs;
  }

  /** The test a lookup makes at each occupied slot. */
  method RecMatches(recs: array<KvRec>, buf: array<Byte>, row: nat, hash: nat, key: Key, ghost cnt: nat)
    returns (same: bool)
    requires row < cnt <= recs.Length && hash == Fnv.Hash32(key) && KeysInside(recs[..cnt], buf[..])
    ensures same == (row in RecHits(recs[..cnt], buf[..], key))
  {
    assert recs[row] == recs[..cnt][row];
    var r := recs[row];
    if r.stat != STAT_INUSE || r.keyHash != hash || r.keyLen != |key| { return false; }
    same := MemCmp(buf, r.keyOff, key);
    assert buf[..][r.keyOff..r.keyOff + |key|] == buf[r.keyOff..r.keyOff + |key|];
  }

  /** `KVEntry_lookup`, over any records whose keys lie in the arena. */
  method EntryLookup(slots: array<int>, recs: array<KvRec>, buf: array<Byte>, key: Key, ghost cnt: nat)
    returns (r: int)
    requires IsPowerOf2(slots.Length) && cnt <= recs.Length && KeysInside(recs[..cnt], buf[..])
    requires forall p :: 0 <= p < slots.Length ==> EMPTY <= slots[p] < cnt
    ensures r == Find(slots[..], Home(Fnv.Hash32(key), slots.Length), 0, RecHits(recs[..cnt], buf[..], key))
  {
    var hash := Fnv.ComputeHash32(key);
    ghost var s, hit := slots[..], RecHits(recs[..cnt], buf[..], key);
    var capacity := slots.Length;
    ghost var home := Home(hash, capacity);
    ghost var target := Find(s, home, 0, hit);
    assert And(hash, capacity - 1) == home;
    hide IsPowerOf2, RecHits, KeysInside, And, Home;
    var hidx := And(hash, capacity - 1);
    if slots[hidx] == EMPTY { return NOT_FOUND; }
    var probes := 0;
    while probes < capacity
      invariant 0 <= probes <= capacity
      invariant hidx == ProbeAt(home, probes, capacity)
      invariant target == Find(s, home, probes, hit)
    {
      var kidx := slots[hidx];
      assert kidx == s[hidx];
      if kidx < 0 { break; }
      var same := RecMatches(recs, buf, kidx, hash, key, cnt);
      if same { return kidx; }
      MaskedStep(home, probes, capacity);
      probes := probes + 1;
      hidx := hidx + 1;
      hidx := And(hidx, capacity - 1);
    }
    return NOT_FOUND;
  }

  /** Index a pair and write its record and bytes: `_KVTable_insert` after its allocations. */
  method StorePair(slots: array<int>, recs: array<KvRec>, buf: array<Byte>, row: nat, key: Key, val: Value,
                   keyOff: nat, valOff: nat, ghost t: Kv)
    returns (st: int)
    requires slots[..] == t.slots && IsPowerOf2(slots.Length) && row == |t.pairs| < recs.Length
    requires FirstFree(t.slots, Home(Fnv.Hash32(key), |t.slots|), 0) < |t.slots|
    requires Roomy(t.pairs) && Recorded(recs[..], t.pairs) && Stored(buf[..], t.pairs) && Terminated(buf[..], t.pairs)
    requires recs as object != buf && recs as object != slots && buf as object != slots
    requires var q := t.pairs + [NewPair(key, val)];
      keyOff == KeyOff(q, row) && valOff == ValOff(q, row) && End(t.pairs) <= keyOff && valOff + |val| < buf.Length
    requires keyOff + |key| < valOff
    modifies slots, recs, buf
    ensures st == SUCCESS && slots[..] == Append(t, key, val).slots
    ensures var q := t.pairs + [NewPair(key, val)];
      Recorded(recs[..], q) && Stored(buf[..], q) && Terminated(buf[..], q)
  {
    ghost var p := NewPair(key, val);
    ghost var q := t.pairs + [p];
    ghost var bytes, records := buf[..], recs[..];
    hide Recorded, Stored, Terminated, KeyOff, ValOff, End, Put, FirstFree, Home, IsPowerOf2, BytesAt, LiveHits, Locate;
    var hash := Fnv.ComputeHash32(key);
    var used;
    st, used := InsertSlotCounted(slots, slots.Length, 0, hash, row);
    if st < 0 { return; }
    recs[row] := KvRec(|key|, keyOff, |val|, valOff, hash, STAT_INUSE);
    RecordedAppend(records, t.pairs, p, recs[row]);
    assert recs[..] == records[row := recs[row]];
    WritePair(buf, key, val, keyOff, valOff, End(t.pairs));
    StoredAppend(bytes, buf[..], t.pairs, p);
  }

  /** Copy a key and then a value, each with a terminator, beyond the bytes below `n`. */
  method WritePair(buf: array<Byte>, key: Key, val: Value, keyOff: nat, valOff: nat, ghost n: nat)
    requires n <= keyOff && keyOff + |key| < valOff && valOff + |val| < buf.Length
    modifies buf
    ensures BytesAt(buf[..], keyOff, key + [0]) && BytesAt(buf[..], valOff, val + [0])
    ensures buf[..n] == old(buf[..n])
  {
    ghost var bytes := buf[..];
    MemCpy(buf, keyOff, key);
    assert buf[..n] == buf[..keyOff][..n] == bytes[..keyOff][..n] == bytes[..n];
    ghost var mid := buf[..];
    MemCpy(buf, valOff, val);
    assert buf[..n] == buf[..valOff][..n] == mid[..valOff][..n] == mid[..n];
    assert buf[..][..valOff] == mid[..valOff];
    BytesAtFrame(mid, buf[..], keyOff, key + [0], valOff);
  }

  method MarkDeadRow(recs: array<KvRec>, row: nat, ghost bytes: seq<Byte>, ghost pairs: seq<Pair>)
    requires row < |pairs| <= recs.Length && Recorded(recs[..], pairs) && Stored(bytes, pairs)
    modifies recs
    ensures var q := pairs[row := pairs[row].(live := false)];
      && Recorded(recs[..], q) && Stored(bytes, q)
      && (Terminated(bytes, pairs) ==> Terminated(bytes, q))
  {
    ghost var was := recs[..];
    hide Recorded, Stored, Terminated;
    StoredMark(was, bytes, pairs, row);
    recs[row] := recs[row].(stat := STAT_DELETED);
    assert recs[..] == was[row := was[row].(stat := STAT_DELETED)];
  }

  /** The two allocations of an insertion, rolled back unless both succeed, which they do exactly
      when the pair fits. */
  method AllocatePair(arena: Arena.MemArena, keyLen: nat, valLen: nat) returns (keyOff: int, valOff: int)
    requires Arena.Safe(arena.State()) && arena.align == MEM_ALIGN
    modifies arena
    ensures Arena.Safe(arena.State())
    ensures if Fits(old(arena.cur), arena.buf.Length, keyLen, valLen) then
        && keyOff == Align4(old(arena.cur)) && valOff == Align4(keyOff + keyLen + 1)
        && arena.cur == valOff + valLen + 1 == EndAfter(old(arena.cur), keyLen, valLen) <= arena.buf.Length
      else
        keyOff == Arena.NULL && arena.cur == old(arena.cur)
  {
    hide Arena.Safe, Arena.NextAlloc, EndAfter, Fits, Align4;
    var mark := arena.cur;
    TwoAllocations(arena.State(), keyLen, valLen);
    keyOff := arena.Alloc(keyLen + 1);
    valOff := arena.Alloc(valLen + 1);
    if keyOff == Arena.NULL || valOff == Arena.NULL {
      arena.SetCur(mark);
      return Arena.NULL, Arena.NULL;
    }
  }

  lemma TwoAllocations(a: Arena.Arena, keyLen: nat, valLen: nat)
    requires Arena.Safe(a) && a.align == MEM_ALIGN
    ensures var (b, keyOff) := a.Alloc(keyLen + 1);
      var (c, valOff) := b.Alloc(valLen + 1);
      && b.align == a.align && Arena.Safe(b) && Arena.Safe(c) && a.cur <= c.cur
      && c.align == a.align && c.size == a.size && a.cur <= b.cur
      && (keyOff >= 0 && valOff >= 0 <==> Fits(a.cur, a.size, keyLen, valLen))
      && (keyOff >= 0 && valOff >= 0 ==>
            && keyOff == Align4(a.cur) && valOff == Align4(keyOff + keyLen + 1)
            && c.cur == valOff + valLen + 1 == EndAfter(a.cur, keyLen, valLen) <= a.size)
      && (keyOff < 0 ==> keyOff == Arena.NULL) && (valOff < 0 ==> valOff == Arena.NULL)
  {
    hide Arena.Safe, Align4, Arena.NextAlloc;
    AllocationIs(a, keyLen + 1);
    AllocationIs(a.Alloc(keyLen + 1).0, valLen + 1);
  }

  lemma AllocationIs(a: Arena.Arena, n: nat)
    requires Arena.Safe(a) && a.align == MEM_ALIGN && n > 0
    ensures var (b, off) := a.Alloc(n);
      && Arena.Safe(b) && b.align == a.align && b.size == a.size && a.cur <= b.cur
      && (off >= 0 <==> Align4(a.cur) + n <= a.size)
      && (off >= 0 ==> off == Align4(a.cur) && b.cur == off + n)
      && (off < 0 ==> off == Arena.NULL && b == a)
  {
    Arena.AllocatesAbove(a, n);
    hide Arena.Safe, AlignOffset;
  }

  // ---- The table object ----

  class KVTable {
    const recs: array<KvRec>
    const slots: array<int>
    const arena: Arena.MemArena
    const kvcap: nat
    var kvcnt: nat
    ghost var model: Kv
    ghost var destroyed: bool
    ghost var fromFile: bool

    ghost predicate Shape()
      reads this, slots, arena
    {
      && recs as object != slots && recs as object != arena.buf && slots as object != arena.buf
      && recs.Length == slots.Length == kvcap
      && kvcnt == |model.pairs| && slots[..] == model.slots
      && Arena.Safe(arena.State()) && arena.align == MEM_ALIGN
      && arena.cur == model.cur && arena.buf.Length == model.size
    }

    ghost predicate Rows()
      reads this, recs, arena, arena.buf
    {
      && Recorded(recs[..], model.pairs) && Stored(arena.buf[..], model.pairs)
      && (fromFile || Terminated(arena.buf[..], model.pairs))
    }

    ghost predicate Valid()
      reads this, slots, recs, arena, arena.buf
    {
      !destroyed && Shape() && Rows() && KvInv(model) && if fromFile then Loaded(model) else Built(model)
    }

    constructor Adopt(kvcap: nat, memSize: nat)
      requires IsPowerOf2(kvcap) && memSize > 0
      ensures Valid() && model == EmptyKv(kvcap, memSize) && this.kvcap == kvcap && !fromFile
      ensures fresh(recs) && fresh(slots) && fresh(arena) && fresh(arena.buf)
    {
      var recs := new KvRec[kvcap](_ => KvRec(0, 0, 0, 0, 0, 0));
      var slots := new int[kvcap];
      var st := InitSlots(slots, kvcap);
      var buf := new Byte[memSize](_ => 0);
      var arena := new Arena.MemArena(buf, MEM_ALIGN);
      this.recs, this.slots, this.arena, this.kvcap := recs, slots, arena, kvcap;
      kvcnt, destroyed, fromFile := 0, false, false;
      model := EmptyKv(kvcap, memSize);
      EmptyKvInv(kvcap, memSize);
      Four();
    }

    /** `KVTable_create`: rejects an empty memory and a capacity that is no power of two. */
    static method Create(kvcap: nat, memSize: nat) returns (t: KVTable?)
      ensures t != null <==> memSize > 0 && IsPowerOf2(kvcap)
      ensures t != null ==>
        && fresh(t) && fresh(t.recs) && fresh(t.slots) && fresh(t.arena) && fresh(t.arena.buf)
        && t.Valid() && t.model == EmptyKv(kvcap, memSize) && t.kvcap == kvcap
    {
      if memSize == 0 || !IsPowerOf2(kvcap) { return null; }
      t := new KVTable.Adopt(kvcap, memSize);
    }

    /** `KVTable_destroy`: afterwards the handle is dangling. */
    ghost method Destroy()
      requires Valid()
      modifies this`destroyed
      ensures destroyed
    {
      destroyed := true;
    }

    method EntryIndex(key: Key) returns (r: int)
      requires Valid()
      ensures r == Locate(model, key)
    {
      hide Recorded, Stored, Terminated;
      RecordedSlice(recs[..], model.pairs);
      RecHitsAre(recs[..kvcnt], arena.buf[..], model.pairs, key);
      r := EntryLookup(slots, recs, arena.buf, key, kvcnt);
    }

    /** `KVTable_lookup`: the entry's index and where its value lies. */
    method Lookup(key: Key) returns (kidx: int, valOff: nat, valLen: nat)
      requires Valid()
      ensures kidx == Locate(model, key)
      ensures match KvModel.Lookup(model, key)
        case None => kidx == -11
        case Some(v) => kidx >= 0 && valLen == |v| && BytesAt(arena.buf[..], valOff, v)
    {
      hide KvInv, Locate, KeyOff, ValOff, BytesAt;
      LocateDecidesInv(model, key);
      kidx := EntryIndex(key);
      if kidx < 0 { return kidx, 0, 0; }
      assert RecIs(recs[..][kidx], model.pairs, kidx) && PairAt(arena.buf[..], model.pairs, kidx);
      return kidx, recs[kidx].valOff, recs[kidx].valLen;
    }

    /** `KVTable_remove`. */
    method Remove(key: Key) returns (kidx: int)
      requires Valid()
      modifies this`model, recs
      ensures Valid()
      ensures (model, kidx) == KvModel.Remove(old(model), key)
    {
      hide KvInv, Locate, Built, Loaded, Recorded, Stored, Terminated;
      LocateDecidesInv(model, key);
      RemoveInv(model, key);
      kidx := EntryIndex(key);
      if kidx < 0 { return NOT_FOUND; }
      MarkDeadRow(recs, kidx, arena.buf[..], model.pairs);
      model := KvModel.Remove(model, key).0;
    }

    /** `_KVTable_insert`: appends the pair if its two allocations succeed, and otherwise leaves
        the table and the arena's cursor as they were. */
    method RawInsert(key: Key, val: Value) returns (r: int)
      requires Valid() && Built(model) && kvcnt < kvcap && forall i :: !LiveAt(model, key, i)
      modifies this`kvcnt, this`model, recs, slots, arena, arena.buf
      ensures Valid() && Built(model)
      ensures if Fits(old(model.cur), old(model.size), |key|, |val|) then
          r == old(kvcnt) && model == Append(old(model), key, val)
        else
          r == -3 && model == old(model)
    {
      hide KvInv, Recorded, Stored, Terminated, EndAfter, Arena.Safe, Home, FirstFree, IsPowerOf2, Append,
        KeyOff, ValOff, Fits, End, Align4;
      ghost var t := model;
      AppendReady(t, key, val);
      AppendPlaces(t, key, val);
      r := kvcnt;
      var keyOff, valOff := AllocatePair(arena, |key|, |val|);
      if keyOff == Arena.NULL { return ALLOC_FAILURE; }
      assert !fromFile;
      var st := StorePair(slots, recs, arena.buf, r, key, val, keyOff, valOff, t);
      if st < 0 { return HIT_INSERT_FAILED; }
      kvcnt := kvcnt + 1;
      model := Append(t, key, val);
    }

    /** `_KVTable_copy`: append copies of the source's live entries, in order, to this fresh table. */
    method CopyFrom(src: KVTable) returns (ok: bool)
      requires Valid() && src.Valid() && {this, recs, slots, arena, arena.buf} !! {src, src.recs, src.slots, src.arena, src.arena.buf}
      requires model == EmptyKv(kvcap, model.size) && |src.model.pairs| <= kvcap
      modifies this`kvcnt, this`model, recs, slots, arena, arena.buf
      ensures Valid()
      ensures var copy := CopyInto(kvcap, old(model.size), src.model.pairs);
        ok == copy.1 && (ok ==> model == copy.0 && Built(model))
    {
      hide KvInv, Recorded, Stored, Terminated, Arena.Safe, IsPowerOf2, Append, KeyOff, ValOff, Fits, End, CopyInto,
        LiveDistinct, BytesAt, PairAt, EmptyKv;
      ghost var pairs, size := src.model.pairs, model.size;
      CopyStart(kvcap, size, pairs, src.model);
      var i := 0;
      while i < src.kvcnt
        invariant 0 <= i <= src.kvcnt
        invariant src.model == old(src.model) && src.Valid()
        invariant Valid() && (model, true) == CopyInto(kvcap, size, pairs[..i])
      {
        CopyStep(kvcap, size, pairs, i);
        var r := src.ReadRec(i);
        if r.stat != STAT_DELETED {
          var key := src.arena.buf[r.keyOff..r.keyOff + r.keyLen];
          var val := src.arena.buf[r.valOff..r.valOff + r.valLen];
          var kidx := RawInsert(key, val);
          if kidx < 0 { return false; }
        }
        i := i + 1;
      }
      assert pairs[..i] == pairs;
      CopyEnd(kvcap, size, pairs, src.model);
      return true;
    }

    /** The record of an appended entry, and what its offsets lead to. */
    method ReadRec(i: nat) returns (r: KvRec)
      requires Valid() && i < kvcnt
      ensures r.stat == (if model.pairs[i].live then STAT_INUSE else STAT_DELETED)
      ensures r.keyOff + r.keyLen <= arena.buf.Length && arena.buf[r.keyOff..r.keyOff + r.keyLen] == model.pairs[i].key
      ensures r.valOff + r.valLen <= arena.buf.Length && arena.buf[r.valOff..r.valOff + r.valLen] == model.pairs[i].val
    {
      hide KvInv, KeyOff, ValOff, End;
      r := recs[i];
      assert r == recs[..][i] && RecIs(r, model.pairs, i) && PairAt(arena.buf[..], model.pairs, i);
      assert arena.buf[..][r.keyOff..r.keyOff + r.keyLen] == arena.buf[r.keyOff..r.keyOff + r.keyLen];
      assert arena.buf[..][r.valOff..r.valOff + r.valLen] == arena.buf[r.valOff..r.valOff + r.valLen];
    }
  }

  /** A fresh table of the given dimensions holding copies of the table's live entries in order;
      `null` if they do not fit. The source is left as it was. */
  method CopyOut(t: KVTable, cap: nat, size: nat) returns (u: KVTable?)
    requires t.Valid() && IsPowerOf2(cap) && size > 0 && |t.model.pairs| <= cap
    ensures u != null ==>
      && fresh(u) && fresh(u.recs) && fresh(u.slots) && fresh(u.arena) && fresh(u.arena.buf)
      && u.Valid() && Built(u.model) && u.model == CopyInto(cap, size, t.model.pairs).0
    ensures u != null <==> CopyInto(cap, size, t.model.pairs).1
  {
    hide KvInv, Recorded, Stored, Terminated, Arena.Safe, CopyInto, EmptyKv, Built;
    u := KVTable.Create(cap, size);
    assert u != null;
    assert u.model.size == size by { EmptyFields(cap, size); }
    var ok := u.CopyFrom(t);
    if !ok { return null; }
  }

  lemma EmptyFields(cap: nat, size: nat)
    ensures EmptyKv(cap, size).size == size && |EmptyKv(cap, size).slots| == cap
  {
  }

  /** `KVTable_compact`: a compacted copy, after which the old table is gone; or `null`, with the
      old table untouched. */
  method Compact(t: KVTable) returns (u: KVTable?)
    requires t.Valid()
    modifies t`destroyed
    ensures match KvModel.Compact(old(t.model))
      case Some(v) => u != null && fresh(u) && u.Valid() && u.model == v && t.destroyed
      case None => u == null && t.Valid() && t.model == old(t.model)
  {
    hide KvInv, Recorded, Stored, Terminated, Arena.Safe, CopyInto, Built;
    KvFacts(t.model);
    u := CopyOut(t, t.kvcap, t.arena.buf.Length);
    if u == null { return; }
    t.Destroy();
  }

  lemma KvFacts(t: Kv)
    requires KvInv(t)
    ensures IsPowerOf2(|t.slots|) && IsPowerOf2(|t.slots| * 2) && t.size > 0 && |t.pairs| <= |t.slots| && Roomy(t.pairs)
  {
    DoublePower(|t.slots|);
  }

  /** The first half of `KVTable_insert`: the table itself, or a grown copy that replaces it. */
  method Grow(t: KVTable, keyLen: nat, valLen: nat) returns (u: KVTable?)
    requires t.Valid()
    modifies t`destroyed
    ensures u == null ==> t.Valid() && t.model == old(t.model)
    ensures match Grown(old(t.model), keyLen, valLen)
      case Some(v) =>
        && u != null && u.Valid() && u.model == v && Built(u.model)
        && (u == t || (fresh(u) && fresh(u.recs) && fresh(u.slots) && fresh(u.arena) && fresh(u.arena.buf) && t.destroyed))
        && (u == t <==> NoGrowth(old(t.model), keyLen, valLen))
      case None => u == null
  {
    hide KvInv, Recorded, Stored, Terminated, Arena.Safe, CopyInto, Built;
    KvFacts(t.model);
    GrownInv(t.model, keyLen, valLen);
    var capFull := t.kvcnt + 1 > t.kvcap;
    var memFull := t.arena.cur + keyLen + valLen + 2 * MEM_ALIGN > t.arena.buf.Length;
    if !capFull && !memFull { return t; }
    var cap := if capFull then t.kvcap * 2 else t.kvcap;
    var size := if memFull then t.arena.buf.Length * 2 else t.arena.buf.Length;
    u := CopyOut(t, cap, size);
    if u == null { return; }
    t.Destroy();
  }

  /** `KVTable_insert`: the table to use from now on, or NULL. NULL for an empty key or value
      leaves the table alone; NULL for lack of memory comes after it was destroyed. */
  method Insert(t: KVTable, key: Key, val: Value) returns (u: KVTable?)
    requires t.Valid()
    modifies t, t.recs, t.slots, t.arena, t.arena.buf
    ensures match KvModel.Insert(old(t.model), key, val)
      case Returned(v) =>
        && u != null && u.Valid() && u.model == v
        && (if NoGrowth(old(t.model), |key|, |val|) then u == t else fresh(u) && t.destroyed)
      case Untouched => u == null && t.Valid() && t.model == old(t.model)
      case Destroyed => u == null && t.destroyed
  {
    hide KvInv, Recorded, Stored, Terminated, Arena.Safe, Built, Grown, KvModel.Remove, Append, KvModel.Insert, Fits,
      Locate, LiveAt;
    InsertMethod(t.model, key, val);
    if key == [] || val == [] { return null; }
    ghost var was := t.model;
    u := Grow(t, |key|, |val|);
    if u == null { return; }
    RemoveInv(u.model, key);
    var kidx, off, len := u.Lookup(key);
    if kidx >= 0 {
      kidx := u.Remove(key);
    }
    kidx := u.RawInsert(key, val);
    if kidx < 0 { return null; }
  }

  /** What the insertion's steps amount to. */
  lemma InsertMethod(t: Kv, key: Key, val: Value)
    requires KvInv(t)
    ensures key == [] || val == [] ==> KvModel.Insert(t, key, val) == Untouched
    ensures key != [] && val != [] ==>
      && Grown(t, |key|, |val|).Some?
      && var g := Grown(t, |key|, |val|).value;
      && KvInv(g) && |g.pairs| < |g.slots|
      && (Locate(g, key) < 0 ==> KvModel.Remove(g, key).0 == g)
      && var u := KvModel.Remove(g, key).0;
      && KvModel.Insert(t, key, val) ==
           (if Fits(u.cur, u.size, |key|, |val|) then Returned(Append(u, key, val)) else Destroyed)
      && (!Fits(u.cur, u.size, |key|, |val|) ==> MemoryShouldResize(t, |key|, |val|) && g != t)
  {
    if key != [] && val != [] {
      GrownInv(t, |key|, |val|);
      var g := Grown(t, |key|, |val|).value;
      InsertUnfolds(t, g, key, val);
      RemoveInv(g, key);
      BuiltFacts(g);
      FitsAfterGrowth(t, g, |key|, |val|);
    }
  }

  lemma CopyStart(cap: nat, size: nat, pairs: seq<Pair>, src: Kv)
    requires KvInv(src) && pairs == src.pairs && KvInv(EmptyKv(cap, size)) && |EmptyKv(cap, size).slots| == cap
    ensures Proper(pairs) && IsPowerOf2(cap) && size > 0
    ensures CopyInto(cap, size, pairs[..0]) == (EmptyKv(cap, size), true)
  {
  }

  lemma CopyEnd(cap: nat, size: nat, pairs: seq<Pair>, src: Kv)
    requires KvInv(src) && pairs == src.pairs && IsPowerOf2(cap) && size > 0 && |pairs| <= cap
    ensures CopyInto(cap, size, pairs).1 ==> Built(CopyInto(cap, size, pairs).0)
  {
    CopyExact(cap, size, pairs);
  }
}
