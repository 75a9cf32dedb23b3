/** The serialiser and the loader of the key/value file. */
module KvFile {
  import opened Bits
  import opened Wrappers
  import opened HashIndex
  import opened KvModel
  import opened KvTable
  import opened KvFormat
  import opened KvRoundTrip
  import opened Packed
  import Fnv
  import Arena = MemArena

  // ---- Serialising ----

  /** The loop over the entry table. */
  method StoreToc(file: array<Byte>, recs: array<KvRec>, n: nat, ghost head: seq<Byte>, ghost init: seq<Byte>)
    requires n <= recs.Length && |head| == HEADER_SIZE && DataOff(n) <= file.Length == |init|
    requires file[..] == head + init[HEADER_SIZE..] && file as object != recs
    modifies file
    ensures file[..] == head + Toc(recs[..n]) + init[DataOff(n)..]
  {
    hide Encode, EntryFields, Width, Toc;
    var i := 0;
    TocNone();
    assert recs[..0] == [];
    while i < n
      invariant 0 <= i <= n
      invariant file[..] == head + Toc(recs[..i]) + init[DataOff(i)..]
    {
      TocNext(recs[..n], i);
      assert recs[..n][..i] == recs[..i] && recs[..n][..i + 1] == recs[..i + 1];
      TocSize(recs[..i]);
      StructSizes(0, 0, 0, recs[i], 0);
      PrefixAndRest(file[..], head + Toc(recs[..i]), init, DataOff(i), ENTRY_SIZE);
      assert file[..DataOff(i)] == file[..][..DataOff(i)];
      assert file[DataOff(i) + ENTRY_SIZE..] == file[..][DataOff(i) + ENTRY_SIZE..];
      Store(file, DataOff(i), EntryFields(recs[i]));
      assert head + Toc(recs[..i + 1]) == head + Toc(recs[..i]) + Encode(EntryFields(recs[i]));
      i := i + 1;
    }
  }

  lemma PrefixAndRest(file: seq<Byte>, front: seq<Byte>, init: seq<Byte>, off: nat, len: nat)
    requires |front| == off && off + len <= |init| == |file| && file == front + init[off..]
    ensures file[..off] == front && file[off + len..] == init[off + len..]
  {
  }

  lemma TocNone()
    ensures Toc([]) == []
  {
  }

  lemma TocNext(recs: seq<KvRec>, i: nat)
    requires i < |recs|
    ensures Toc(recs[..i + 1]) == Toc(recs[..i]) + Encode(EntryFields(recs[i]))
  {
    hide Encode;
    var q := recs[..i + 1];
    assert q[..|q| - 1] == recs[..i] && q[|q| - 1] == recs[i];
  }

  /** `memcpy` of the arena's bytes into the file. */
  method CopyBytes(file: array<Byte>, off: nat, src: array<Byte>, len: nat)
    requires off + len <= file.Length && len <= src.Length && file != src
    modifies file
    ensures file[..] == old(file[..off]) + src[..len] + old(file[off + len..])
  {
    ghost var was := file[..];
    var i := 0;
    while i < len
      invariant 0 <= i <= len
      invariant file[..off] == was[..off] && file[off + i..] == was[off + i..]
      invariant forall j :: 0 <= j < i ==> file[off + j] == src[j]
    {
      file[off + i] := src[i];
      i := i + 1;
    }
    assert file[off..off + len] == src[..len];
    assert file[..] == file[..off] + file[off..off + len] + file[off + len..];
  }

  /** Header and entry table, over the resized file. */
  method StoreHead(file: array<Byte>, recs: array<KvRec>, n: nat, datOff: nat, ftrOff: nat)
    requires n <= recs.Length && datOff == DataOff(n) <= file.Length && file as object != recs && n > 0
    modifies file
    ensures file[..] == Encode(HeaderFields(n, datOff, ftrOff)) + Toc(recs[..n]) + old(file[datOff..])
  {
    hide Encode, HeaderFields, EntryFields, Width, Toc;
    ghost var init := file[..];
    ghost var head := Encode(HeaderFields(n, datOff, ftrOff));
    StructSizes(n, datOff, ftrOff, recs[0], 0);
    assert file[..0] == [] && file[HEADER_SIZE..] == init[HEADER_SIZE..];
    Store(file, 0, HeaderFields(n, datOff, ftrOff));
    assert file[..] == head + init[HEADER_SIZE..];
    StoreToc(file, recs, n, head, init);
  }

  /** Data and footer, after header and entry table. */
  method StoreTail(file: array<Byte>, src: array<Byte>, datOff: nat, end: nat, ftrOff: nat, crc: Crc, ghost front: seq<Byte>)
    requires |front| == datOff && datOff + end <= ftrOff && file.Length == ftrOff + FOOTER_SIZE
    requires end <= src.Length && file != src && file[..datOff] == front
    modifies file
    ensures var body := front + src[..end] + old(file[datOff + end..ftrOff]);
      file[..] == body + Encode(FooterFields(Crc32(crc, body)))
  {
    hide Encode, FooterFields, Width, Crc32;
    ghost var init := file[..];
    assert file[datOff + end..] == init[datOff + end..];
    CopyBytes(file, datOff, src, end);
    ghost var body := front + src[..end] + init[datOff + end..ftrOff];
    assert file[..ftrOff] == body;
    var c := Crc32(crc, file[..ftrOff]);
    StructSizes(0, 0, 0, KvRec(0, 0, 0, 0, 0, 0), c);
    assert file[ftrOff + FOOTER_SIZE..] == [];
    Store(file, ftrOff, FooterFields(c));
  }

  /** `ftruncate` to a size. */
  method Resize(prior: seq<Byte>, size: nat) returns (file: array<Byte>)
    ensures fresh(file) && file.Length == size && file[..] == Resized(prior, 0, size)
  {
    file := new Byte[size](i => if 0 <= i < |prior| then prior[i] else 0);
  }

  lemma ResizedSlice(prior: seq<Byte>, from: nat, to: nat, size: nat)
    requires from <= to <= size
    ensures Resized(prior, 0, size)[from..to] == Resized(prior, from, to)
  {
  }

  /** The file after resizing the old one and writing header, entry table, data and footer over it. */
  method WriteImage(records: array<KvRec>, n: nat, buf: array<Byte>, crc: Crc, prior: seq<Byte>) returns (file: array<Byte>)
    requires 0 < n <= records.Length && DataEnd(records[..n]) <= buf.Length
    ensures fresh(file) && file[..] == Image(crc, records[..n], buf[..], prior)
  {
    hide Encode, Body, HeaderFields, FooterFields, Width, Toc, Crc32, Resized, Align4;
    ghost var recs, bytes := records[..n], buf[..];
    var end := records[n - 1].valOff + records[n - 1].valLen;
    AlignedSizes(n);
    var tocOff := Align4(HEADER_SIZE);
    var datOff := tocOff + Align4(n * ENTRY_SIZE);
    var ftrOff := datOff + Align4(end);
    file := Resize(prior, ftrOff + FOOTER_SIZE);
    ghost var gap, rest := Resized(prior, datOff + end, ftrOff), file[datOff..];
    assert file[..][datOff + end..ftrOff] == gap by { ResizedSlice(prior, datOff + end, ftrOff, ftrOff + FOOTER_SIZE); }
    StoreHead(file, records, n, datOff, ftrOff);
    ghost var front := Encode(HeaderFields(n, datOff, ftrOff)) + Toc(recs);
    FrontSize(recs, datOff, ftrOff);
    assert file[..datOff] == front;
    assert file[datOff + end..ftrOff] == rest[end..ftrOff - datOff] == gap;
    StoreTail(file, buf, datOff, end, ftrOff, crc, front);
    BodyIs(recs, bytes, prior);
    assert bytes[..end] == buf[..end];
  }

  /** `KVTable_serialise`, which refuses an empty table. */
  method Serialise(t: KVTable, crc: Crc, prior: seq<Byte>) returns (st: int, file: array?<Byte>)
    requires t.Valid()
    ensures t.kvcnt == 0 ==> st == -1 && file == null
    ensures t.kvcnt > 0 ==> st == 0 && file != null && fresh(file) && t.kvcnt <= t.recs.Length
    ensures t.kvcnt > 0 ==>
      var recs := t.recs[..t.kvcnt];
      recs != [] && DataEnd(recs) <= t.arena.buf.Length && file[..] == Image(crc, recs, t.arena.buf[..], prior)
  {
    hide KvInv, Stored, Terminated, Recorded, Image, DataEnd, Arena.Safe;
    KvFacts(t.model);
    if t.kvcnt == 0 { return -1, null; }
    LayoutBound(t.model, t.recs[..], t.recs[..t.kvcnt]);
    file := WriteImage(t.recs, t.kvcnt, t.arena.buf, crc, prior);
    return 0, file;
  }

  /** Every valid table object with two entries or more can be written, so all that is proved about
      serialised tables is proved about what `Serialise` leaves in the file. */
  lemma ValidIsWritable(t: KVTable)
    requires t.Valid() && t.kvcnt >= 2 && FooterOff(t.recs[..t.kvcnt]) + FOOTER_SIZE < DWORD
    ensures Writable(t.model, t.recs[..t.kvcnt], t.arena.buf[..])
  {
    hide KvInv, Stored, Terminated, RecIs, FooterOff, Arena.Safe;
    var recs := t.recs[..t.kvcnt];
    forall i | 0 <= i < |t.model.pairs| ensures RecIs(recs[i], t.model.pairs, i) {
      assert RecIs(t.recs[..][i], t.model.pairs, i);
    }
  }

  lemma FrontSize(recs: seq<KvRec>, datOff: nat, ftrOff: nat)
    requires recs != []
    ensures |Encode(HeaderFields(|recs|, datOff, ftrOff)) + Toc(recs)| == DataOff(|recs|)
  {
    hide Encode, Toc, HeaderFields, Width;
    TocSize(recs);
    StructSizes(|recs|, datOff, ftrOff, recs[0], 0);
  }

  lemma BodyIs(recs: seq<KvRec>, bytes: seq<Byte>, prior: seq<Byte>)
    requires recs != [] && DataEnd(recs) <= |bytes|
    ensures Body(recs, bytes, prior) ==
      Encode(HeaderFields(|recs|, DataOff(|recs|), FooterOff(recs))) + Toc(recs) + bytes[..DataEnd(recs)]
        + Resized(prior, DataOff(|recs|) + DataEnd(recs), FooterOff(recs))
  {
  }

  lemma LayoutBound(t: Kv, all: seq<KvRec>, recs: seq<KvRec>)
    requires KvInv(t) && Recorded(all, t.pairs) && t.pairs != [] && |t.pairs| <= |all| && recs == all[..|t.pairs|]
    ensures recs != [] && DataEnd(recs) <= t.size
  {
    hide RecIs, End, Indexed;
    assert Recorded(recs, t.pairs);
    LayoutEnd(t.pairs, recs);
  }

  lemma AlignedSizes(n: nat)
    ensures Align4(HEADER_SIZE) == HEADER_SIZE && Align4(n * ENTRY_SIZE) == n * ENTRY_SIZE
  {
    hide Align4;
    Align4Value(HEADER_SIZE);
    Align4Value(n * ENTRY_SIZE);
  }

  // ---- Loading ----

  lemma IndexNext(recs: seq<KvRec>, i: nat, cap: nat)
    requires i < |recs| && IsPowerOf2(cap)
    ensures IndexOf(recs[..i + 1], cap) == Put(IndexOf(recs[..i], cap), recs[i].keyHash, i)
  {
    hide Put, IsPowerOf2;
    var q := recs[..i + 1];
    assert q[..|q| - 1] == recs[..i] && q[|q| - 1] == recs[i];
  }

  lemma IndexNone(cap: nat)
    requires IsPowerOf2(cap)
    ensures IndexOf([], cap) == EmptySlots(cap)
  {
  }

  /** The loop over the entry table: records with freshly computed hashes, indexed in order. */
  method LoadEntries(file: array<Byte>, recs: array<KvRec>, slots: array<int>, buf: array<Byte>, n: nat)
    requires DataOff(n) <= file.Length && EntriesInBounds(file[..], n, buf.Length)
    requires n <= recs.Length && IsPowerOf2(slots.Length) && slots[..] == EmptySlots(slots.Length)
    requires recs as object != slots && recs as object != buf && recs as object != file
    requires slots as object != buf && slots as object != file
    modifies recs, slots
    ensures recs[..n] == RecsOf(file[..], n, buf[..])
    ensures slots[..] == IndexOf(RecsOf(file[..], n, buf[..]), slots.Length)
  {
    hide IsPowerOf2, IndexOf, Decode, EntryInBounds, Fnv.Hash32, EmptySlots, RecsOf;
    ghost var all := RecsOf(file[..], n, buf[..]);
    var cap := slots.Length;
    IndexNone(cap);
    assert all[..0] == [] && recs[..0] == [];
    var i := 0;
    while i < n
      invariant 0 <= i <= n
      invariant recs[..i] == all[..i] && slots[..] == IndexOf(all[..i], cap)
    {
      RecsAt(file[..], n, buf[..], i);
      IndexNext(all, i, cap);
      var e := Decode(ENTRY_WIDTHS, file[HEADER_SIZE + i * ENTRY_SIZE..]);
      assert file[..][HEADER_SIZE + i * ENTRY_SIZE..] == file[HEADER_SIZE + i * ENTRY_SIZE..];
      var key := buf[e[2]..e[2] + e[1]];
      assert key == buf[..][e[2]..e[2] + e[1]];
      var hash := Fnv.ComputeHash32(key);
      recs[i] := KvRec(e[1], e[2], e[3], e[4], hash, e[0]);
      assert recs[i] == all[i];
      assert recs[..i + 1] == recs[..i] + [recs[i]];
      var st, used := InsertSlotCounted(slots, cap, 0, hash, i);
      i := i + 1;
    }
    assert all[..n] == all;
  }

  lemma RecsAt(file: seq<Byte>, n: nat, bytes: seq<Byte>, i: nat)
    requires DataOff(n) <= |file| && EntriesInBounds(file, n, |bytes|) && i < n
    ensures var e := EntryAt(file, i);
      e[2] + e[1] <= |bytes| && RecsOf(file, n, bytes)[i] == RecOf(e, bytes)
  {
    assert EntryInBounds(file, i, |bytes|);
  }

  /** A loaded table whose records and memory hold these pairs in the layout of a built table. */
  ghost predicate Adoptable(ph: Phys, pairs: seq<Pair>) {
    && |ph.recs| == |pairs| && Recorded(ph.recs, pairs) && Stored(ph.bytes, pairs)
    && KvInv(Kv(pairs, ph.slots, |ph.bytes|, |ph.bytes|)) && Loaded(Kv(pairs, ph.slots, |ph.bytes|, |ph.bytes|))
  }

  /** A loaded record is the record of its pair with the key cut, at the same place. */
  lemma LoadedRecIs(r: KvRec, bytes: seq<Byte>, was: KvRec, pairs: seq<Pair>, i: nat)
    requires i < |pairs| && RecIs(was, pairs, i) && RecReads(r, bytes, pairs[i])
    requires r.keyOff == was.keyOff && r.valOff == was.valOff
    ensures RecIs(r, CutPairs(pairs), i) && PairAt(bytes, CutPairs(pairs), i)
  {
    CutKeepsLayout(pairs, i);
    hide KeyOff, ValOff, BytesAt, Cut, End;
  }

  lemma LoadedRecsAre(ph: Phys, recs: seq<KvRec>, pairs: seq<Pair>)
    requires Recorded(recs, pairs) && |recs| == |pairs| && Reads(ph, pairs)
    requires forall i :: 0 <= i < |recs| ==> ph.recs[i].keyOff == recs[i].keyOff && ph.recs[i].valOff == recs[i].valOff
    ensures ph.recs == RecsFor(CutPairs(pairs))
    ensures Recorded(ph.recs, CutPairs(pairs)) && Stored(ph.bytes, CutPairs(pairs))
  {
    hide RecReads, Chained, KeyOff, ValOff, PairAt, Cut, RecFor;
    forall i | 0 <= i < |pairs|
      ensures RecIs(ph.recs[i], CutPairs(pairs), i) && PairAt(ph.bytes, CutPairs(pairs), i)
    {
      LoadedRecIs(ph.recs[i], ph.bytes, recs[i], pairs, i);
    }
  }

  /** What the loader makes of a serialised table is a table again: the reloaded one, in the loaded
      state. All operations and their guarantees carry over, whatever the lengths of dead keys. */
  lemma LoadedIsTable(crc: Crc, t: Kv, recs: seq<KvRec>, bytes: seq<Byte>, prior: seq<Byte>)
    requires Writable(t, recs, bytes) && ShortKeys(t.pairs)
    ensures recs != [] && DataEnd(recs) <= |bytes| && InBounds(Image(crc, recs, bytes, prior))
    ensures Load(crc, Image(crc, recs, bytes, prior)).Some? && Savable(t)
    ensures var ph := Load(crc, Image(crc, recs, bytes, prior)).value;
      Adoptable(ph, CutPairs(t.pairs)) && Reload(t) == Kv(CutPairs(t.pairs), ph.slots, |ph.bytes|, |ph.bytes|)
  {
    hide Load, Image, Data, DataEnd, IndexOf, DwordNextPow2, IsPowerOf2, Storable, RecReads, RecIs, KvInv, End, Indexed,
      PairAt, Chained, InBounds, RecStorable, Hashes, RecHashes, Align4, Cut, RecFor, Loaded;
    WritableStorable(t, recs, bytes);
    LayoutEnd(t.pairs, recs);
    LoadOfImage(crc, recs, bytes, prior);
    RoundTripReads(crc, t, recs, bytes, prior);
    DataHolds(recs, bytes, prior);
    StorableSizes(recs, bytes);
    LoadedRecsAre(Load(crc, Image(crc, recs, bytes, prior)).value, recs, t.pairs);
    ReloadMeans(t, map[]);
  }

  /** `KVTable_create_load_from_file`. The ghost argument is what a table that wrote the file held. */
  method CreateLoad(file: array<Byte>, crc: Crc, ghost pairs: seq<Pair>) returns (t: KVTable?)
    requires InBounds(file[..])
    ensures t != null <==> Load(crc, file[..]).Some?
    ensures t != null ==>
      var ph := Load(crc, file[..]).value;
      && fresh(t) && fresh(t.recs) && fresh(t.slots) && fresh(t.arena) && fresh(t.arena.buf)
      && t.kvcnt == |ph.recs| <= t.recs.Length && t.recs[..t.kvcnt] == ph.recs && t.slots[..] == ph.slots
      && t.arena.buf[..] == ph.bytes && t.arena.cur == |ph.bytes|
      && (Adoptable(ph, pairs) ==> t.Valid() && t.model == Kv(pairs, ph.slots, |ph.bytes|, |ph.bytes|))
  {
    hide Decode, EntriesInBounds, KvInv, Recorded, Stored, Terminated, IndexOf, IsPowerOf2, DwordNextPow2, RecsOf, Crc32,
      End, Arena.Safe, EmptySlots, Wrap32;
    var h := Decode(HEADER_WIDTHS, file[..]);
    if h[0] != MAGIC || h[3] != HEADER_SIZE || h[4] != FOOTER_SIZE || h[7] != h[3]
       || Wrap32(h[8] as int - h[7]) != h[6] * ENTRY_SIZE || Wrap32(h[9] + h[4]) > Wrap32(file.Length) {
      return null;
    }
    assert HeaderAccepted(file[..]);
    var f := Decode(FOOTER_WIDTHS, file[..][h[9]..]);
    if f[1] != EOF_MAGIC || Crc32(crc, file[..][..h[9]]) != f[0] {
      return null;
    }
    var size := h[9] - h[8];
    NextPow2Least(h[6]);
    t := KVTable.Create(DwordNextPow2(h[6]), size);
    if t == null { return; }
    EmptyKvFields(t.kvcap, size);
    Arena.MoveUp(t.arena.State(), size);
    t.arena.cur := size;
    CopyIn(t.arena.buf, file, h[8]);
    LoadEntries(file, t.recs, t.slots, t.arena.buf, h[6]);
    t.kvcnt := h[6];
    t.fromFile := true;
    t.model := Kv(pairs, t.slots[..], size, size);
    RecordedPrefix(t.recs[..], t.recs[..t.kvcnt], pairs);
  }

  lemma RecordedPrefix(all: seq<KvRec>, recs: seq<KvRec>, pairs: seq<Pair>)
    requires |recs| <= |all| && recs == all[..|recs|]
    ensures |pairs| == |recs| && Recorded(recs, pairs) ==> Recorded(all, pairs)
  {
  }

  lemma EmptyKvFields(cap: nat, size: nat)
    ensures EmptyKv(cap, size).slots == EmptySlots(cap) && EmptyKv(cap, size).cur == 0 && EmptyKv(cap, size).size == size
  {
  }

  /** `memcpy` of the file's data into the arena. */
  method CopyIn(buf: array<Byte>, file: array<Byte>, off: nat)
    requires off + buf.Length <= file.Length && buf != file
    modifies buf
    ensures buf[..] == file[off..off + buf.Length]
  {
    var i := 0;
    while i < buf.Length
      invariant 0 <= i <= buf.Length
      invariant forall j :: 0 <= j < i ==> buf[j] == file[off + j]
    {
      buf[i] := file[off + i];
      i := i + 1;
    }
  }

  lemma SavableIsWritable(t: KVTable)
    requires t.Valid() && Savable(t.model)
    ensures t.kvcnt == |t.model.pairs| <= t.recs.Length && Writable(t.model, t.recs[..t.kvcnt], t.arena.buf[..])
  {
    hide KvInv, Stored, Terminated, RecIs, Arena.Safe, End, Align4;
    KvFacts(t.model);
    RecordedSlice(t.recs[..], t.model.pairs);
    assert t.recs[..][..t.kvcnt] == t.recs[..t.kvcnt];
    LayoutEnd(t.model.pairs, t.recs[..t.kvcnt]);
    ValidIsWritable(t);
  }

  /** Serialise a table, then load the file: the reloaded table, as an object of its own. */
  method SaveAndLoad(t: KVTable, crc: Crc, prior: seq<Byte>) returns (u: KVTable?)
    requires t.Valid() && Savable(t.model)
    ensures u != null && fresh(u) && u.Valid() && u.model == Reload(t.model)
  {
    hide KvInv, Recorded, Stored, Terminated, Load, Image, InBounds, Adoptable, Reload, Savable, Writable, Arena.Safe, DataEnd;
    SavableIsWritable(t);
    SavableShort(t.model);
    LoadedIsTable(crc, t.model, t.recs[..t.kvcnt], t.arena.buf[..], prior);
    var st, file := Serialise(t, crc, prior);
    u := CreateLoad(file, crc, CutPairs(t.model.pairs));
  }

  lemma SavableShort(t: Kv)
    requires Savable(t)
    ensures ShortKeys(t.pairs) && |t.pairs| >= 2
  {
  }
}
