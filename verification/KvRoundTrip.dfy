/** Serialising a table and loading it back. */
module KvRoundTrip {
  import opened Bits
  import opened Wrappers
  import opened HashIndex
  import opened KvModel
  import opened KvTable
  import opened KvFormat
  import opened Packed
  import Fnv

  /** What the format needs of a table: everything lies before the end of the last value, and the
      file is smaller than 2^32 bytes. */
  ghost predicate Storable(recs: seq<KvRec>, bytes: seq<Byte>) {
    && recs != [] && DataEnd(recs) <= |bytes|
    && FooterOff(recs) + FOOTER_SIZE < DWORD
    && forall i :: 0 <= i < |recs| ==> RecStorable(recs[i], DataEnd(recs))
  }

  ghost predicate RecStorable(r: KvRec, end: nat) {
    r.keyOff + r.keyLen <= end && r.valOff + r.valLen <= end && r.stat < WORD
  }

  // ---- The parts of the file ----

  lemma {:induction false} TocSize(recs: seq<KvRec>)
    ensures |Toc(recs)| == |recs| * ENTRY_SIZE
  {
    hide Encode;
    if recs != [] {
      TocSize(recs[..|recs| - 1]);
      StructSizes(0, 0, 0, recs[|recs| - 1], 0);
    }
  }

  /** Entry `i` of the entry table sits at its multiple of the entry size. */
  lemma {:induction false} TocSplit(recs: seq<KvRec>, i: nat) returns (tail: seq<Byte>)
    requires i < |recs|
    ensures Toc(recs) == Toc(recs[..i]) + Encode(EntryFields(recs[i])) + tail
    decreases |recs|
  {
    hide Encode;
    var n := |recs| - 1;
    if i == n {
      tail := [];
    } else {
      tail := TocSplit(recs[..n], i);
      assert recs[..n][..i] == recs[..i];
      tail := tail + Encode(EntryFields(recs[n]));
    }
  }

  function Data(recs: seq<KvRec>, bytes: seq<Byte>, prior: seq<Byte>): seq<Byte>
    requires recs != [] && DataEnd(recs) <= |bytes|
  {
    bytes[..DataEnd(recs)] + Resized(prior, DataOff(|recs|) + DataEnd(recs), FooterOff(recs))
  }

  lemma ImageParts(crc: Crc, recs: seq<KvRec>, bytes: seq<Byte>, prior: seq<Byte>)
    requires recs != [] && DataEnd(recs) <= |bytes|
    ensures var n := |recs|;
      var file := Image(crc, recs, bytes, prior);
      var head := Encode(HeaderFields(n, DataOff(n), FooterOff(recs)));
      && |Body(recs, bytes, prior)| == FooterOff(recs) && |file| == FooterOff(recs) + FOOTER_SIZE
      && |head| == HEADER_SIZE && |Toc(recs)| == n * ENTRY_SIZE
      && |Data(recs, bytes, prior)| == FooterOff(recs) - DataOff(n)
      && file == head + Toc(recs) + Data(recs, bytes, prior) + Encode(FooterFields(Crc32(crc, Body(recs, bytes, prior))))
      && Body(recs, bytes, prior) == head + Toc(recs) + Data(recs, bytes, prior)
  {
    hide Encode, Toc, HeaderFields, FooterFields, Crc32, Resized, Width, DataEnd;
    TocSize(recs);
    StructSizes(|recs|, DataOff(|recs|), FooterOff(recs), recs[0], Crc32(crc, Body(recs, bytes, prior)));
  }

  // ---- What the loader reads back ----

  /** A record after a round trip: key lengths keep 16 bits, hashes are computed afresh. */
  function LoadedRec(r: KvRec, data: seq<Byte>): KvRec
    requires r.keyOff + r.keyLen <= |data|
  {
    var len := r.keyLen % WORD;
    KvRec(len, r.keyOff, r.valLen, r.valOff, Fnv.Hash32(data[r.keyOff..r.keyOff + len]), r.stat)
  }

  /** The header of a written file, field by field: magic, version, alignment, sizes of header and
      footer, flags, entry count, and the offsets of entry table, data and footer. */
  lemma HeaderReadsBack(crc: Crc, recs: seq<KvRec>, bytes: seq<Byte>, prior: seq<Byte>)
    requires Storable(recs, bytes)
    ensures var n := |recs|;
      var last := recs[n - 1];
      Decode([4, 2, 2, 2, 2, 4, 4, 4, 4, 4], Image(crc, recs, bytes, prior)) ==
        [0xBBA9_B423, 0x0201, 4, 32, 8, 5, n, 32, 32 + 16 * n, 32 + 16 * n + Align4(last.valOff + last.valLen)]
    ensures HeaderOf(Image(crc, recs, bytes, prior)) == Decode([4, 2, 2, 2, 2, 4, 4, 4, 4, 4], Image(crc, recs, bytes, prior))
    ensures FooterOff(recs) == 32 + 16 * |recs| + Align4(recs[|recs| - 1].valOff + recs[|recs| - 1].valLen)
  {
    hide Encode, Decode, Toc, Data, Body, Image, HeaderFields, FooterFields, Crc32, Pow256, DataEnd, FooterOff, Align4, RecStorable;
    ImageParts(crc, recs, bytes, prior);
    var n := |recs|;
    var fields := HeaderFields(n, DataOff(n), FooterOff(recs));
    var rest := Toc(recs) + Data(recs, bytes, prior) + Encode(FooterFields(Crc32(crc, Body(recs, bytes, prior))));
    Regroup(Encode(fields), [], Toc(recs), [], Data(recs, bytes, prior), Encode(FooterFields(Crc32(crc, Body(recs, bytes, prior)))));
    assert [] + Toc(recs) + [] == Toc(recs);
    HeaderWidths(n, DataOff(n), FooterOff(recs));
    DecodeFields(HEADER_WIDTHS, fields, rest);
    Pow256Values();
    FooterOffIs(recs);
    StorableSizes(recs, bytes);
    HeaderValues(n, DataOff(n), FooterOff(recs), HeaderOf(Image(crc, recs, bytes, prior)));
  }

  lemma FooterOffIs(recs: seq<KvRec>)
    requires recs != []
    ensures FooterOff(recs) == 32 + 16 * |recs| + Align4(recs[|recs| - 1].valOff + recs[|recs| - 1].valLen)
  {
    hide Align4;
  }

  lemma HeaderFieldsAre(n: nat, datOff: nat, ftrOff: nat)
    ensures var f := HeaderFields(n, datOff, ftrOff);
      && |f| == 10 && f[0] == Field(0xBBA9_B423, 4) && f[1] == Field(0x0201, 2) && f[2] == Field(4, 2) && f[3] == Field(32, 2)
      && f[4] == Field(8, 2) && f[5] == Field(5, 4) && f[6] == Field(n, 4)
      && f[7] == Field(32, 4) && f[8] == Field(datOff, 4) && f[9] == Field(ftrOff, 4)
  {
  }

  lemma HeaderValues(n: nat, datOff: nat, ftrOff: nat, h: seq<nat>)
    requires n < DWORD && datOff < DWORD && ftrOff < DWORD && |h| == 10
    requires Pow256(2) == WORD && Pow256(4) == DWORD
    requires var f := HeaderFields(n, datOff, ftrOff); forall i :: 0 <= i < 10 ==> h[i] == f[i].value % Pow256(f[i].width)
    ensures h == [0xBBA9_B423, 0x0201, 4, 32, 8, 5, n, 32, datOff, ftrOff]
  {
    hide Pow256, HeaderFields;
    HeaderFieldsAre(n, datOff, ftrOff);
    var f := HeaderFields(n, datOff, ftrOff);
    FieldKept(f[0], h[0]); FieldKept(f[1], h[1]); FieldKept(f[2], h[2]); FieldKept(f[3], h[3]); FieldKept(f[4], h[4]);
    FieldKept(f[5], h[5]); FieldKept(f[6], h[6]); FieldKept(f[7], h[7]); FieldKept(f[8], h[8]); FieldKept(f[9], h[9]);
  }

  /** A field that is wide enough keeps its value. */
  lemma FieldKept(f: Field, v: nat)
    requires v == f.value % Pow256(f.width) && f.value < Pow256(f.width)
    ensures v == f.value
  {
    hide Pow256;
    ModUnique(f.value, Pow256(f.width), 0, f.value);
  }

  lemma EntryReadsBack(crc: Crc, recs: seq<KvRec>, bytes: seq<Byte>, prior: seq<Byte>, i: nat)
    requires Storable(recs, bytes) && i < |recs|
    requires HEADER_SIZE + i * ENTRY_SIZE <= |Image(crc, recs, bytes, prior)|
    ensures EntryAt(Image(crc, recs, bytes, prior), i)
         == [recs[i].stat, recs[i].keyLen % WORD, recs[i].keyOff, recs[i].valLen, recs[i].valOff]
  {
    hide Encode, Decode, Toc, Data, Body, Image, HeaderFields, FooterFields, EntryFields, Crc32, Pow256, DataEnd;
    ImageParts(crc, recs, bytes, prior);
    var tail := TocSplit(recs, i);
    TocSize(recs[..i]);
    var file := Image(crc, recs, bytes, prior);
    var head := Encode(HeaderFields(|recs|, DataOff(|recs|), FooterOff(recs)));
    var rest := tail + Data(recs, bytes, prior) + Encode(FooterFields(Crc32(crc, Body(recs, bytes, prior))));
    var fields := EntryFields(recs[i]);
    Regroup(head, Toc(recs[..i]), Encode(fields), tail, Data(recs, bytes, prior),
            Encode(FooterFields(Crc32(crc, Body(recs, bytes, prior)))));
    assert file[HEADER_SIZE + i * ENTRY_SIZE..] == Encode(fields) + rest;
    EntryWidths(recs[i]);
    DecodeFields(ENTRY_WIDTHS, fields, rest);
    Pow256Values();
    assert RecStorable(recs[i], DataEnd(recs));
    EntryValues(recs[i], EntryAt(file, i));
  }

  lemma Regroup(a: seq<Byte>, b: seq<Byte>, c: seq<Byte>, d: seq<Byte>, e: seq<Byte>, f: seq<Byte>)
    ensures (a + (b + c + d) + e + f)[|a| + |b|..] == c + (d + e + f)
    ensures a + (b + c + d) + e + f == a + ((b + c + d) + e + f)
  {
  }

  lemma EntryWidths(r: KvRec)
    ensures |EntryFields(r)| == 5 && forall i :: 0 <= i < 5 ==> ENTRY_WIDTHS[i] == EntryFields(r)[i].width
  {
  }

  lemma HeaderWidths(n: nat, datOff: nat, ftrOff: nat)
    ensures var f := HeaderFields(n, datOff, ftrOff);
      |f| == 10 && forall i :: 0 <= i < 10 ==> HEADER_WIDTHS[i] == f[i].width
  {
  }

  lemma EntryValues(r: KvRec, e: seq<nat>)
    requires r.keyOff < DWORD && r.valLen < DWORD && r.valOff < DWORD && r.stat < WORD && |e| == 5
    requires Pow256(2) == WORD && Pow256(4) == DWORD
    requires var f := EntryFields(r); forall i :: 0 <= i < 5 ==> e[i] == f[i].value % Pow256(f[i].width)
    ensures e == [r.stat, r.keyLen % WORD, r.keyOff, r.valLen, r.valOff]
  {
  }

  lemma FooterReadsBack(crc: Crc, recs: seq<KvRec>, bytes: seq<Byte>, prior: seq<Byte>)
    requires Storable(recs, bytes)
    ensures var file := Image(crc, recs, bytes, prior);
      && FooterOff(recs) <= |file| && file[..FooterOff(recs)] == Body(recs, bytes, prior)
      && DataOff(|recs|) <= FooterOff(recs) && file[DataOff(|recs|)..FooterOff(recs)] == Data(recs, bytes, prior)
      && var f := Decode(FOOTER_WIDTHS, file[FooterOff(recs)..]);
         f[0] == Crc32(crc, Body(recs, bytes, prior)) && f[1] == EOF_MAGIC
  {
    hide Encode, Decode, Toc, Data, Body, Image, HeaderFields, Crc32, Pow256, DataEnd;
    ImageParts(crc, recs, bytes, prior);
    var file := Image(crc, recs, bytes, prior);
    var c := Crc32(crc, Body(recs, bytes, prior));
    var fields := FooterFields(c);
    assert file == Body(recs, bytes, prior) + Encode(fields);
    assert file[FooterOff(recs)..] == Encode(fields) + [];
    DecodeFields(FOOTER_WIDTHS, fields, []);
    Pow256Values();
    assert fields[0] == Field(c, 4) && fields[1] == Field(EOF_MAGIC, 4);
  }

  /** A written file, byte range by byte range: 16 bytes of entry table for each record from byte 32
      on; the arena up to the end of the last value; then, to a multiple of four, what the file had
      there before or zeros; then checksum of all that and end mark. */
  ghost predicate Written(file: seq<Byte>, crc: Crc, recs: seq<KvRec>, bytes: seq<Byte>, prior: seq<Byte>)
    requires recs != []
  {
    var n := |recs|;
    var end := recs[n - 1].valOff + recs[n - 1].valLen;
    var dat := 32 + 16 * n;
    var ftr := dat + Align4(end);
    && end <= |bytes| && |file| == ftr + 8
    && (forall i :: 0 <= i < n ==> EntryOnFile(file, i, recs[i]))
    && file[dat..dat + end] == bytes[..end]
    && (forall p :: dat + end <= p < ftr ==> file[p] == if p < |prior| then prior[p] else 0)
    && Decode([4, 4], file[ftr..]) == [Crc32(crc, file[..ftr]), 0x0403_7F1A]
  }

  lemma WrittenFile(crc: Crc, recs: seq<KvRec>, bytes: seq<Byte>, prior: seq<Byte>)
    requires Storable(recs, bytes)
    ensures Written(Image(crc, recs, bytes, prior), crc, recs, bytes, prior)
  {
    hide Image, Decode, Data, Body, EntryAt, Crc32, Storable, Align4;
    StorableSizes(recs, bytes);
    FooterOffIs(recs);
    ImageSizes(crc, recs, bytes, prior);
    FooterReadsBack(crc, recs, bytes, prior);
    DataHolds(recs, bytes, prior);
    var file := Image(crc, recs, bytes, prior);
    forall i | 0 <= i < |recs| ensures EntryOnFile(file, i, recs[i]) {
      EntryReadsBack(crc, recs, bytes, prior, i);
      EntryAtIs(file, i);
    }
    DataOnFile(recs, bytes, prior, file);
    var f := Decode(FOOTER_WIDTHS, file[FooterOff(recs)..]);
    assert f == [f[0], f[1]];
  }

  /** Record `i` in the entry table: state, key length cut to 16 bits, and where key and value are. */
  ghost predicate EntryOnFile(file: seq<Byte>, i: nat, r: KvRec) {
    && 32 + 16 * i <= |file|
    && Decode([2, 2, 4, 4, 4], file[32 + 16 * i..]) == [r.stat, r.keyLen % 0x1_0000, r.keyOff, r.valLen, r.valOff]
  }

  lemma EntryAtIs(file: seq<Byte>, i: nat)
    requires HEADER_SIZE + i * ENTRY_SIZE <= |file|
    ensures EntryAt(file, i) == Decode([2, 2, 4, 4, 4], file[32 + 16 * i..])
  {
    hide Decode;
  }

  lemma DataOnFile(recs: seq<KvRec>, bytes: seq<Byte>, prior: seq<Byte>, file: seq<Byte>)
    requires recs != [] && DataEnd(recs) <= |bytes| && DataOff(|recs|) + DataEnd(recs) <= FooterOff(recs) <= |file|
    requires file[DataOff(|recs|)..FooterOff(recs)] == Data(recs, bytes, prior)
    ensures var dat, end := DataOff(|recs|), DataEnd(recs);
      && file[dat..dat + end] == bytes[..end]
      && forall p :: dat + end <= p < FooterOff(recs) ==> file[p] == if p < |prior| then prior[p] else 0
  {
    hide Align4;
    var dat, end := DataOff(|recs|), DataEnd(recs);
    var data := Data(recs, bytes, prior);
    assert data[..end] == bytes[..end];
    assert file[dat..dat + end] == file[dat..FooterOff(recs)][..end];
    forall p | dat + end <= p < FooterOff(recs) ensures file[p] == if p < |prior| then prior[p] else 0 {
      assert file[p] == file[dat..FooterOff(recs)][p - dat];
    }
  }

  /** What the loader accepts: the marks and sizes it knows, a data offset that matches the entry
      count, a footer inside the file, in 32-bit arithmetic; the end mark and the checksum of all
      that precedes the footer; and some data. Alignment, version and flags do not matter. */
  lemma LoadAcceptsIff(crc: Crc, file: seq<Byte>)
    requires InBounds(file)
    ensures var h := Decode([4, 2, 2, 2, 2, 4, 4, 4, 4, 4], file);
      Load(crc, file).Some? <==>
        && h[0] == 0xBBA9_B423 && h[3] == 32 && h[4] == 8 && h[7] == 32
        && (h[8] as int - 32) % 0x1_0000_0000 == 16 * h[6] && (h[9] + 8) % 0x1_0000_0000 <= |file| % 0x1_0000_0000
        && h[8] < h[9] <= |file|
        && Decode([4, 4], file[h[9]..]) == [Crc32(crc, file[..h[9]]), 0x0403_7F1A]
  {
    hide Decode, Crc32, EntriesInBounds, IndexOf, DwordNextPow2, RecsOf, IsPowerOf2;
    var h := Decode([4, 2, 2, 2, 2, 4, 4, 4, 4, 4], file);
    assert h == HeaderOf(file);
    if HeaderAccepted(file) {
      NextPow2Least(h[6]);
      var f := Decode([4, 4], file[h[9]..]);
      assert f == [f[0], f[1]];
    }
  }

  function LoadedRecs(recs: seq<KvRec>, data: seq<Byte>): (r: seq<KvRec>)
    requires forall i :: 0 <= i < |recs| ==> recs[i].keyOff + recs[i].keyLen <= |data|
    ensures |r| == |recs| && forall i :: 0 <= i < |recs| ==> r[i] == LoadedRec(recs[i], data)
  {
    seq(|recs|, i requires 0 <= i < |recs| => LoadedRec(recs[i], data))
  }

  lemma DataHolds(recs: seq<KvRec>, bytes: seq<Byte>, prior: seq<Byte>)
    requires Storable(recs, bytes)
    ensures var data := Data(recs, bytes, prior);
      && DataEnd(recs) <= |data| && data[..DataEnd(recs)] == bytes[..DataEnd(recs)]
      && |data| == Align4(DataEnd(recs)) == FooterOff(recs) - DataOff(|recs|)
      && forall i :: 0 <= i < |recs| ==> recs[i].keyOff + recs[i].keyLen <= |data| && recs[i].valOff + recs[i].valLen <= |data|
  {
  }

  /** Every file the serialiser writes passes the loader's header, offset and footer checks; the
      loader then stays within the file and its rounding is defined, unless there is one entry. */
  lemma ImageAccepted(crc: Crc, recs: seq<KvRec>, bytes: seq<Byte>, prior: seq<Byte>)
    requires Storable(recs, bytes)
    ensures var file := Image(crc, recs, bytes, prior);
      && HeaderAccepted(file) && HeaderOf(file)[9] <= |file| && FooterAccepted(crc, file)
      && (InBounds(file) <==> |recs| != 1)
  {
    hide HeaderOf, Image, Decode, Data, Body, EntryAt, Crc32, DataEnd, Align4, Storable;
    StorableSizes(recs, bytes);
    var file := Image(crc, recs, bytes, prior);
    var size := FooterOff(recs) - DataOff(|recs|);
    ImageSizes(crc, recs, bytes, prior);
    HeaderReadsBack(crc, recs, bytes, prior);
    FooterReadsBack(crc, recs, bytes, prior);
    DataHolds(recs, bytes, prior);
    forall i | 0 <= i < |recs| ensures EntryInBounds(file, i, size) {
      EntryReadsBack(crc, recs, bytes, prior, i);
      ModUpTo(recs[i].keyLen);
    }
  }

  lemma ModUpTo(n: nat)
    ensures n % WORD <= n
  {
  }

  lemma StorableSizes(recs: seq<KvRec>, bytes: seq<Byte>)
    requires Storable(recs, bytes)
    ensures recs != [] && DataEnd(recs) <= |bytes|
    ensures |recs| < 0x1000_0000 && DataOff(|recs|) <= FooterOff(recs) && FooterOff(recs) + FOOTER_SIZE < DWORD
  {
  }

  lemma ImageSizes(crc: Crc, recs: seq<KvRec>, bytes: seq<Byte>, prior: seq<Byte>)
    requires recs != [] && DataEnd(recs) <= |bytes|
    ensures |Image(crc, recs, bytes, prior)| == FooterOff(recs) + FOOTER_SIZE
  {
    hide Encode, Image, Toc, HeaderFields, FooterFields, Crc32, Resized, Width, DataEnd, Data, Body;
    ImageParts(crc, recs, bytes, prior);
  }

  /** Loading a serialised table yields its records with key lengths cut to 16 bits, its memory up
      to the last value, and an index of the next power of two built afresh. */
  lemma LoadOfImage(crc: Crc, recs: seq<KvRec>, bytes: seq<Byte>, prior: seq<Byte>)
    requires Storable(recs, bytes) && |recs| != 1 && DataEnd(recs) > 0
    ensures var file := Image(crc, recs, bytes, prior);
      var data := Data(recs, bytes, prior);
      && InBounds(file)
      && (forall i :: 0 <= i < |recs| ==> recs[i].keyOff + recs[i].keyLen <= |data|)
      && |recs| <= 0x8000_0000
      && var recs' := LoadedRecs(recs, data);
         IsPowerOf2(DwordNextPow2(|recs|))
         && Load(crc, file) == Option.Some(Phys(recs', IndexOf(recs', DwordNextPow2(|recs|)), data))
  {
    hide HeaderOf, Image, Decode, Data, Body, EntryAt, Crc32, DataEnd, Align4, Storable, IsPowerOf2, IndexOf, HeaderAccepted,
      FooterAccepted, DwordNextPow2, EntryInBounds;
    StorableSizes(recs, bytes);
    ImageSizes(crc, recs, bytes, prior);
    ImageAccepted(crc, recs, bytes, prior);
    HeaderReadsBack(crc, recs, bytes, prior);
    FooterReadsBack(crc, recs, bytes, prior);
    DataHolds(recs, bytes, prior);
    NextPow2Least(|recs|);
    RecsReadBack(crc, recs, bytes, prior);
  }

  lemma RecsReadBack(crc: Crc, recs: seq<KvRec>, bytes: seq<Byte>, prior: seq<Byte>)
    requires Storable(recs, bytes) && InBounds(Image(crc, recs, bytes, prior))
    requires DataOff(|recs|) <= |Image(crc, recs, bytes, prior)|
    requires EntriesInBounds(Image(crc, recs, bytes, prior), |recs|, |Data(recs, bytes, prior)|)
    requires forall i :: 0 <= i < |recs| ==> recs[i].keyOff + recs[i].keyLen <= |Data(recs, bytes, prior)|
    ensures RecsOf(Image(crc, recs, bytes, prior), |recs|, Data(recs, bytes, prior)) == LoadedRecs(recs, Data(recs, bytes, prior))
  {
    hide Image, Data, EntryAt, Storable, DataEnd;
    StorableSizes(recs, bytes);
    var file, data := Image(crc, recs, bytes, prior), Data(recs, bytes, prior);
    forall i | 0 <= i < |recs| ensures RecsOf(file, |recs|, data)[i] == LoadedRec(recs[i], data) {
      assert EntryInBounds(file, i, |data|);
      EntryReadsBack(crc, recs, bytes, prior, i);
      ModUpTo(recs[i].keyLen);
    }
  }

  // ---- The rebuilt index ----

  function RecHashes(recs: seq<KvRec>): (h: seq<nat>)
    ensures |h| == |recs| && forall i :: 0 <= i < |h| ==> h[i] == recs[i].keyHash
  {
    seq(|recs|, i requires 0 <= i < |recs| => recs[i].keyHash)
  }

  /** Rebuilding finds a slot for every entry, at any capacity that holds them. */
  lemma {:induction false} IndexOfChained(recs: seq<KvRec>, cap: nat)
    requires IsPowerOf2(cap) && |recs| <= cap
    ensures Chained(IndexOf(recs, cap), RecHashes(recs))
    ensures forall i :: 0 <= i < |recs| ==> i in IndexOf(recs, cap)
    decreases |recs|
  {
    hide Chained, Put, Home, IsPowerOf2;
    if recs == [] {
      assert RecHashes(recs) == [];
      EmptyChained(cap);
    } else {
      var n := |recs| - 1;
      IndexOfChained(recs[..n], cap);
      IndexStep(IndexOf(recs[..n], cap), recs);
    }
  }

  lemma EmptyChained(cap: nat)
    requires IsPowerOf2(cap)
    ensures Chained(EmptySlots(cap), [])
  {
  }

  lemma ChainedPower(slots: seq<int>, hashes: seq<nat>)
    requires Chained(slots, hashes)
    ensures IsPowerOf2(|slots|)
  {
  }

  lemma IndexStep(slots: seq<int>, recs: seq<KvRec>)
    requires recs != [] && |recs| <= |slots| && Chained(slots, RecHashes(recs[..|recs| - 1]))
    requires forall i :: 0 <= i < |recs| - 1 ==> i in slots
    ensures IsPowerOf2(|slots|)
    ensures var r := Put(slots, recs[|recs| - 1].keyHash, |recs| - 1);
      Chained(r, RecHashes(recs)) && forall i :: 0 <= i < |recs| ==> i in r
    ensures FirstFree(slots, Home(recs[|recs| - 1].keyHash, |slots|), 0) < |slots|
  {
    hide Put, Home, Chained, FirstFree, IsPowerOf2;
    var n := |recs| - 1;
    var before := RecHashes(recs[..n]);
    ChainedPower(slots, before);
    AppendChained(slots, before, recs[n].keyHash);
    assert RecHashes(recs) == before + [recs[n].keyHash];
  }

  // ---- What a loaded table holds ----

  /** A key after its length has been cut to 16 bits. */
  function Cut(key: Key): (r: Key)
    ensures |key| < WORD ==> r == key
    ensures |r| < WORD
  {
    ModUpTo(|key|);
    key[..|key| % WORD]
  }

  ghost predicate RecReads(r: KvRec, bytes: seq<Byte>, p: Pair) {
    && r.stat == (if p.live then 1 else 2)
    && r.keyLen == |Cut(p.key)| && r.keyHash == Fnv.Hash32(Cut(p.key)) && BytesAt(bytes, r.keyOff, Cut(p.key))
    && r.valLen == |p.val| && BytesAt(bytes, r.valOff, p.val)
  }

  /** A loaded table that holds the pairs, with cut keys, and indexes them all. */
  ghost predicate Reads(ph: Phys, pairs: seq<Pair>) {
    && |ph.recs| == |pairs|
    && (forall i :: 0 <= i < |pairs| ==> RecReads(ph.recs[i], ph.bytes, pairs[i]))
    && Chained(ph.slots, RecHashes(ph.recs))
    && (forall i :: 0 <= i < |pairs| ==> i in ph.slots)
  }

  /** A table in memory: its records and bytes hold its pairs. */
  ghost predicate Holds(t: Kv, recs: seq<KvRec>, bytes: seq<Byte>) {
    && KvInv(t) && |recs| == |t.pairs| && |bytes| == t.size
    && Recorded(recs, t.pairs) && Stored(bytes, t.pairs)
  }

  /** The table can be written, and the loader's rounding is defined for its entry count. */
  ghost predicate Writable(t: Kv, recs: seq<KvRec>, bytes: seq<Byte>) {
    Holds(t, recs, bytes) && |recs| >= 2 && FooterOff(recs) + FOOTER_SIZE < DWORD
  }

  lemma LayoutEnd(pairs: seq<Pair>, recs: seq<KvRec>)
    requires recs != [] && |recs| == |pairs| && Recorded(recs, pairs) && Roomy(pairs)
    ensures DataEnd(recs) + 1 == End(pairs) && DataEnd(recs) > 0
    ensures forall i :: 0 <= i < |recs| ==> RecStorable(recs[i], DataEnd(recs))
  {
    hide KeyOff, ValOff, End, Align4;
    var n := |recs|;
    assert RecIs(recs[n - 1], pairs, n - 1);
    PairWithin(pairs, n - 1);
    assert pairs[..n] == pairs;
    forall i | 0 <= i < n ensures RecStorable(recs[i], DataEnd(recs)) {
      assert RecIs(recs[i], pairs, i);
      PairWithin(pairs, i);
    }
  }

  lemma WritableStorable(t: Kv, recs: seq<KvRec>, bytes: seq<Byte>)
    requires Writable(t, recs, bytes)
    ensures Storable(recs, bytes) && DataEnd(recs) > 0 && Roomy(t.pairs)
  {
    hide Recorded, Stored, End, Indexed, RecStorable, FooterOff;
    LayoutEnd(t.pairs, recs);
  }

  /** Bytes before the end of the last value survive. */
  lemma SliceSurvives(bytes: seq<Byte>, data: seq<Byte>, end: nat, off: nat, s: seq<Byte>)
    requires end <= |bytes| && end <= |data| && data[..end] == bytes[..end] && off + |s| <= end && BytesAt(bytes, off, s)
    ensures BytesAt(data, off, s)
  {
    assert bytes[off..off + |s|] == bytes[..end][off..off + |s|];
    assert data[off..off + |s|] == data[..end][off..off + |s|];
  }

  lemma BytesAtPrefix(bytes: seq<Byte>, off: nat, s: seq<Byte>, n: nat)
    requires BytesAt(bytes, off, s) && n <= |s|
    ensures BytesAt(bytes, off, s[..n]) && bytes[off..off + n] == s[..n]
  {
    assert bytes[off..off + n] == bytes[off..off + |s|][..n];
  }

  lemma RecSurvives(r: KvRec, bytes: seq<Byte>, data: seq<Byte>, end: nat, pairs: seq<Pair>, i: nat)
    requires i < |pairs| && RecIs(r, pairs, i) && PairAt(bytes, pairs, i) && RecStorable(r, end)
    requires end <= |bytes| && end <= |data| && data[..end] == bytes[..end]
    ensures RecReads(LoadedRec(r, data), data, pairs[i])
  {
    hide KeyOff, ValOff, BytesAt;
    SliceSurvives(bytes, data, end, r.keyOff, pairs[i].key);
    SliceSurvives(bytes, data, end, r.valOff, pairs[i].val);
    BytesAtPrefix(data, r.keyOff, pairs[i].key, |pairs[i].key| % WORD);
  }

  /** Loading a serialised table succeeds and yields a table that holds its pairs. */
  lemma RoundTripReads(crc: Crc, t: Kv, recs: seq<KvRec>, bytes: seq<Byte>, prior: seq<Byte>)
    requires Writable(t, recs, bytes)
    ensures recs != [] && DataEnd(recs) <= |bytes| && InBounds(Image(crc, recs, bytes, prior))
    ensures Load(crc, Image(crc, recs, bytes, prior)).Some?
    ensures Reads(Load(crc, Image(crc, recs, bytes, prior)).value, t.pairs)
  {
    hide Load, Image, Data, DataEnd, IndexOf, DwordNextPow2, IsPowerOf2, Storable, LoadedRec, RecReads, KvInv, RecIs,
      PairAt, Chained, InBounds, FooterOff, RecStorable;
    WritableStorable(t, recs, bytes);
    LayoutEnd(t.pairs, recs);
    LoadOfImage(crc, recs, bytes, prior);
    NextPow2Least(|recs|);
    DataHolds(recs, bytes, prior);
    StorableSizes(recs, bytes);
    var data := Data(recs, bytes, prior);
    var recs' := LoadedRecs(recs, data);
    IndexOfChained(recs', DwordNextPow2(|recs|));
    forall i | 0 <= i < |recs| ensures RecReads(recs'[i], data, t.pairs[i]) {
      assert RecIs(recs[i], t.pairs, i) && PairAt(bytes, t.pairs, i) && RecStorable(recs[i], DataEnd(recs));
      RecSurvives(recs[i], bytes, data, DataEnd(recs), t.pairs, i);
    }
  }

  // ---- Meaning ----

  /** What a lookup in a loaded table accepts. */
  ghost function PhysHits(ph: Phys, key: Key): set<int> {
    RecHits(ph.recs, ph.bytes, key)
  }

  ghost function PhysLocate(ph: Phys, key: Key): int
    requires IsPowerOf2(|ph.slots|)
  {
    Find(ph.slots, Home(Fnv.Hash32(key), |ph.slots|), 0, PhysHits(ph, key))
  }

  ghost predicate ShortKeys(pairs: seq<Pair>) {
    forall i :: 0 <= i < |pairs| && pairs[i].live ==> |pairs[i].key| < WORD
  }

  /** A lookup in a loaded table accepts exactly the live pairs with the cut key. */
  lemma HitsAre(ph: Phys, pairs: seq<Pair>, key: Key, i: int)
    requires Reads(ph, pairs)
    ensures i in PhysHits(ph, key) <==> 0 <= i < |pairs| && pairs[i].live && Cut(pairs[i].key) == key
  {
  }

  /** The loaded table finds a pair by its cut key, if no other live pair has the same. */
  lemma PhysDecides(ph: Phys, pairs: seq<Pair>, key: Key)
    requires Reads(ph, pairs)
    requires forall i, j :: i in PhysHits(ph, key) && j in PhysHits(ph, key) ==> i == j
    ensures IsPowerOf2(|ph.slots|)
    ensures forall i :: i in PhysHits(ph, key) ==> PhysLocate(ph, key) == i
    ensures (forall i :: i !in PhysHits(ph, key)) ==> PhysLocate(ph, key) == NOT_FOUND
  {
    hide Find, Home, Reaches, RecReads;
    var hits := PhysHits(ph, key);
    FindDecides(ph.slots, RecHashes(ph.recs), Fnv.Hash32(key), hits);
    forall i | i in hits ensures PhysLocate(ph, key) == i {
      assert i in ph.slots;
    }
  }

  /** Loading preserves the meaning of a table: for every key, lookup finds the same entry. */
  lemma SameLookups(t: Kv, ph: Phys, key: Key)
    requires KvInv(t) && Reads(ph, t.pairs) && ShortKeys(t.pairs)
    ensures IsPowerOf2(|ph.slots|) && IsPowerOf2(|t.slots|) && PhysLocate(ph, key) == Locate(t, key)
    ensures var i := Locate(t, key);
      i >= 0 ==> i < |t.pairs| && RecReads(ph.recs[i], ph.bytes, t.pairs[i])
  {
    hide KvInv, PhysHits, Locate, Find, Home, Chained, RecReads, IsPowerOf2, PhysLocate;
    LocateDecidesInv(t, key);
    forall i ensures i in PhysHits(ph, key) <==> LiveAt(t, key, i) {
      HitsAre(ph, t.pairs, key, i);
    }
    PhysDecides(ph, t.pairs, key);
    assert LiveAt(t, key, Locate(t, key)) ==> Locate(t, key) in PhysHits(ph, key);
  }

  /** A live key of 2^16 bytes or more is found before serialising and no longer after loading. */
  lemma LongKeyIsLost(t: Kv, ph: Phys, i: nat)
    requires KvInv(t) && Reads(ph, t.pairs) && i < |t.pairs| && t.pairs[i].live && |t.pairs[i].key| >= WORD
    ensures IsPowerOf2(|ph.slots|) && IsPowerOf2(|t.slots|)
    ensures Locate(t, t.pairs[i].key) == i && PhysLocate(ph, t.pairs[i].key) == NOT_FOUND
  {
    hide KvInv, PhysHits, Locate, Find, Home, Chained, RecReads, IsPowerOf2, PhysLocate;
    var key := t.pairs[i].key;
    LocateDecidesInv(t, key);
    assert LiveAt(t, key, i);
    forall j ensures j !in PhysHits(ph, key) {
      HitsAre(ph, t.pairs, key, j);
    }
    PhysDecides(ph, t.pairs, key);
  }

  /** Serialise, then load: every lookup gives the same entry before and after, although capacity,
      slots and probe chains may all differ, if and only if every live key is shorter than 2^16. */
  lemma RoundTripMeaning(crc: Crc, t: Kv, recs: seq<KvRec>, bytes: seq<Byte>, prior: seq<Byte>)
    requires Writable(t, recs, bytes)
    ensures recs != [] && DataEnd(recs) <= |bytes| && InBounds(Image(crc, recs, bytes, prior))
    ensures Load(crc, Image(crc, recs, bytes, prior)).Some?
    ensures var ph := Load(crc, Image(crc, recs, bytes, prior)).value;
      && IsPowerOf2(|ph.slots|) && IsPowerOf2(|t.slots|)
      && ((forall key :: PhysLocate(ph, key) == Locate(t, key)) <==> ShortKeys(t.pairs))
  {
    hide Load, Image, DataEnd, IsPowerOf2, KvInv, InBounds, FooterOff, PhysLocate, Locate, Reads;
    RoundTripReads(crc, t, recs, bytes, prior);
    MeaningIff(t, Load(crc, Image(crc, recs, bytes, prior)).value);
  }

  lemma MeaningIff(t: Kv, ph: Phys)
    requires KvInv(t) && Reads(ph, t.pairs)
    ensures IsPowerOf2(|ph.slots|) && IsPowerOf2(|t.slots|)
    ensures (forall key :: PhysLocate(ph, key) == Locate(t, key)) <==> ShortKeys(t.pairs)
  {
    hide IsPowerOf2, KvInv, PhysLocate, Locate, Reads;
    PowersOf(t, ph);
    if ShortKeys(t.pairs) {
      forall key ensures PhysLocate(ph, key) == Locate(t, key) {
        SameLookups(t, ph, key);
      }
    } else {
      var i: nat :| i < |t.pairs| && t.pairs[i].live && |t.pairs[i].key| >= WORD;
      LongKeyIsLost(t, ph, i);
    }
  }

  lemma PowersOf(t: Kv, ph: Phys)
    requires KvInv(t) && Reads(ph, t.pairs)
    ensures IsPowerOf2(|ph.slots|) && IsPowerOf2(|t.slots|)
  {
  }

  // ---- The loaded table as a table ----

  /** The pairs as a file keeps them: keys cut, everything else in place. */
  function CutPairs(pairs: seq<Pair>): (r: seq<Pair>)
    ensures |r| == |pairs| && forall i :: 0 <= i < |r| ==> r[i] == pairs[i].(key := Cut(pairs[i].key))
  {
    seq(|pairs|, i requires 0 <= i < |pairs| => pairs[i].(key := Cut(pairs[i].key)))
  }

  function RecsFor(pairs: seq<Pair>): (r: seq<KvRec>)
    ensures |r| == |pairs| && forall i :: 0 <= i < |r| ==> r[i] == RecFor(pairs, i)
  {
    seq(|pairs|, i requires 0 <= i < |pairs| => RecFor(pairs, i))
  }

  /** A table that survives a file: two entries or more, short live keys, less than 2^32 bytes. */
  ghost predicate Savable(t: Kv) {
    && |t.pairs| >= 2 && ShortKeys(t.pairs)
    && DataOff(|t.pairs|) + Align4(DataSize(t)) + FOOTER_SIZE < DWORD
  }

  /** The bytes a file keeps of the arena: all but the last terminator. */
  function DataSize(t: Kv): nat {
    if End(t.pairs) == 0 then 0 else End(t.pairs) - 1
  }

  /** The table as it comes back from a file, of the least capacity and memory. */
  function Reload(t: Kv): Kv
    requires Savable(t)
  {
    SavableCount(t);
    NextPow2Least(|t.pairs|);
    var pairs, size := CutPairs(t.pairs), Align4(DataSize(t));
    Kv(pairs, IndexOf(RecsFor(pairs), DwordNextPow2(|pairs|)), size, size)
  }

  lemma SavableCount(t: Kv)
    requires Savable(t)
    ensures |t.pairs| != 1 && |t.pairs| < 0x1000_0000
  {
    hide Align4, End;
  }

  lemma CutKeepsLayout(pairs: seq<Pair>, i: nat)
    requires i < |pairs|
    ensures KeyOff(CutPairs(pairs), i) == KeyOff(pairs, i) && ValOff(CutPairs(pairs), i) == ValOff(pairs, i)
    ensures End(CutPairs(pairs)) == End(pairs)
  {
    hide Align4, End, Cut;
    SameLengthsSameEnd(pairs, CutPairs(pairs));
    SameLengthsSameEnd(pairs[..i], CutPairs(pairs)[..i]);
  }

  lemma CutProper(pairs: seq<Pair>)
    requires Proper(pairs) && ShortKeys(pairs)
    ensures Proper(CutPairs(pairs))
  {
    forall i | 0 <= i < |pairs| ensures RoomFits(CutPairs(pairs)[i]) {
      assert RoomFits(pairs[i]);
      ModUpTo(|pairs[i].key|);
    }
  }

  lemma ReloadIndexed(pairs: seq<Pair>)
    requires 2 <= |pairs| < 0x1000_0000
    ensures IsPowerOf2(DwordNextPow2(|pairs|)) && |pairs| <= DwordNextPow2(|pairs|)
    ensures Indexed(Kv(pairs, IndexOf(RecsFor(pairs), DwordNextPow2(|pairs|)), 0, 0))
  {
    hide Chained, KeyOff, ValOff, IndexOf, IsPowerOf2, DwordNextPow2;
    NextPow2Least(|pairs|);
    IndexOfChained(RecsFor(pairs), DwordNextPow2(|pairs|));
    assert RecHashes(RecsFor(pairs)) == Hashes(pairs);
  }

  lemma EndPositive(pairs: seq<Pair>)
    requires pairs != []
    ensures End(pairs) >= 2
  {
    hide Align4;
  }

  /** The table from a file satisfies the invariant of tables, and means what it meant before. */
  lemma ReloadMeans(t: Kv, m: map<Key, Value>)
    requires KvInv(t) && Savable(t)
    ensures KvInv(Reload(t)) && Loaded(Reload(t))
    ensures Means(t.pairs, m) ==> Means(Reload(t).pairs, m)
  {
    hide Chained, IndexOf, IsPowerOf2, DwordNextPow2, End, Align4, Indexed, Cut, Proper, Means;
    var pairs := CutPairs(t.pairs);
    SavableCount(t);
    CutProper(t.pairs);
    CutKeepsLayout(t.pairs, 0);
    EndPositive(t.pairs);
    ReloadIndexed(pairs);
    IndexedAnywhere(Kv(pairs, IndexOf(RecsFor(pairs), DwordNextPow2(|pairs|)), 0, 0), Reload(t));
    if Means(t.pairs, m) { CutMeans(t.pairs, m); }
  }

  lemma IndexedAnywhere(a: Kv, b: Kv)
    requires Indexed(a) && b.pairs == a.pairs && b.slots == a.slots
    ensures Indexed(b)
  {
  }

  lemma CutMeans(pairs: seq<Pair>, m: map<Key, Value>)
    requires ShortKeys(pairs) && Means(pairs, m)
    ensures Means(CutPairs(pairs), m)
  {
    var cut := CutPairs(pairs);
    forall p | p in cut && p.live ensures p.key in m && m[p.key] == p.val {
      var i :| 0 <= i < |cut| && cut[i] == p;
      assert pairs[i] in pairs && p == pairs[i];
    }
    forall k | k in m ensures exists p :: p in cut && p.live && p.key == k {
      var p :| p in pairs && p.live && p.key == k;
      var i :| 0 <= i < |pairs| && pairs[i] == p;
      assert cut[i] in cut && cut[i] == p;
    }
  }

  /** Compacting a table that came from a file with no dead entries fails exactly when the data
      filled the memory to the last byte, so that the last terminator was cut off. */
  lemma CompactAfterReload(t: Kv)
    requires KvInv(t) && Savable(t) && AllLive(t.pairs)
    ensures KvInv(Reload(t))
    ensures KvModel.Compact(Reload(t)).None? <==> DataSize(t) % MEM_ALIGN == 0
  {
    hide KvInv, KvModel.Compact, IndexOf, IsPowerOf2, DwordNextPow2, End, Align4, Cut;
    ReloadMeans(t, map[]);
    CompactExact(Reload(t));
    LiveOfLive(Reload(t).pairs);
    CutKeepsLayout(t.pairs, 0);
    EndPositive(t.pairs);
    Align4Value(DataSize(t));
  }

  lemma Appended(t: Kv, key: Key, val: Value, end: nat) returns (a: Kv)
    requires KvInv(t) && Built(t) && |t.pairs| < |t.slots|
    requires (forall p :: p in t.pairs ==> p.key != key) && EndAfter(t.cur, |key|, |val|) == end <= t.size
    ensures KvInv(a) && Built(a) && a.pairs == t.pairs + [NewPair(key, val)] && a.cur == end
    ensures a.size == t.size && |a.slots| == |t.slots|
  {
    hide KvInv, Append, EndAfter, End;
    forall i ensures !LiveAt(t, key, i) {}
    AppendReady(t, key, val);
    AppendFields(t, key, val);
    a := Append(t, key, val);
  }

  /** Such a table: two keys of one byte with values of four. */
  lemma CompactCanFail() returns (t: Kv)
    ensures KvInv(t) && Built(t) && Savable(t) && KvInv(Reload(t)) && KvModel.Compact(Reload(t)).None?
  {
    hide IsPowerOf2, KvModel.Compact, KvInv, Reload, End, EmptyKv, EndAfter, Align4;
    Two();
    var v: Value := [0, 0, 0, 0];
    EmptyKvInv(2, 64);
    EmptyLayout();
    EndIs(0, 1, 4, 9);
    EndIs(9, 1, 4, 21);
    t := Appended(EmptyKv(2, 64), [1], v, 9);
    t := Appended(t, [2], v, 21);
    assert t.pairs == [NewPair([1], v), NewPair([2], v)];
    Align4Value(20);
    CompactAfterReload(t);
  }

  lemma Two()
    ensures IsPowerOf2(2)
  {
  }

  lemma EmptyLayout()
    ensures var e := EmptyKv(2, 64);
      e.pairs == [] && |e.slots| == 2 && e.cur == 0 == End([]) && e.size == 64
  {
  }

  lemma EndIs(cur: nat, keyLen: nat, valLen: nat, end: nat)
    requires var k := cur + (if cur % 4 == 0 then 0 else 4 - cur % 4) + keyLen + 1;
      end == k + (if k % 4 == 0 then 0 else 4 - k % 4) + valLen + 1
    ensures EndAfter(cur, keyLen, valLen) == end
  {
    hide Align4;
    Align4Value(cur);
    Align4Value(Align4(cur) + keyLen + 1);
  }

  lemma {:induction false} LiveOfLive(pairs: seq<Pair>)
    requires AllLive(pairs)
    ensures Live(pairs) == pairs
  {
    if pairs != [] { LiveOfLive(pairs[..|pairs| - 1]); }
  }

  // ---- Serialising again ----

  lemma EntryBytesSame(r: KvRec, data: seq<Byte>)
    requires r.keyOff + r.keyLen <= |data|
    ensures Encode(EntryFields(LoadedRec(r, data))) == Encode(EntryFields(r))
  {
    hide Le, Fnv.Hash32;
    Pow256Values();
    LeOfTruncated(r.keyLen, 2);
    EncodeOne(EntryFields(r), EntryFields(LoadedRec(r, data)));
  }

  /** Two structures that agree but for one field's value, stored alike, have the same bytes. */
  lemma {:induction false} EncodeOne(f: seq<Field>, g: seq<Field>)
    requires |f| == |g| && forall i :: 0 <= i < |f| ==> Le(f[i].value, f[i].width) == Le(g[i].value, g[i].width) && f[i].width == g[i].width
    ensures Encode(f) == Encode(g)
  {
    hide Le;
    if f != [] { EncodeOne(f[1..], g[1..]); }
  }

  lemma {:induction false} TocSame(recs: seq<KvRec>, data: seq<Byte>)
    requires forall i :: 0 <= i < |recs| ==> recs[i].keyOff + recs[i].keyLen <= |data|
    ensures Toc(LoadedRecs(recs, data)) == Toc(recs)
    decreases |recs|
  {
    hide Encode, LoadedRec;
    if recs != [] {
      var n := |recs| - 1;
      TocSame(recs[..n], data);
      assert LoadedRecs(recs, data)[..n] == LoadedRecs(recs[..n], data);
      EntryBytesSame(recs[n], data);
    }
  }

  /** Serialising the loaded table into the same old file reproduces the file byte for byte. */
  lemma SerialiseAgain(crc: Crc, t: Kv, recs: seq<KvRec>, bytes: seq<Byte>, prior: seq<Byte>)
    requires Writable(t, recs, bytes)
    ensures recs != [] && DataEnd(recs) <= |bytes| && InBounds(Image(crc, recs, bytes, prior))
    ensures Load(crc, Image(crc, recs, bytes, prior)).Some?
    ensures var ph := Load(crc, Image(crc, recs, bytes, prior)).value;
      && ph.recs != [] && DataEnd(ph.recs) <= |ph.bytes|
      && Image(crc, ph.recs, ph.bytes, prior) == Image(crc, recs, bytes, prior)
  {
    hide Load, Image, Data, IndexOf, DwordNextPow2, IsPowerOf2, Storable, KvInv, RecIs, PairAt, InBounds, FooterOff,
      RecStorable, DataEnd, LoadedRec;
    WritableStorable(t, recs, bytes);
    LoadOfImage(crc, recs, bytes, prior);
    DataHolds(recs, bytes, prior);
    StorableSizes(recs, bytes);
    var data := Data(recs, bytes, prior);
    TocSame(recs, data);
    SameEnd(recs, data);
    ImageSame(crc, recs, LoadedRecs(recs, data), bytes, data, prior);
  }

  lemma SameEnd(recs: seq<KvRec>, data: seq<Byte>)
    requires recs != [] && forall i :: 0 <= i < |recs| ==> recs[i].keyOff + recs[i].keyLen <= |data|
    ensures DataEnd(LoadedRecs(recs, data)) == DataEnd(recs)
  {
  }

  lemma ImageSame(crc: Crc, recs: seq<KvRec>, recs': seq<KvRec>, bytes: seq<Byte>, bytes': seq<Byte>, prior: seq<Byte>)
    requires recs != [] && |recs'| == |recs| && Toc(recs') == Toc(recs) && DataEnd(recs') == DataEnd(recs)
    requires DataEnd(recs) <= |bytes| && DataEnd(recs) <= |bytes'| && bytes[..DataEnd(recs)] == bytes'[..DataEnd(recs)]
    ensures Image(crc, recs', bytes', prior) == Image(crc, recs, bytes, prior)
  {
    hide Encode, FooterFields, Crc32, Body, DataEnd;
    BodySame(recs, recs', bytes, bytes', prior);
  }

  lemma BodySame(recs: seq<KvRec>, recs': seq<KvRec>, bytes: seq<Byte>, bytes': seq<Byte>, prior: seq<Byte>)
    requires recs != [] && |recs'| == |recs| && Toc(recs') == Toc(recs) && DataEnd(recs') == DataEnd(recs)
    requires DataEnd(recs) <= |bytes| && DataEnd(recs) <= |bytes'| && bytes[..DataEnd(recs)] == bytes'[..DataEnd(recs)]
    ensures Body(recs', bytes', prior) == Body(recs, bytes, prior)
  {
    hide Encode, Toc, HeaderFields, Resized, DataEnd, Align4;
    assert FooterOff(recs') == FooterOff(recs);
  }
}
