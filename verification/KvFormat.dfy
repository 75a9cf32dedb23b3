/** The key/value file format on values: what the serialiser writes and what the loader reads. */
module KvFormat {
  import opened Bits
  import opened Wrappers
  import opened HashIndex
  import opened KvModel
  import opened KvTable
  import opened Packed
  import Fnv

  const MAGIC: nat := 0xBBA9_B423
  const VERSION: nat := 0x0201
  const EOF_MAGIC: nat := 0x0403_7F1A
  const FLAGS: nat := 5
  const HEADER_SIZE: nat := 32
  const ENTRY_SIZE: nat := 16
  const FOOTER_SIZE: nat := 8
  const WORD: nat := 0x1_0000

  const HEADER_WIDTHS: seq<nat> := [4, 2, 2, 2, 2, 4, 4, 4, 4, 4]
  const ENTRY_WIDTHS: seq<nat> := [2, 2, 4, 4, 4]
  const FOOTER_WIDTHS: seq<nat> := [4, 4]

  // ---- Writing ----

  function HeaderFields(n: nat, datOff: nat, ftrOff: nat): seq<Field> {
    [Field(MAGIC, 4), Field(VERSION, 2), Field(MEM_ALIGN, 2), Field(HEADER_SIZE, 2), Field(FOOTER_SIZE, 2),
     Field(FLAGS, 4), Field(n, 4), Field(HEADER_SIZE, 4), Field(datOff, 4), Field(ftrOff, 4)]
  }

  function EntryFields(r: KvRec): seq<Field> {
    [Field(r.stat, 2), Field(r.keyLen, 2), Field(r.keyOff, 4), Field(r.valLen, 4), Field(r.valOff, 4)]
  }

  function FooterFields(crc: nat): seq<Field> {
    [Field(crc, 4), Field(EOF_MAGIC, 4)]
  }

  lemma StructSizes(n: nat, datOff: nat, ftrOff: nat, r: KvRec, crc: nat)
    ensures Width(HeaderFields(n, datOff, ftrOff)) == HEADER_SIZE
    ensures Width(EntryFields(r)) == ENTRY_SIZE
    ensures Width(FooterFields(crc)) == FOOTER_SIZE
  {
    HeaderSize(HeaderFields(n, datOff, ftrOff));
    EntrySize(EntryFields(r));
    FooterSize(FooterFields(crc));
  }

  lemma HeaderSize(f: seq<Field>)
    requires |f| == 10 && forall i :: 0 <= i < 10 ==> f[i].width == HEADER_WIDTHS[i]
    ensures Width(f) == HEADER_SIZE
  {
    hide Width;
    WidthStep(f, 0); WidthStep(f, 1); WidthStep(f, 2); WidthStep(f, 3); WidthStep(f, 4);
    WidthStep(f, 5); WidthStep(f, 6); WidthStep(f, 7); WidthStep(f, 8); WidthStep(f, 9);
    assert f[..10] == f;
  }

  lemma EntrySize(f: seq<Field>)
    requires |f| == 5 && forall i :: 0 <= i < 5 ==> f[i].width == ENTRY_WIDTHS[i]
    ensures Width(f) == ENTRY_SIZE
  {
    hide Width;
    WidthStep(f, 0); WidthStep(f, 1); WidthStep(f, 2); WidthStep(f, 3); WidthStep(f, 4);
    assert f[..5] == f;
  }

  lemma FooterSize(f: seq<Field>)
    requires |f| == 2 && forall i :: 0 <= i < 2 ==> f[i].width == FOOTER_WIDTHS[i]
    ensures Width(f) == FOOTER_SIZE
  {
    hide Width;
    WidthStep(f, 0); WidthStep(f, 1);
    assert f[..2] == f;
  }

  lemma WidthStep(f: seq<Field>, i: nat)
    requires i < |f|
    ensures Width(f[..i + 1]) == Width(f[..i]) + f[i].width && Width(f[..0]) == 0
  {
    hide Encode, Width;
    EncodeNone(f);
    EncodeAppend(f[..i], f[i]);
    assert f[..i + 1] == f[..i] + [f[i]];
  }

  function DataOff(n: nat): nat { HEADER_SIZE + n * ENTRY_SIZE }

  /** The end of the stored bytes: the last value's, without its terminator. */
  function DataEnd(recs: seq<KvRec>): nat
    requires recs != []
  {
    recs[|recs| - 1].valOff + recs[|recs| - 1].valLen
  }

  function FooterOff(recs: seq<KvRec>): nat
    requires recs != []
  {
    DataOff(|recs|) + Align4(DataEnd(recs))
  }

  function Toc(recs: seq<KvRec>): seq<Byte> {
    if recs == [] then [] else Toc(recs[..|recs| - 1]) + Encode(EntryFields(recs[|recs| - 1]))
  }

  /** A file's bytes from `from` to `to` after resizing it with zero fill. */
  function Resized(prior: seq<Byte>, from: nat, to: nat): (r: seq<Byte>)
    requires from <= to
    ensures |r| == to - from
  {
    seq(to - from, i requires 0 <= i => if from + i < |prior| then prior[from + i] else 0)
  }

  /** Everything before the footer. The gap after the data keeps what the file had there. */
  function Body(recs: seq<KvRec>, bytes: seq<Byte>, prior: seq<Byte>): seq<Byte>
    requires recs != [] && DataEnd(recs) <= |bytes|
  {
    var n := |recs|;
    var end := DataEnd(recs);
    Encode(HeaderFields(n, DataOff(n), FooterOff(recs))) + Toc(recs) + bytes[..end]
      + Resized(prior, DataOff(n) + end, FooterOff(recs))
  }

  /** The file the serialiser leaves, given the table's records and memory and the old file. */
  function Image(crc: Crc, recs: seq<KvRec>, bytes: seq<Byte>, prior: seq<Byte>): seq<Byte>
    requires recs != [] && DataEnd(recs) <= |bytes|
  {
    var body := Body(recs, bytes, prior);
    body + Encode(FooterFields(Crc32(crc, body)))
  }

  // ---- Reading ----

  /** The table a loader builds: records, index and memory. */
  datatype Phys = Phys(recs: seq<KvRec>, slots: seq<int>, bytes: seq<Byte>)

  function HeaderOf(file: seq<Byte>): (h: seq<nat>)
    ensures |h| == 10
  {
    Decode(HEADER_WIDTHS, file)
  }

  /** The loader's checks of the header, in 32-bit arithmetic. */
  predicate HeaderAccepted(file: seq<Byte>) {
    var h := HeaderOf(file);
    && h[0] == MAGIC && h[3] == HEADER_SIZE && h[4] == FOOTER_SIZE && h[7] == h[3]
    && Wrap32(h[8] as int - h[7]) == h[6] * ENTRY_SIZE
    && Wrap32(h[9] + h[4]) <= Wrap32(|file|)
  }

  predicate FooterAccepted(crc: Crc, file: seq<Byte>)
    requires HeaderOf(file)[9] <= |file|
  {
    var off := HeaderOf(file)[9];
    var f := Decode(FOOTER_WIDTHS, file[off..]);
    f[1] == EOF_MAGIC && Crc32(crc, file[..off]) == f[0]
  }

  function EntryAt(file: seq<Byte>, i: nat): (e: seq<nat>)
    requires HEADER_SIZE + i * ENTRY_SIZE <= |file|
    ensures |e| == 5
  {
    Decode(ENTRY_WIDTHS, file[HEADER_SIZE + i * ENTRY_SIZE..])
  }

  /** What the loader relies on without checking: its reads stay inside the file, and the entry
      count is in the domain of its power-of-two rounding. */
  predicate InBounds(file: seq<Byte>) {
    |file| >= HEADER_SIZE
    && (HeaderAccepted(file) ==>
          var h := HeaderOf(file);
          && h[8] <= h[9] && h[9] + FOOTER_SIZE <= |file| && DataOff(h[6]) <= |file|
          && h[6] != 1 && h[6] <= 0x8000_0000
          && EntriesInBounds(file, h[6], h[9] - h[8]))
  }

  predicate EntriesInBounds(file: seq<Byte>, n: nat, size: nat)
    requires DataOff(n) <= |file|
  {
    forall i :: 0 <= i < n ==> EntryInBounds(file, i, size)
  }

  predicate EntryInBounds(file: seq<Byte>, i: nat, size: nat)
    requires HEADER_SIZE + i * ENTRY_SIZE <= |file|
  {
    var e := EntryAt(file, i);
    e[2] + e[1] <= size && e[4] + e[3] <= size
  }

  function RecOf(e: seq<nat>, bytes: seq<Byte>): KvRec
    requires |e| == 5 && e[2] + e[1] <= |bytes|
  {
    KvRec(e[1], e[2], e[3], e[4], Fnv.Hash32(bytes[e[2]..e[2] + e[1]]), e[0])
  }

  /** The index after inserting the entries' hashes in order. */
  function IndexOf(recs: seq<KvRec>, cap: nat): (r: seq<int>)
    requires IsPowerOf2(cap)
    ensures |r| == cap
  {
    if recs == [] then EmptySlots(cap)
    else
      var n := |recs| - 1;
      Put(IndexOf(recs[..n], cap), recs[n].keyHash, n)
  }

  function RecsOf(file: seq<Byte>, n: nat, bytes: seq<Byte>): (r: seq<KvRec>)
    requires DataOff(n) <= |file| && EntriesInBounds(file, n, |bytes|)
    ensures |r| == n
  {
    seq(n, i requires 0 <= i < n => assert EntryInBounds(file, i, |bytes|); RecOf(EntryAt(file, i), bytes))
  }

  /** `KVTable_create_load_from_file`, which fails for a file without data since a table cannot be
      created without memory. */
  function Load(crc: Crc, file: seq<Byte>): Option<Phys>
    requires InBounds(file)
  {
    if !HeaderAccepted(file) || !FooterAccepted(crc, file) then None
    else
      var h := HeaderOf(file);
      var bytes := file[h[8]..h[9]];
      var recs := RecsOf(file, h[6], bytes);
      NextPow2Least(h[6]);
      if bytes == [] then None else Some(Phys(recs, IndexOf(recs, DwordNextPow2(h[6])), bytes))
  }
}
