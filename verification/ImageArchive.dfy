/** The sequential image archive: data appended at 16-byte boundaries, a table of contents kept in
    memory, and a flush that writes header and table over the start of the file. */
module ImageArchive {
  import opened Bits
  import opened Wrappers
  import opened Packed

  const ALIGN_SIZE: nat := 16
  const VERSION: nat := 0x0101
  const MAGIC: nat := 0x000A_4547_414D_49FF
  const HEADER_SIZE: nat := 64
  const HEADER_BASE_SIZE: nat := 56
  const TOC_ENTRY_SIZE: nat := 32

  const INVALID_MEMBUF: int := -2
  const INVALID_ICUR: int := -5
  const FILE_FULL: int := -9
  const CALC_CRC_FAILED: int := -10
  const INVALID_ENTRY_COUNT: int := -12

  // ---- Bytes ----

  function Overlay(bytes: seq<Byte>, off: nat, s: seq<Byte>): (r: seq<Byte>)
    requires off + |s| <= |bytes|
    ensures |r| == |bytes|
  {
    bytes[..off] + s + bytes[off + |s|..]
  }

  function Zeros(n: nat): (r: seq<Byte>)
    ensures |r| == n
  {
    seq(n, _ => 0)
  }

  /** A file after a complete write at a position, which may lie beyond its end. */
  function WriteFile(file: seq<Byte>, pos: nat, s: seq<Byte>): seq<Byte> {
    if s == [] then file
    else if pos + |s| <= |file| then Overlay(file, pos, s)
    else if pos <= |file| then file[..pos] + s
    else file + Zeros(pos - |file|) + s
  }

  lemma OverlayAt(bytes: seq<Byte>, off: nat, s: seq<Byte>)
    requires off + |s| <= |bytes|
    ensures BytesAt(Overlay(bytes, off, s), off, s)
  {
    var r := Overlay(bytes, off, s);
    assert r == (bytes[..off] + s) + bytes[off + |s|..];
    assert r[..off + |s|] == bytes[..off] + s;
    assert r[off..off + |s|] == r[..off + |s|][off..];
  }

  /** An overlay leaves every stretch it does not touch. */
  lemma OverlayElsewhere(bytes: seq<Byte>, off: nat, s: seq<Byte>, at: nat, t: seq<Byte>)
    requires off + |s| <= |bytes| && BytesAt(bytes, at, t) && (at + |t| <= off || off + |s| <= at)
    ensures BytesAt(Overlay(bytes, off, s), at, t)
  {
    var r := Overlay(bytes, off, s);
    forall k | 0 <= k < |t| ensures r[at + k] == t[k] {
      assert bytes[at + k] == bytes[at..at + |t|][k];
    }
  }

  lemma WriteFileAt(file: seq<Byte>, pos: nat, s: seq<Byte>)
    requires s != []
    ensures BytesAt(WriteFile(file, pos, s), pos, s)
  {
    if pos + |s| <= |file| {
      OverlayAt(file, pos, s);
    }
  }

  lemma WriteFileElsewhere(file: seq<Byte>, pos: nat, s: seq<Byte>, at: nat, t: seq<Byte>)
    requires BytesAt(file, at, t) && (at + |t| <= pos || pos + |s| <= at)
    ensures BytesAt(WriteFile(file, pos, s), at, t)
  {
    if s != [] {
      if pos + |s| <= |file| {
        OverlayElsewhere(file, pos, s, at, t);
      } else if pos <= |file| {
        PrefixBytesAt(file, pos, at, t);
        ExtendBytesAt(file[..pos], s, at, t);
      } else {
        ExtendBytesAt(file, Zeros(pos - |file|) + s, at, t);
        assert file + Zeros(pos - |file|) + s == file + (Zeros(pos - |file|) + s);
      }
    }
  }

  lemma PrefixBytesAt(bytes: seq<Byte>, n: nat, at: nat, t: seq<Byte>)
    requires BytesAt(bytes, at, t) && at + |t| <= n <= |bytes|
    ensures BytesAt(bytes[..n], at, t)
  {
    assert bytes[..n][at..at + |t|] == bytes[at..at + |t|];
  }

  lemma ExtendBytesAt(bytes: seq<Byte>, more: seq<Byte>, at: nat, t: seq<Byte>)
    requires BytesAt(bytes, at, t)
    ensures BytesAt(bytes + more, at, t)
  {
    assert (bytes + more)[at..at + |t|] == bytes[at..at + |t|];
  }

  /** Byte by byte: the new bytes, what was there before, and zeros where the file had to grow over a
      gap; nothing at all for an empty write. */
  lemma WriteFileExact(file: seq<Byte>, pos: nat, s: seq<Byte>)
    ensures s == [] ==> WriteFile(file, pos, s) == file
    ensures s != [] ==>
      var r := WriteFile(file, pos, s);
      && |r| == (if pos + |s| <= |file| then |file| else pos + |s|)
      && forall p :: 0 <= p < |r| ==>
           r[p] == (if pos <= p < pos + |s| then s[p - pos] else if p < |file| then file[p] else 0)
  {
  }

  // ---- State ----

  /** The writer's memory (header and table of contents), the file and its position, and the
      writer's cursor and counts. */
  datatype Img = Img(mem: seq<Byte>, file: seq<Byte>, pos: nat, cur: nat, cnt: nat, written: nat)

  /** An entry that was written, as the caller knows it. */
  datatype Entry = Entry(kind: nat, flags: nat, off: nat, data: seq<Byte>)

  function DataOff(cnt: nat): nat { HEADER_SIZE + cnt * TOC_ENTRY_SIZE }

  function TocOff(i: nat): nat { HEADER_SIZE + i * TOC_ENTRY_SIZE }

  // ---- Packed structures; each is stored in runs between its alignment gaps ----

  function TocFront(i: nat, kind: nat, flags: nat, size: nat): seq<Field> {
    [Field(i, 4), Field(kind, 2), Field(flags, 2), Field(size, 4)]
  }

  function TocBack(off: nat, crc: nat): seq<Field> {
    [Field(off, 8), Field(crc, 4)]
  }

  function HeadFront(flags: nat): seq<Field> {
    [Field(MAGIC, 8), Field(VERSION, 2), Field(flags, 2), Field(ALIGN_SIZE, 2)]
  }

  function HeadMiddle(cnt: nat): seq<Field> {
    [Field(HEADER_SIZE, 4), Field(cnt, 4), Field(TOC_ENTRY_SIZE, 4)]
  }

  function HeadOffsets(cnt: nat): seq<Field> {
    [Field(HEADER_SIZE, 8), Field(DataOff(cnt), 8)]
  }

  function FileSize(n: nat): seq<Field> {
    [Field(n, 8)]
  }

  function HeadCrcs(hdrCrc: nat, tocCrc: nat): seq<Field> {
    [Field(hdrCrc, 4), Field(tocCrc, 4)]
  }

  lemma StructWidths(a: nat, b: nat, c: nat, d: nat)
    ensures Width(TocFront(a, b, c, d)) == 12 && Width(TocBack(a, b)) == 12
    ensures Width(HeadFront(a)) == 14 && Width(HeadMiddle(a)) == 12
    ensures Width(HeadOffsets(a)) == 16 && Width(FileSize(a)) == 8 && Width(HeadCrcs(a, b)) == 8
  {
    Width4(TocFront(a, b, c, d));
    Width2(TocBack(a, b));
    Width4(HeadFront(a));
    Width3(HeadMiddle(a));
    Width2(HeadOffsets(a));
    Width2(HeadCrcs(a, b));
    assert FileSize(a)[1..] == [];
  }

  lemma Width2(f: seq<Field>)
    requires |f| == 2
    ensures Width(f) == f[0].width + f[1].width
  {
    var t := f[1..];
    assert Width(t) == t[0].width + Width(t[1..]) && t[1..] == [];
  }

  lemma Width3(f: seq<Field>)
    requires |f| == 3
    ensures Width(f) == f[0].width + f[1].width + f[2].width
  {
    Width2(f[1..]);
  }

  lemma Width4(f: seq<Field>)
    requires |f| == 4
    ensures Width(f) == f[0].width + f[1].width + f[2].width + f[3].width
  {
    Width3(f[1..]);
  }

  // ---- Transitions ----

  /** `IMG_fill_fileheader`. */
  function FillHeader(mem: seq<Byte>, cnt: nat, flags: nat): (r: seq<Byte>)
    requires |mem| >= HEADER_SIZE
    ensures |r| == |mem|
  {
    StructWidths(flags, 0, 0, 0);
    StructWidths(cnt, 0, 0, 0);
    StructWidths(0, 0, 0, 0);
    var m1 := Overlay(mem, 0, Encode(HeadFront(flags)));
    var m2 := Overlay(m1, 16, Encode(HeadMiddle(cnt)));
    var m3 := Overlay(m2, 32, Encode(HeadOffsets(cnt)));
    Overlay(m3, 48, Encode(FileSize(0)))
  }

  /** `IMG_FILE_OBJECT_init`. */
  function Opened(mem: seq<Byte>, file: seq<Byte>, cnt: nat, flags: nat): Option<Img> {
    if |mem| < DataOff(cnt) then None
    else Some(Img(FillHeader(mem, cnt, flags), file, DataOff(cnt), DataOff(cnt), cnt, 0))
  }

  /** `_IMG_FILE_toc_write_entry`. */
  function StoreToc(mem: seq<Byte>, i: nat, e: Entry, crc: nat): (r: seq<Byte>)
    requires TocOff(i + 1) <= |mem|
    ensures |r| == |mem|
  {
    StructWidths(i, e.kind, e.flags, |e.data|);
    StructWidths(e.off, crc, 0, 0);
    var m := Overlay(mem, TocOff(i), Encode(TocFront(i, e.kind, e.flags, |e.data|)));
    Overlay(m, TocOff(i) + 16, Encode(TocBack(e.off, crc)))
  }

  /** `_IMG_FILE_write_entry_data_seqio`. */
  function Appended(s: Img, buf: seq<Byte>): Img {
    var cur := AlignOffset(s.cur + |buf|, ALIGN_SIZE);
    s.(file := WriteFile(s.file, s.pos, buf), cur := cur, pos := cur)
  }

  /** A 32-bit count returned as an `int`. */
  function AsInt(n: nat): (r: int)
    ensures -0x8000_0000 <= r < 0x8000_0000 && (r - n) % DWORD == 0
    ensures n < 0x8000_0000 ==> r == n
  {
    if n % DWORD < 0x8000_0000 then n % DWORD else n % DWORD - DWORD
  }

  /** `IMG_FILE_write_entry_seqio`: the entry's index, or an error. A zero checksum is reported as
      one after the data has been written. */
  function WriteEntry(s: Img, crc: Crc, kind: nat, flags: nat, buf: seq<Byte>): (Img, int)
    requires |s.mem| >= DataOff(s.cnt)
  {
    if s.written > s.cnt then (s, INVALID_ENTRY_COUNT)
    else if s.cur < DataOff(s.cnt) then (s, INVALID_ICUR)
    else if s.written >= s.cnt then (s, FILE_FULL)
    else
      var d := Appended(s, buf);
      var c := Crc32(crc, buf);
      if c == 0 then (d, CALC_CRC_FAILED)
      else (d.(mem := StoreToc(s.mem, s.written, Entry(kind, flags, s.cur, buf), c), written := s.written + 1),
            AsInt(s.written))
  }

  function TocBytes(s: Img): seq<Byte>
    requires |s.mem| >= DataOff(s.cnt)
  {
    s.mem[HEADER_SIZE..DataOff(s.cnt)]
  }

  /** `IMG_FILE_flush_seqio`. */
  function Flushed(s: Img, crc: Crc): (Img, int)
    requires |s.mem| >= DataOff(s.cnt)
  {
    if s.written > s.cnt then (s, INVALID_ENTRY_COUNT)
    else
      var h := Crc32(crc, s.mem[..HEADER_BASE_SIZE]);
      var t := Crc32(crc, TocBytes(s));
      if h == 0 || t == 0 then (s, CALC_CRC_FAILED)
      else
        StructWidths(h, t, 0, 0);
        StructWidths(s.cur, 0, 0, 0);
        var m := Overlay(s.mem, 48, Encode(FileSize(s.cur)));
        var mem := Overlay(m, HEADER_BASE_SIZE, Encode(HeadCrcs(h, t)));
        (s.(mem := mem, file := WriteFile(s.file, 0, mem), pos := |mem|), 0)
  }

  /** The writer refuses, with nothing changed, counts or a cursor that are out of range, and a full
      table; the numbers are the error codes. */
  lemma Refusals(s: Img, crc: Crc, kind: nat, flags: nat, buf: seq<Byte>)
    requires |s.mem| >= DataOff(s.cnt)
    ensures s.cnt < s.written ==> WriteEntry(s, crc, kind, flags, buf) == (s, -12) && Flushed(s, crc) == (s, -12)
    ensures s.written <= s.cnt && s.cur < 64 + 32 * s.cnt ==> WriteEntry(s, crc, kind, flags, buf) == (s, -5)
    ensures s.written == s.cnt && 64 + 32 * s.cnt <= s.cur ==> WriteEntry(s, crc, kind, flags, buf) == (s, -9)
  {
    hide StoreToc, WriteFile, Overlay, Encode, AlignOffset, Crc32, AsInt;
  }

  // ---- The writer object ----

  method StoreFields(mem: array<Byte>, off: nat, fields: seq<Field>)
    requires off + Width(fields) <= mem.Length
    modifies mem
    ensures mem[..] == Overlay(old(mem[..]), off, Encode(fields))
  {
    hide Encode, Width;
    ghost var was := mem[..];
    Store(mem, off, fields);
    assert was[off + Width(fields)..] == old(mem[off + Width(fields)..]);
  }

  method StoreHeader(mem: array<Byte>, cnt: nat, flags: nat)
    requires mem.Length >= HEADER_SIZE
    modifies mem
    ensures mem[..] == FillHeader(old(mem[..]), cnt, flags)
  {
    hide Encode, Width, Overlay;
    StructWidths(flags, 0, 0, 0);
    StructWidths(cnt, 0, 0, 0);
    StructWidths(0, 0, 0, 0);
    StoreFields(mem, 0, HeadFront(flags));
    StoreFields(mem, 16, HeadMiddle(cnt));
    StoreFields(mem, 32, HeadOffsets(cnt));
    StoreFields(mem, 48, FileSize(0));
  }

  method StoreTocEntry(mem: array<Byte>, i: nat, kind: nat, flags: nat, off: nat, buf: seq<Byte>, crc: nat)
    requires TocOff(i + 1) <= mem.Length
    modifies mem
    ensures mem[..] == StoreToc(old(mem[..]), i, Entry(kind, flags, off, buf), crc)
  {
    hide Encode, Width, Overlay;
    StructWidths(i, kind, flags, |buf|);
    StructWidths(off, crc, 0, 0);
    StoreFields(mem, TocOff(i), TocFront(i, kind, flags, |buf|));
    StoreFields(mem, TocOff(i) + 16, TocBack(off, crc));
  }

  /** `IMG_FILE_OBJECT`, with the file it writes through its descriptor. */
  class ImageFile {
    var mem: array<Byte>
    var file: seq<Byte>
    var pos: nat
    var cur: nat
    var cnt: nat
    var written: nat

    predicate Valid()
      reads this
    {
      mem.Length >= DataOff(cnt)
    }

    ghost function State(): Img
      reads this, mem
    {
      Img(mem[..], file, pos, cur, cnt, written)
    }

    constructor () {
      mem := new Byte[HEADER_SIZE];
      file, pos, cur, cnt, written := [], 0, 0, 0, 0;
    }

    method Open(buffer: array<Byte>, bytes: seq<Byte>, count: nat, flags: nat) returns (r: int)
      modifies this, buffer
      ensures Opened(old(buffer[..]), bytes, count, flags) ==
              if buffer.Length < DataOff(count) then None else Some(State())
      ensures buffer.Length < DataOff(count) ==> r == -2 && unchanged(this) && unchanged(buffer)
      ensures buffer.Length >= DataOff(count) ==> r == AsInt(count) && Valid() && mem == buffer
    {
      hide FillHeader;
      if buffer.Length < DataOff(count) { return INVALID_MEMBUF; }
      mem, file, pos, cur, cnt, written := buffer, bytes, DataOff(count), DataOff(count), count, 0;
      StoreHeader(mem, count, flags);
      r := AsInt(count);
    }

    method WriteData(buf: seq<Byte>)
      modifies this`file, this`pos, this`cur
      ensures State() == Appended(old(State()), buf)
    {
      file := WriteFile(file, pos, buf);
      cur := AlignOffset(cur + |buf|, ALIGN_SIZE);
      pos := cur;
    }

    method Write(crc: Crc, kind: nat, flags: nat, buf: seq<Byte>) returns (r: int)
      requires Valid()
      modifies this, mem
      ensures Valid() && mem == old(mem)
      ensures (State(), r) == WriteEntry(old(State()), crc, kind, flags, buf)
    {
      hide StoreToc, WriteFile, Crc32, AlignOffset;
      if written > cnt { return INVALID_ENTRY_COUNT; }
      if cur < DataOff(cnt) { return INVALID_ICUR; }
      if written >= cnt { return FILE_FULL; }
      var off := cur;
      var idx := written;
      WriteData(buf);
      var sum := Crc32(crc, buf);
      if sum == 0 { return CALC_CRC_FAILED; }
      StoreTocEntry(mem, idx, kind, flags, off, buf, sum);
      written := written + 1;
      r := AsInt(idx);
    }

    method Flush(crc: Crc) returns (r: int)
      requires Valid()
      modifies this, mem
      ensures Valid() && mem == old(mem)
      ensures (State(), r) == Flushed(old(State()), crc)
    {
      hide Overlay, WriteFile, Crc32, Encode, Width;
      if written > cnt { return INVALID_ENTRY_COUNT; }
      var h := Crc32(crc, mem[..HEADER_BASE_SIZE]);
      var t := Crc32(crc, mem[HEADER_SIZE..DataOff(cnt)]);
      if h == 0 || t == 0 { return CALC_CRC_FAILED; }
      StructWidths(h, t, 0, 0);
      StructWidths(cur, 0, 0, 0);
      StoreFields(mem, 48, FileSize(cur));
      StoreFields(mem, HEADER_BASE_SIZE, HeadCrcs(h, t));
      file := WriteFile(file, 0, mem[..]);
      pos := mem.Length;
      r := 0;
    }
  }

  // ---- The writer's invariant ----

  ghost predicate Saved(file: seq<Byte>, e: Entry) {
    e.data == [] || BytesAt(file, e.off, e.data)
  }

  /** Slot `i` of the table of contents describes the entry. */
  ghost predicate TocHas(bytes: seq<Byte>, crc: Crc, i: nat, e: Entry) {
    && BytesAt(bytes, TocOff(i), Encode(TocFront(i, e.kind, e.flags, |e.data|)))
    && BytesAt(bytes, TocOff(i) + 16, Encode(TocBack(e.off, Crc32(crc, e.data))))
  }

  ghost predicate EntryOk(s: Img, crc: Crc, i: nat, e: Entry) {
    && e.off % ALIGN_SIZE == 0 && DataOff(s.cnt) <= e.off && e.off + |e.data| <= s.cur && |e.data| < DWORD
    && Saved(s.file, e) && TocHas(s.mem, crc, i, e)
  }

  /** The fixed part of the header. */
  ghost predicate HeadHas(bytes: seq<Byte>, cnt: nat, flags: nat) {
    && BytesAt(bytes, 0, Encode(HeadFront(flags)))
    && BytesAt(bytes, 16, Encode(HeadMiddle(cnt)))
    && BytesAt(bytes, 32, Encode(HeadOffsets(cnt)))
  }

  /** The log lists the recorded entries: aligned, past the table of contents, in order, disjoint,
      on disk as they were given, and described by the table. */
  ghost predicate Logged(s: Img, crc: Crc, flags: nat, log: seq<Entry>) {
    && |s.mem| >= DataOff(s.cnt) && |log| == s.written <= s.cnt
    && s.pos == s.cur && s.cur % ALIGN_SIZE == 0 && DataOff(s.cnt) <= s.cur
    && HeadHas(s.mem, s.cnt, flags) && BytesAt(s.mem, 48, Encode(FileSize(0)))
    && (forall i :: 0 <= i < |log| ==> EntryOk(s, crc, i, log[i]))
    && (forall i, j :: 0 <= i < j < |log| ==> log[i].off + |log[i].data| <= log[j].off)
  }

  lemma SixteenIsPower()
    ensures IsPowerOf2(ALIGN_SIZE)
  {
  }

  lemma InitLogged(mem: seq<Byte>, file: seq<Byte>, crc: Crc, cnt: nat, flags: nat)
    requires |mem| >= DataOff(cnt)
    ensures Logged(Opened(mem, file, cnt, flags).value, crc, flags, [])
  {
    hide Encode, Overlay, HeadFront, HeadMiddle, HeadOffsets, FileSize, Width, BytesAt;
    StructWidths(flags, 0, 0, 0);
    StructWidths(cnt, 0, 0, 0);
    StructWidths(0, 0, 0, 0);
    var f, m, o, z := Encode(HeadFront(flags)), Encode(HeadMiddle(cnt)), Encode(HeadOffsets(cnt)), Encode(FileSize(0));
    var m1 := Overlay(mem, 0, f);
    var m2 := Overlay(m1, 16, m);
    var m3 := Overlay(m2, 32, o);
    OverlayAt(mem, 0, f);
    OverlayAt(m1, 16, m);
    OverlayAt(m2, 32, o);
    OverlayElsewhere(m1, 16, m, 0, f);
    OverlayElsewhere(m2, 32, o, 0, f);
    OverlayElsewhere(m2, 32, o, 16, m);
    OverlayAt(m3, 48, z);
    OverlayElsewhere(m3, 48, z, 0, f);
    OverlayElsewhere(m3, 48, z, 16, m);
    OverlayElsewhere(m3, 48, z, 32, o);
  }

  /** Recording an entry fills its slot and no other. */
  lemma StoreTocAt(mem: seq<Byte>, crc: Crc, i: nat, e: Entry)
    requires TocOff(i + 1) <= |mem|
    ensures TocHas(StoreToc(mem, i, e, Crc32(crc, e.data)), crc, i, e)
  {
    hide Encode, Overlay, TocFront, TocBack, Width, BytesAt, Crc32;
    StructWidths(i, e.kind, e.flags, |e.data|);
    StructWidths(e.off, Crc32(crc, e.data), 0, 0);
    var m := Overlay(mem, TocOff(i), Encode(TocFront(i, e.kind, e.flags, |e.data|)));
    OverlayAt(mem, TocOff(i), Encode(TocFront(i, e.kind, e.flags, |e.data|)));
    OverlayAt(m, TocOff(i) + 16, Encode(TocBack(e.off, Crc32(crc, e.data))));
    OverlayElsewhere(m, TocOff(i) + 16, Encode(TocBack(e.off, Crc32(crc, e.data))),
                     TocOff(i), Encode(TocFront(i, e.kind, e.flags, |e.data|)));
  }

  lemma StoreTocElsewhere(mem: seq<Byte>, i: nat, e: Entry, c: nat, at: nat, t: seq<Byte>)
    requires TocOff(i + 1) <= |mem| && BytesAt(mem, at, t) && at + |t| <= TocOff(i)
    ensures BytesAt(StoreToc(mem, i, e, c), at, t)
  {
    hide Encode, Overlay, TocFront, TocBack, Width, BytesAt;
    StructWidths(i, e.kind, e.flags, |e.data|);
    StructWidths(e.off, c, 0, 0);
    var m := Overlay(mem, TocOff(i), Encode(TocFront(i, e.kind, e.flags, |e.data|)));
    OverlayElsewhere(mem, TocOff(i), Encode(TocFront(i, e.kind, e.flags, |e.data|)), at, t);
    OverlayElsewhere(m, TocOff(i) + 16, Encode(TocBack(e.off, c)), at, t);
  }

  lemma TocKept(mem: seq<Byte>, crc: Crc, j: nat, f: Entry, i: nat, e: Entry, c: nat)
    requires j < i && TocOff(i + 1) <= |mem| && TocHas(mem, crc, j, f)
    ensures TocHas(StoreToc(mem, i, e, c), crc, j, f)
  {
    hide Encode, StoreToc, TocFront, TocBack, Width, BytesAt, Crc32;
    StructWidths(j, f.kind, f.flags, |f.data|);
    StructWidths(f.off, Crc32(crc, f.data), 0, 0);
    StoreTocElsewhere(mem, i, e, c, TocOff(j), Encode(TocFront(j, f.kind, f.flags, |f.data|)));
    StoreTocElsewhere(mem, i, e, c, TocOff(j) + 16, Encode(TocBack(f.off, Crc32(crc, f.data))));
  }

  lemma HeadKept(mem: seq<Byte>, cnt: nat, flags: nat, i: nat, e: Entry, c: nat)
    requires TocOff(i + 1) <= |mem| && HeadHas(mem, cnt, flags)
    ensures HeadHas(StoreToc(mem, i, e, c), cnt, flags)
  {
    hide Encode, StoreToc, HeadFront, HeadMiddle, HeadOffsets, Width, BytesAt;
    StructWidths(flags, 0, 0, 0);
    StructWidths(cnt, 0, 0, 0);
    StoreTocElsewhere(mem, i, e, c, 0, Encode(HeadFront(flags)));
    StoreTocElsewhere(mem, i, e, c, 16, Encode(HeadMiddle(cnt)));
    StoreTocElsewhere(mem, i, e, c, 32, Encode(HeadOffsets(cnt)));
  }

  lemma SizeKept(mem: seq<Byte>, i: nat, e: Entry, c: nat)
    requires TocOff(i + 1) <= |mem| && BytesAt(mem, 48, Encode(FileSize(0)))
    ensures BytesAt(StoreToc(mem, i, e, c), 48, Encode(FileSize(0)))
  {
    hide Encode, StoreToc, FileSize, Width, BytesAt;
    StructWidths(0, 0, 0, 0);
    StoreTocElsewhere(mem, i, e, c, 48, Encode(FileSize(0)));
  }

  /** Writing data at the cursor disturbs no recorded entry and leaves the cursor aligned. */
  lemma DataKeepsLog(s: Img, crc: Crc, flags: nat, log: seq<Entry>, buf: seq<Byte>)
    requires Logged(s, crc, flags, log)
    ensures Logged(Appended(s, buf), crc, flags, log)
    ensures s.cur + |buf| <= Appended(s, buf).cur
    ensures buf != [] ==> BytesAt(Appended(s, buf).file, s.cur, buf)
  {
    hide Encode, TocHas, HeadHas, WriteFile, AlignOffset, BytesAt, IsPowerOf2;
    SixteenIsPower();
    AlignOffsetLeast(s.cur + |buf|, ALIGN_SIZE);
    var d := Appended(s, buf);
    if buf != [] { WriteFileAt(s.file, s.pos, buf); }
    forall i | 0 <= i < |log| ensures EntryOk(d, crc, i, log[i]) {
      assert EntryOk(s, crc, i, log[i]);
      if log[i].data != [] {
        WriteFileElsewhere(s.file, s.pos, buf, log[i].off, log[i].data);
      }
    }
  }

  lemma WriteDataFields(s: Img, buf: seq<Byte>)
    ensures var d := Appended(s, buf);
      d.mem == s.mem && d.cnt == s.cnt && d.written == s.written && d.cur == AlignOffset(s.cur + |buf|, ALIGN_SIZE)
  {
  }

  lemma RecordKeepsLog(s: Img, d: Img, crc: Crc, flags: nat, log: seq<Entry>, e: Entry)
    requires Logged(s, crc, flags, log) && Logged(d, crc, flags, log) && d.mem == s.mem && d.cnt == s.cnt && d.written < d.cnt
    requires e.off == s.cur && e.off + |e.data| <= d.cur && |e.data| < DWORD && Saved(d.file, e)
    ensures Logged(d.(mem := StoreToc(s.mem, s.written, e, Crc32(crc, e.data)), written := s.written + 1), crc, flags, log + [e])
  {
    hide Encode, TocHas, HeadHas, StoreToc, Crc32, BytesAt, HeadMiddle, Width, FileSize;
    var n := s.written;
    var u := d.(mem := StoreToc(s.mem, n, e, Crc32(crc, e.data)), written := n + 1);
    var log' := log + [e];
    StoreTocAt(s.mem, crc, n, e);
    HeadKept(s.mem, s.cnt, flags, n, e, Crc32(crc, e.data));
    SizeKept(s.mem, n, e, Crc32(crc, e.data));
    forall i | 0 <= i < |log'| ensures EntryOk(u, crc, i, log'[i]) {
      if i < n {
        assert EntryOk(d, crc, i, log[i]);
        TocKept(s.mem, crc, i, log[i], n, e, Crc32(crc, e.data));
      }
    }
    forall i | 0 <= i < |log| ensures log[i].off + |log[i].data| <= e.off {
      assert EntryOk(s, crc, i, log[i]);
    }
  }

  // ---- Whole runs ----

  datatype Write = Write(kind: nat, flags: nat, buf: seq<Byte>)

  /** What a run of writes records, told without the writer's state: each buffer occupies the next
      aligned extent; one whose checksum is zero leaves its extent behind but is not listed; and
      nothing happens once every slot is used. */
  function Expected(cur: nat, room: nat, crc: Crc, ws: seq<Write>): seq<Entry>
    decreases |ws|
  {
    if ws == [] || room == 0 then []
    else
      var next := AlignOffset(cur + |ws[0].buf|, ALIGN_SIZE);
      if Crc32(crc, ws[0].buf) == 0 then Expected(next, room, crc, ws[1..])
      else [Entry(ws[0].kind, ws[0].flags, cur, ws[0].buf)] + Expected(next, room - 1, crc, ws[1..])
  }

  /** What the writes of a run return: consecutive entry numbers, except where a checksum is zero, and
      the table-full code once every slot is used. */
  function Results(written: nat, cnt: nat, crc: Crc, ws: seq<Write>): seq<int>
    decreases |ws|
  {
    if ws == [] then []
    else if written == cnt then [-9] + Results(written, cnt, crc, ws[1..])
    else if Crc32(crc, ws[0].buf) == 0 then [-10] + Results(written, cnt, crc, ws[1..])
    else [AsInt(written)] + Results(written + 1, cnt, crc, ws[1..])
  }

  /** The writer after a run of writes, and what they returned. */
  function Run(s: Img, crc: Crc, ws: seq<Write>): (r: (Img, seq<int>))
    requires |s.mem| >= DataOff(s.cnt)
    ensures |r.0.mem| == |s.mem| && r.0.cnt == s.cnt && |r.1| == |ws|
    decreases |ws|
  {
    if ws == [] then (s, [])
    else
      var (u, r) := WriteEntry(s, crc, ws[0].kind, ws[0].flags, ws[0].buf);
      var (v, rs) := Run(u, crc, ws[1..]);
      (v, [r] + rs)
  }

  /** A write returns the next index with the entry recorded at the old cursor, or an error with
      nothing recorded. */
  lemma WriteKeepsLog(s: Img, crc: Crc, flags: nat, log: seq<Entry>, w: Write)
    requires Logged(s, crc, flags, log) && |w.buf| < DWORD
    ensures var (u, r) := WriteEntry(s, crc, w.kind, w.flags, w.buf);
      && Logged(u, crc, flags, log + Expected(s.cur, s.cnt - s.written, crc, [w]))
      && u.cnt == s.cnt
      && u.cur == (if s.written == s.cnt then s.cur else AlignOffset(s.cur + |w.buf|, ALIGN_SIZE))
      && r == (if s.written == s.cnt then -9
               else if Crc32(crc, w.buf) == 0 then -10
               else AsInt(|log|))
  {
    hide Encode, TocHas, HeadHas, Appended, BytesAt, StoreToc, Crc32, AlignOffset, AsInt;
    var next := AlignOffset(s.cur + |w.buf|, ALIGN_SIZE);
    assert [w][1..] == [];
    if s.written < s.cnt {
      DataKeepsLog(s, crc, flags, log, w.buf);
      WriteDataFields(s, w.buf);
      if Crc32(crc, w.buf) != 0 {
        var e := Entry(w.kind, w.flags, s.cur, w.buf);
        assert Expected(s.cur, s.cnt - s.written, crc, [w]) == [e];
        RecordKeepsLog(s, Appended(s, w.buf), crc, flags, log, e);
      } else {
        assert log + [] == log;
      }
    } else {
      assert log + [] == log;
    }
  }

  /** After any run of writes the archive holds exactly the expected entries. */
  lemma {:induction false} RunKeepsLog(s: Img, crc: Crc, flags: nat, log: seq<Entry>, ws: seq<Write>)
    requires Logged(s, crc, flags, log) && forall k :: 0 <= k < |ws| ==> |ws[k].buf| < DWORD
    ensures Logged(Run(s, crc, ws).0, crc, flags, log + Expected(s.cur, s.cnt - s.written, crc, ws))
    ensures Run(s, crc, ws).1 == Results(s.written, s.cnt, crc, ws)
    decreases |ws|
  {
    hide Encode, EntryOk, HeadHas, Crc32, AlignOffset, WriteEntry, AsInt;
    var exp := Expected(s.cur, s.cnt - s.written, crc, ws);
    if ws == [] {
      assert log + exp == log;
    } else {
      WriteKeepsLog(s, crc, flags, log, ws[0]);
      var u := WriteEntry(s, crc, ws[0].kind, ws[0].flags, ws[0].buf).0;
      var first := Expected(s.cur, s.cnt - s.written, crc, [ws[0]]);
      ExpectedSplit(s.cur, s.cnt - s.written, crc, ws);
      RunKeepsLog(u, crc, flags, log + first, ws[1..]);
      assert log + exp == log + first + Expected(u.cur, u.cnt - u.written, crc, ws[1..]);
    }
  }

  lemma ExpectedSplit(cur: nat, room: nat, crc: Crc, ws: seq<Write>)
    requires ws != []
    ensures var first := Expected(cur, room, crc, [ws[0]]);
      var next := if room == 0 then cur else AlignOffset(cur + |ws[0].buf|, ALIGN_SIZE);
      |first| <= room && Expected(cur, room, crc, ws) == first + Expected(next, room - |first|, crc, ws[1..])
  {
    hide Crc32, AlignOffset;
    var one := [ws[0]];
    assert one[0] == ws[0] && one[1..] == [];
    if room > 0 && Crc32(crc, ws[0].buf) != 0 {
      assert Expected(cur, room, crc, one) == [Entry(ws[0].kind, ws[0].flags, cur, ws[0].buf)] + [];
    }
  }

  // ---- The flushed file ----

  /** A complete archive file: header, checksummed table, and every entry's bytes where the table
      says they are, in aligned and disjoint extents behind the table. */
  ghost predicate Archive(file: seq<Byte>, crc: Crc, cnt: nat, flags: nat, fileSize: nat, log: seq<Entry>) {
    && |file| >= DataOff(cnt)
    && HeadHas(file, cnt, flags)
    && BytesAt(file, 48, Encode(FileSize(fileSize)))
    && BytesAt(file, HEADER_BASE_SIZE, Encode(HeadCrcs(HeaderSum(file, crc), Crc32(crc, file[HEADER_SIZE..DataOff(cnt)]))))
    && (forall i :: 0 <= i < |log| ==> Saved(file, log[i]) && TocHas(file, crc, i, log[i]))
    && (forall i :: 0 <= i < |log| ==> log[i].off % ALIGN_SIZE == 0 && DataOff(cnt) <= log[i].off)
    && (forall i, j :: 0 <= i < j < |log| ==> log[i].off + |log[i].data| <= log[j].off)
  }

  /** The checksum a flush stores for the header: that of the header with the file size still zero. */
  function HeaderSum(file: seq<Byte>, crc: Crc): nat
    requires |file| >= 48
  {
    Crc32(crc, file[..48] + Encode(FileSize(0)))
  }

  lemma HeaderSumIs(mem: seq<Byte>, crc: Crc, cur: nat, h: nat, t: nat)
    requires |mem| >= HEADER_SIZE && BytesAt(mem, 48, Encode(FileSize(0)))
    ensures Width(FileSize(cur)) == 8 && Width(HeadCrcs(h, t)) == 8 && Width(FileSize(0)) == 8
    ensures var m := Overlay(Overlay(mem, 48, Encode(FileSize(cur))), HEADER_BASE_SIZE, Encode(HeadCrcs(h, t)));
      m[..48] + Encode(FileSize(0)) == mem[..HEADER_BASE_SIZE]
  {
    hide Encode, FileSize, HeadCrcs, Width;
    StructWidths(0, 0, 0, 0);
    StructWidths(cur, 0, 0, 0);
    StructWidths(h, t, 0, 0);
    assert mem[..HEADER_BASE_SIZE] == mem[..48] + mem[48..48 + 8];
  }

  /** What a flush adds to the header in memory. */
  lemma UpdatedHeader(mem: seq<Byte>, crc: Crc, cnt: nat, flags: nat, cur: nat, h: nat, t: nat)
    requires |mem| >= HEADER_SIZE && HeadHas(mem, cnt, flags)
    ensures Width(FileSize(cur)) == 8 && Width(HeadCrcs(h, t)) == 8
    ensures var m := Overlay(Overlay(mem, 48, Encode(FileSize(cur))), HEADER_BASE_SIZE, Encode(HeadCrcs(h, t)));
      && HeadHas(m, cnt, flags)
      && BytesAt(m, 48, Encode(FileSize(cur))) && BytesAt(m, HEADER_BASE_SIZE, Encode(HeadCrcs(h, t)))
      && m[HEADER_SIZE..] == mem[HEADER_SIZE..]
  {
    hide Encode, Overlay, HeadFront, HeadMiddle, HeadOffsets, FileSize, HeadCrcs, Width, BytesAt;
    StructWidths(flags, 0, 0, 0);
    StructWidths(cnt, 0, 0, 0);
    StructWidths(cur, 0, 0, 0);
    StructWidths(h, t, 0, 0);
    var f, m, o := Encode(HeadFront(flags)), Encode(HeadMiddle(cnt)), Encode(HeadOffsets(cnt));
    var z, c := Encode(FileSize(cur)), Encode(HeadCrcs(h, t));
    var m1 := Overlay(mem, 48, z);
    var m2 := Overlay(m1, HEADER_BASE_SIZE, c);
    OverlayAt(mem, 48, z);
    OverlayAt(m1, HEADER_BASE_SIZE, c);
    OverlayElsewhere(m1, HEADER_BASE_SIZE, c, 48, z);
    OverlayElsewhere(mem, 48, z, 0, f);
    OverlayElsewhere(m1, HEADER_BASE_SIZE, c, 0, f);
    OverlayElsewhere(mem, 48, z, 16, m);
    OverlayElsewhere(m1, HEADER_BASE_SIZE, c, 16, m);
    OverlayElsewhere(mem, 48, z, 32, o);
    OverlayElsewhere(m1, HEADER_BASE_SIZE, c, 32, o);
    OverlayTail(mem, 48, z, HEADER_SIZE);
    OverlayTail(m1, HEADER_BASE_SIZE, c, HEADER_SIZE);
  }

  lemma OverlayTail(bytes: seq<Byte>, off: nat, s: seq<Byte>, at: nat)
    requires off + |s| <= at <= |bytes|
    ensures Overlay(bytes, off, s)[at..] == bytes[at..]
  {
  }

  /** Equal tails hold equal stretches. */
  lemma TailBytesAt(a: seq<Byte>, b: seq<Byte>, from: nat, at: nat, t: seq<Byte>)
    requires from <= at && from <= |a| && from <= |b| && a[from..] == b[from..] && BytesAt(a, at, t)
    ensures BytesAt(b, at, t)
  {
    assert |a| == |b|;
    forall k | 0 <= k < |t| ensures b[at + k] == t[k] {
      var x := at + k - from;
      assert a[from..][x] == b[from..][x];
      assert t[k] == a[at..at + |t|][k];
    }
  }

  /** A stretch of a buffer is a stretch of the file the buffer was written to the front of. */
  lemma FrontBytesAt(file: seq<Byte>, mem: seq<Byte>, at: nat, t: seq<Byte>)
    requires mem != [] && BytesAt(mem, at, t)
    ensures BytesAt(WriteFile(file, 0, mem), at, t)
  {
    WriteFileAt(file, 0, mem);
    var r := WriteFile(file, 0, mem);
    assert r[at..at + |t|] == r[0..|mem|][at..at + |t|];
  }

  lemma WriteFileFront(file: seq<Byte>, mem: seq<Byte>)
    requires mem != []
    ensures |WriteFile(file, 0, mem)| >= |mem| && WriteFile(file, 0, mem)[..|mem|] == mem
  {
  }

  lemma HeadToFile(file: seq<Byte>, mem: seq<Byte>, cnt: nat, flags: nat)
    requires mem != [] && HeadHas(mem, cnt, flags)
    ensures HeadHas(WriteFile(file, 0, mem), cnt, flags)
  {
    hide Encode, BytesAt, WriteFile, HeadFront, HeadMiddle, HeadOffsets;
    FrontBytesAt(file, mem, 0, Encode(HeadFront(flags)));
    FrontBytesAt(file, mem, 16, Encode(HeadMiddle(cnt)));
    FrontBytesAt(file, mem, 32, Encode(HeadOffsets(cnt)));
  }

  lemma TocToFile(file: seq<Byte>, was: seq<Byte>, mem: seq<Byte>, crc: Crc, i: nat, e: Entry)
    requires HEADER_SIZE <= |was| && HEADER_SIZE <= |mem| && was[HEADER_SIZE..] == mem[HEADER_SIZE..] && TocHas(was, crc, i, e)
    ensures TocHas(WriteFile(file, 0, mem), crc, i, e)
  {
    hide Encode, BytesAt, WriteFile, TocFront, TocBack, Crc32;
    var f, b := Encode(TocFront(i, e.kind, e.flags, |e.data|)), Encode(TocBack(e.off, Crc32(crc, e.data)));
    TailBytesAt(was, mem, HEADER_SIZE, TocOff(i), f);
    TailBytesAt(was, mem, HEADER_SIZE, TocOff(i) + 16, b);
    FrontBytesAt(file, mem, TocOff(i), f);
    FrontBytesAt(file, mem, TocOff(i) + 16, b);
  }

  /** A flush fails exactly when a checksum is zero, and then changes nothing; otherwise, if the
      memory is exactly header and table, the file is a complete archive of the log. */
  lemma FlushCompletes(s: Img, crc: Crc, flags: nat, log: seq<Entry>)
    requires Logged(s, crc, flags, log)
    ensures var (u, r) := Flushed(s, crc);
      var failed := Crc32(crc, s.mem[..HEADER_BASE_SIZE]) == 0 || Crc32(crc, TocBytes(s)) == 0;
      && (failed ==> u == s && r == -10)
      && (!failed ==> r == 0)
      && (!failed && |s.mem| == DataOff(s.cnt) ==> Archive(u.file, crc, s.cnt, flags, s.cur, log))
  {
    hide Encode, Overlay, BytesAt, HeadHas, TocHas, WriteFile, Crc32, FileSize, HeadCrcs, Width;
    var (u, r) := Flushed(s, crc);
    if r == 0 && |s.mem| == DataOff(s.cnt) {
      var h, t := Crc32(crc, s.mem[..HEADER_BASE_SIZE]), Crc32(crc, TocBytes(s));
      UpdatedHeader(s.mem, crc, s.cnt, flags, s.cur, h, t);
      HeaderSumIs(s.mem, crc, s.cur, h, t);
      FrontBytesAt(s.file, u.mem, 48, Encode(FileSize(s.cur)));
      FrontBytesAt(s.file, u.mem, HEADER_BASE_SIZE, Encode(HeadCrcs(h, t)));
      HeadToFile(s.file, u.mem, s.cnt, flags);
      WriteFileFront(s.file, u.mem);
      assert u.file[HEADER_SIZE..DataOff(s.cnt)] == u.file[..|u.mem|][HEADER_SIZE..] == TocBytes(s);
      assert u.file[..48] == u.file[..|u.mem|][..48] == u.mem[..48];
      forall i | 0 <= i < |log| ensures Saved(u.file, log[i]) && TocHas(u.file, crc, i, log[i]) {
        assert EntryOk(s, crc, i, log[i]);
        TocToFile(s.file, s.mem, u.mem, crc, i, log[i]);
        if log[i].data != [] { WriteFileElsewhere(s.file, 0, u.mem, log[i].off, log[i].data); }
      }
    }
  }

  // ---- Reading back ----

  function EntryCount(file: seq<Byte>): nat
    requires HEADER_SIZE <= |file|
  {
    Decode([4, 4, 4], file[16..])[1]
  }

  function EntrySize(file: seq<Byte>, idx: nat): nat
    requires TocOff(idx + 1) <= |file|
  {
    Decode([4, 2, 2, 4], file[TocOff(idx)..])[3]
  }

  function EntryOff(file: seq<Byte>, idx: nat): nat
    requires TocOff(idx + 1) <= |file|
  {
    Decode([8, 4], file[TocOff(idx) + 16..])[0]
  }

  /** The reader's view of an entry: its bytes, or nothing when the index is not in the archive or
      its extent leaves the file. The slot itself must be readable. */
  function ReadEntry(file: seq<Byte>, idx: nat): Option<seq<Byte>>
    requires TocOff(idx + 1) <= |file|
  {
    var size, off := EntrySize(file, idx), EntryOff(file, idx);
    if idx >= EntryCount(file) || off + size > |file| then None else Some(file[off..off + size])
  }

  /** Decoding where an encoding lies reads the fields' values, each modulo its range. */
  lemma DecodeAt(file: seq<Byte>, off: nat, fields: seq<Field>, widths: seq<nat>)
    requires BytesAt(file, off, Encode(fields))
    requires |widths| == |fields| && forall i :: 0 <= i < |fields| ==> widths[i] == fields[i].width
    ensures forall i :: 0 <= i < |fields| ==> Decode(widths, file[off..])[i] == fields[i].value % Pow256(fields[i].width)
  {
    hide Encode, Decode, Pow256;
    var enc := Encode(fields);
    assert file[off..] == enc + file[off + |enc|..];
    DecodeFields(widths, fields, file[off + |enc|..]);
  }

  /** The table of contents reads back as it was written. */
  lemma SlotReadsBack(file: seq<Byte>, crc: Crc, i: nat, e: Entry)
    requires TocOff(i + 1) <= |file| && TocHas(file, crc, i, e) && e.off < Pow256(8) && |e.data| < DWORD
    ensures EntrySize(file, i) == |e.data| && EntryOff(file, i) == e.off
  {
    hide Encode, Decode, Pow256, Crc32, Width;
    Pow256Values();
    var front, back := TocFront(i, e.kind, e.flags, |e.data|), TocBack(e.off, Crc32(crc, e.data));
    assert front[3] == Field(|e.data|, 4) && back[0] == Field(e.off, 8);
    DecodeAt(file, TocOff(i), front, [4, 2, 2, 4]);
    DecodeAt(file, TocOff(i) + 16, back, [8, 4]);
  }

  lemma CountReadsBack(file: seq<Byte>, cnt: nat)
    requires HEADER_SIZE <= |file| && BytesAt(file, 16, Encode(HeadMiddle(cnt))) && cnt < DWORD
    ensures EntryCount(file) == cnt
  {
    hide Encode, Decode, Pow256, Width;
    Pow256Values();
    assert HeadMiddle(cnt)[1] == Field(cnt, 4);
    DecodeAt(file, 16, HeadMiddle(cnt), [4, 4, 4]);
  }

  /** A slot of the table of contents, field by field: number, type, flags and size; from byte 16 on
      offset and checksum. */
  ghost predicate SlotReads(file: seq<Byte>, crc: Crc, i: nat, e: Entry) {
    && 64 + 32 * (i + 1) <= |file|
    && Decode([4, 2, 2, 4], file[64 + 32 * i..]) == [i % Pow256(4), e.kind % Pow256(2), e.flags % Pow256(2), |e.data| % Pow256(4)]
    && Decode([8, 4], file[64 + 32 * i + 16..]) == [e.off % Pow256(8), Crc32(crc, e.data)]
  }

  lemma SlotIs(file: seq<Byte>, crc: Crc, i: nat, e: Entry)
    requires TocOff(i + 1) <= |file| && TocHas(file, crc, i, e)
    ensures SlotReads(file, crc, i, e)
  {
    hide Encode, Decode, Pow256, Crc32, Width;
    Pow256Values();
    var front, back := TocFront(i, e.kind, e.flags, |e.data|), TocBack(e.off, Crc32(crc, e.data));
    assert front[0] == Field(i, 4) && front[1] == Field(e.kind, 2) && front[2] == Field(e.flags, 2) && front[3] == Field(|e.data|, 4);
    assert back[0] == Field(e.off, 8) && back[1] == Field(Crc32(crc, e.data), 4);
    DecodeAt(file, TocOff(i), front, [4, 2, 2, 4]);
    DecodeAt(file, TocOff(i) + 16, back, [8, 4]);
  }

  /** The header, field by field: the mark ff "IMAGE" 0a 00 read as a number, version, flags and
      alignment; sizes of header and slot around the entry count; offsets of table and data; the
      file's size; and the checksums of the header, as it was with that size zero, and the table. */
  ghost predicate HeaderReads(file: seq<Byte>, crc: Crc, cnt: nat, flags: nat, fileSize: nat) {
    && 64 + 32 * cnt <= |file|
    && Decode([8, 2, 2, 2], file) == [0x000A_4547_414D_49FF, 0x0101, flags % Pow256(2), 16]
    && Decode([4, 4, 4], file[16..]) == [64, cnt % Pow256(4), 32]
    && Decode([8, 8], file[32..]) == [64, (64 + 32 * cnt) % Pow256(8)]
    && Decode([8], file[48..]) == [fileSize % Pow256(8)]
    && Decode([4, 4], file[56..]) == [Crc32(crc, file[..48] + [0, 0, 0, 0, 0, 0, 0, 0]), Crc32(crc, file[64..64 + 32 * cnt])]
  }

  lemma ZeroSize()
    ensures Encode(FileSize(0)) == [0, 0, 0, 0, 0, 0, 0, 0]
  {
    hide Le;
    ZeroBytes(8);
    assert FileSize(0)[1..] == [];
    assert Encode(FileSize(0)) == Le(0, 8) + [];
    assert Le(0, 8) == [0, 0, 0, 0, 0, 0, 0, 0];
  }

  lemma {:induction false} ZeroBytes(w: nat)
    ensures Le(0, w) == seq(w, _ => 0)
  {
    if w > 0 { ZeroBytes(w - 1); }
  }

  lemma HeaderFrontIs(file: seq<Byte>, cnt: nat, flags: nat)
    requires |file| >= HEADER_SIZE && HeadHas(file, cnt, flags)
    ensures Decode([8, 2, 2, 2], file) == [0x000A_4547_414D_49FF, 0x0101, flags % Pow256(2), 16]
    ensures Decode([4, 4, 4], file[16..]) == [64, cnt % Pow256(4), 32]
    ensures Decode([8, 8], file[32..]) == [64, (64 + 32 * cnt) % Pow256(8)]
  {
    hide Encode, Decode, Pow256, Width;
    Pow256Values();
    var f, m, o := HeadFront(flags), HeadMiddle(cnt), HeadOffsets(cnt);
    assert f[0] == Field(MAGIC, 8) && f[1] == Field(VERSION, 2) && f[2] == Field(flags, 2) && f[3] == Field(ALIGN_SIZE, 2);
    assert m[0] == Field(HEADER_SIZE, 4) && m[1] == Field(cnt, 4) && m[2] == Field(TOC_ENTRY_SIZE, 4);
    assert o[0] == Field(HEADER_SIZE, 8) && o[1] == Field(DataOff(cnt), 8);
    DecodeAt(file, 0, f, [8, 2, 2, 2]);
    DecodeAt(file, 16, m, [4, 4, 4]);
    DecodeAt(file, 32, o, [8, 8]);
    assert file[0..] == file;
  }

  lemma HeaderBackIs(file: seq<Byte>, size: nat, h: nat, t: nat)
    requires |file| >= HEADER_SIZE && h < DWORD && t < DWORD
    requires BytesAt(file, 48, Encode(FileSize(size))) && BytesAt(file, HEADER_BASE_SIZE, Encode(HeadCrcs(h, t)))
    ensures Decode([8], file[48..]) == [size % Pow256(8)] && Decode([4, 4], file[56..]) == [h, t]
  {
    hide Encode, Decode, Pow256, Width;
    Pow256Values();
    assert FileSize(size)[0] == Field(size, 8) && HeadCrcs(h, t)[0] == Field(h, 4) && HeadCrcs(h, t)[1] == Field(t, 4);
    DecodeAt(file, 48, FileSize(size), [8]);
    DecodeAt(file, 56, HeadCrcs(h, t), [4, 4]);
  }

  /** A complete archive read as numbers, from the widths of the header's and the table's fields. */
  lemma ArchiveReads(file: seq<Byte>, crc: Crc, cnt: nat, flags: nat, fileSize: nat, log: seq<Entry>)
    requires Archive(file, crc, cnt, flags, fileSize, log) && |log| <= cnt
    ensures HeaderReads(file, crc, cnt, flags, fileSize)
    ensures forall i :: 0 <= i < |log| ==> SlotReads(file, crc, i, log[i])
  {
    hide Encode, Decode, Pow256, Crc32, HeadHas, TocHas, Width, FileSize, HeadCrcs, SlotReads, BytesAt;
    HeaderFrontIs(file, cnt, flags);
    ZeroSize();
    HeaderBackIs(file, fileSize, HeaderSum(file, crc), Crc32(crc, file[HEADER_SIZE..DataOff(cnt)]));
    forall i | 0 <= i < |log| ensures SlotReads(file, crc, i, log[i]) {
      SlotIs(file, crc, i, log[i]);
    }
  }

  /** The reader finds nothing behind the last slot, nor what leaves the file. */
  lemma ReadEntryIff(file: seq<Byte>, idx: nat)
    requires 64 + 32 * (idx + 1) <= |file|
    ensures var cnt := Decode([4, 4, 4], file[16..])[1];
      var size, off := Decode([4, 2, 2, 4], file[64 + 32 * idx..])[3], Decode([8, 4], file[64 + 32 * idx + 16..])[0];
      && (ReadEntry(file, idx).None? <==> cnt <= idx || |file| < off + size)
      && (ReadEntry(file, idx).Some? ==>
            |ReadEntry(file, idx).value| == size && forall k :: 0 <= k < size ==> ReadEntry(file, idx).value[k] == file[off + k])
  {
    hide Decode;
  }

  /** The reader finds the entry in its slot, byte for byte; an empty one unless the file ends
      before its offset. */
  predicate Found(file: seq<Byte>, i: nat, e: Entry) {
    && TocOff(i + 1) <= |file|
    && (e.data != [] || e.off <= |file| <==> ReadEntry(file, i) == Some(e.data))
  }

  /** From a complete archive the reader gets back every recorded entry, byte for byte. */
  lemma ReadsBack(file: seq<Byte>, crc: Crc, cnt: nat, flags: nat, fileSize: nat, log: seq<Entry>, i: nat)
    requires Archive(file, crc, cnt, flags, fileSize, log) && i < |log| <= cnt < DWORD
    requires log[i].off < Pow256(8) && |log[i].data| < DWORD
    ensures Found(file, i, log[i])
  {
    hide Encode, Pow256, Crc32, TocHas, EntryCount, EntrySize, EntryOff, FileSize, HeadCrcs, HeadFront, HeadOffsets;
    assert TocHas(file, crc, i, log[i]) && Saved(file, log[i]);
    CountReadsBack(file, cnt);
    SlotReadsBack(file, crc, i, log[i]);
  }

  /** The whole life of an archive: any writes, then a flush that succeeds, then a reader. */
  lemma ArchiveRoundTrip(mem: seq<Byte>, file: seq<Byte>, crc: Crc, cnt: nat, flags: nat, ws: seq<Write>)
    requires |mem| == DataOff(cnt) && cnt < DWORD && forall k :: 0 <= k < |ws| ==> |ws[k].buf| < DWORD
    ensures var s := Run(Opened(mem, file, cnt, flags).value, crc, ws).0;
      var log := Expected(DataOff(cnt), cnt, crc, ws);
      var (u, r) := Flushed(s, crc);
      r == 0 && s.cur < Pow256(8) ==>
        && Archive(u.file, crc, cnt, flags, s.cur, log) && HeaderReads(u.file, crc, cnt, flags, s.cur)
        && |log| <= cnt
        && (forall i :: 0 <= i < |log| ==> SlotReads(u.file, crc, i, log[i]))
        && forall i: nat :: i < |log| ==> Found(u.file, i, log[i])
  {
    hide Encode, Pow256, Found, HeaderReads, SlotReads, WriteEntry, FillHeader, HeadHas, Saved, TocHas, Archive, AlignOffset, Crc32;
    var z := Opened(mem, file, cnt, flags).value;
    InitLogged(mem, file, crc, cnt, flags);
    RunKeepsLog(z, crc, flags, [], ws);
    var s := Run(z, crc, ws).0;
    var log := Expected(DataOff(cnt), cnt, crc, ws);
    assert [] + log == log;
    FlushCompletes(s, crc, flags, log);
    var (u, r) := Flushed(s, crc);
    if r == 0 && s.cur < Pow256(8) {
      ArchiveReads(u.file, crc, cnt, flags, s.cur, log);
      forall i: nat | i < |log| ensures Found(u.file, i, log[i]) {
        assert EntryOk(s, crc, i, log[i]);
        ReadsBack(u.file, crc, cnt, flags, s.cur, log, i);
      }
    }
  }

  // ---- Where the writer's promises end ----

  /** The entries a run of writes records are still on disk after a flush, if that succeeds. */
  ghost predicate FlushSpares(z: Img, crc: Crc, ws: seq<Write>)
    requires |z.mem| >= DataOff(z.cnt)
  {
    var (u, r) := Flushed(Run(z, crc, ws).0, crc);
    var log := Expected(DataOff(z.cnt), z.cnt, crc, ws);
    r == 0 ==> forall i :: 0 <= i < |log| ==> Saved(u.file, log[i])
  }

  ghost predicate Sized(ws: seq<Write>) {
    forall k :: 0 <= k < |ws| ==> |ws[k].buf| < DWORD
  }

  /** For every memory and every file a writer may start from: flushing spares the entries of all
      runs exactly when the memory is just header and table of contents, or no entry can be
      written at all. */
  lemma FlushSparesIff(mem: seq<Byte>, file: seq<Byte>, cnt: nat, flags: nat)
    requires |mem| >= DataOff(cnt)
    ensures var z := Opened(mem, file, cnt, flags).value;
      cnt == 0 || |mem| == DataOff(cnt) <==> forall crc: Crc, ws :: Sized(ws) ==> FlushSpares(z, crc, ws)
  {
    hide Run, Expected, FillHeader, Sized, FlushSpares;
    var z := Opened(mem, file, cnt, flags).value;
    if cnt == 0 || |mem| == DataOff(cnt) {
      forall crc: Crc, ws | Sized(ws) ensures FlushSpares(z, crc, ws) {
        ExactMemorySpares(mem, file, cnt, flags, crc, ws);
      }
    } else {
      LargerMemoryDestroys(mem, file, cnt, flags);
    }
  }

  lemma ExactMemorySpares(mem: seq<Byte>, file: seq<Byte>, cnt: nat, flags: nat, crc: Crc, ws: seq<Write>)
    requires |mem| >= DataOff(cnt) && (cnt == 0 || |mem| == DataOff(cnt)) && Sized(ws)
    ensures FlushSpares(Opened(mem, file, cnt, flags).value, crc, ws)
  {
    hide Encode, WriteEntry, FillHeader, HeadHas, Saved, EntryOk, AlignOffset, Crc32, Flushed;
    var z := Opened(mem, file, cnt, flags).value;
    if cnt > 0 {
      InitLogged(mem, file, crc, cnt, flags);
      RunKeepsLog(z, crc, flags, [], ws);
      var log := Expected(DataOff(cnt), cnt, crc, ws);
      assert [] + log == log;
      FlushCompletes(Run(z, crc, ws).0, crc, flags, log);
    }
  }

  /** With larger memory and at least one slot, a single byte is lost: any that differs from the
      byte the memory holds behind the table of contents. */
  lemma LargerMemoryDestroys(mem: seq<Byte>, file: seq<Byte>, cnt: nat, flags: nat)
    requires 0 < cnt && DataOff(cnt) < |mem|
    ensures exists crc: Crc, ws :: Sized(ws) && !FlushSpares(Opened(mem, file, cnt, flags).value, crc, ws)
  {
    hide Encode, FillHeader, AlignOffset, WriteFile, Overlay, Width, FileSize, HeadCrcs, Saved, StoreToc;
    var off := DataOff(cnt);
    var one: Crc := _ => 1;
    var b: Byte := if mem[off] == 0 then 1 else 0;
    var ws := [Write(0, 0, [b])];
    var z := Opened(mem, file, cnt, flags).value;
    var e := Entry(0, 0, off, [b]);
    var s := WriteEntry(z, one, 0, 0, [b]).0;
    OneWrite(z, one, ws[0]);
    FillHeaderKeeps(mem, cnt, flags, off);
    StoreTocKeeps(z.mem, 0, e, 1, off);
    FlushFront(s, one, off);
    var u := Flushed(s, one).0;
    assert u.file[off] != b;
    NotSaved(u.file, e);
    assert Expected(off, cnt, one, ws)[0] == e;
    assert Sized(ws) && !FlushSpares(z, one, ws);
  }

  lemma OneWrite(z: Img, crc: Crc, w: Write)
    requires |z.mem| >= DataOff(z.cnt) && z.written == 0 < z.cnt && z.cur == DataOff(z.cnt) && Crc32(crc, w.buf) != 0
    ensures Expected(z.cur, z.cnt, crc, [w]) == [Entry(w.kind, w.flags, z.cur, w.buf)]
    ensures var s := WriteEntry(z, crc, w.kind, w.flags, w.buf).0;
      && Run(z, crc, [w]).0 == s && s.cnt == z.cnt && s.written == 1
      && s.mem == StoreToc(z.mem, 0, Entry(w.kind, w.flags, z.cur, w.buf), Crc32(crc, w.buf))
  {
    hide StoreToc, WriteFile, AlignOffset, Crc32;
    assert [w][1..] == [];
  }

  lemma NotSaved(file: seq<Byte>, e: Entry)
    requires |e.data| == 1 && e.off < |file| && file[e.off] != e.data[0]
    ensures !Saved(file, e)
  {
  }

  /** No structure reaches bytes behind the table of contents. */
  lemma FillHeaderKeeps(mem: seq<Byte>, cnt: nat, flags: nat, at: nat)
    requires HEADER_SIZE <= at < |mem|
    ensures FillHeader(mem, cnt, flags)[at] == mem[at]
  {
    hide Encode, Width, HeadFront, HeadMiddle, HeadOffsets, FileSize;
    StructWidths(flags, 0, 0, 0);
    StructWidths(cnt, 0, 0, 0);
    StructWidths(0, 0, 0, 0);
  }

  lemma StoreTocKeeps(mem: seq<Byte>, i: nat, e: Entry, c: nat, at: nat)
    requires TocOff(i + 1) <= at < |mem|
    ensures StoreToc(mem, i, e, c)[at] == mem[at]
  {
    hide Encode, Width, TocFront, TocBack;
    StructWidths(i, e.kind, e.flags, |e.data|);
    StructWidths(e.off, c, 0, 0);
  }

  /** A flush that succeeds puts the memory behind the header into the file as it is. */
  lemma FlushFront(s: Img, crc: Crc, at: nat)
    requires |s.mem| >= DataOff(s.cnt) && s.written <= s.cnt && HEADER_SIZE <= at < |s.mem|
    requires Crc32(crc, s.mem[..HEADER_BASE_SIZE]) != 0 && Crc32(crc, TocBytes(s)) != 0
    ensures var (u, r) := Flushed(s, crc);
      r == 0 && at < |u.file| && u.file[at] == s.mem[at]
  {
    hide Encode, Width, FileSize, HeadCrcs, Crc32, WriteFile, Overlay;
    var h, t := Crc32(crc, s.mem[..HEADER_BASE_SIZE]), Crc32(crc, TocBytes(s));
    StructWidths(s.cur, 0, 0, 0);
    StructWidths(h, t, 0, 0);
    var m := Overlay(s.mem, 48, Encode(FileSize(s.cur)));
    OverlayTail(s.mem, 48, Encode(FileSize(s.cur)), at);
    OverlayTail(m, HEADER_BASE_SIZE, Encode(HeadCrcs(h, t)), at);
    var u := Flushed(s, crc).0;
    WriteFileFront(s.file, u.mem);
    assert u.mem[at] == u.mem[at..][0] && m[at] == m[at..][0] && s.mem[at] == s.mem[at..][0];
    assert u.file[at] == u.file[..|u.mem|][at];
  }

  /** After a successful flush the file position is the end of the writer's memory while the cursor
      is unchanged: the next data goes where the cursor says exactly when nothing was written
      before the flush, and only then does every further entry that gets recorded, whatever its
      checksum function, have its bytes where its slot says. */
  lemma WriteAfterFlush(s: Img, crc: Crc, flags: nat, log: seq<Entry>)
    requires Logged(s, crc, flags, log) && |s.mem| == DataOff(s.cnt) && s.written < s.cnt && Flushed(s, crc).1 == 0
    ensures var u := Flushed(s, crc).0;
      && |u.mem| == DataOff(u.cnt)
      && (u.cur == DataOff(u.cnt) <==> forall buf: seq<Byte> :: buf != [] ==> BytesAt(Appended(u, buf).file, u.cur, buf))
      && (u.cur == DataOff(u.cnt) <==> forall w: Write, sum: Crc :: Recordable(w, sum) ==> DescribesDisk(u, sum, w))
  {
    hide Encode, HeadHas, EntryOk, WriteFile, Crc32, BytesAt, AlignOffset, DescribesDisk, Recordable, Overlay, Width, FileSize, HeadCrcs;
    var u := Flushed(s, crc).0;
    FlushFields(s, crc);
    if u.cur == DataOff(u.cnt) {
      forall buf: seq<Byte> | buf != [] ensures BytesAt(Appended(u, buf).file, u.cur, buf) {
        WriteFileAt(u.file, u.pos, buf);
      }
      forall w: Write, sum: Crc | Recordable(w, sum) ensures DescribesDisk(u, sum, w) {
        RecordedAtCursor(u, sum, w);
      }
    } else {
      MissedWrite(u);
    }
  }

  ghost predicate Recordable(w: Write, crc: Crc) {
    w.buf != [] && |w.buf| < DWORD && Crc32(crc, w.buf) != 0
  }

  /** The next write records its entry, and the slot it fills tells where the bytes are. */
  ghost predicate DescribesDisk(u: Img, crc: Crc, w: Write)
    requires |u.mem| >= DataOff(u.cnt)
  {
    var (v, r) := WriteEntry(u, crc, w.kind, w.flags, w.buf);
    var e := Entry(w.kind, w.flags, u.cur, w.buf);
    v.written == u.written + 1 && r == AsInt(u.written) && TocHas(v.mem, crc, u.written, e) && Saved(v.file, e)
  }

  lemma FlushFields(s: Img, crc: Crc)
    requires |s.mem| >= DataOff(s.cnt) && Flushed(s, crc).1 == 0
    ensures var u := Flushed(s, crc).0;
      u.cur == s.cur && u.cnt == s.cnt && u.written == s.written && |u.mem| == |s.mem| == u.pos
  {
    hide Encode, Overlay, Width, FileSize, HeadCrcs, Crc32, WriteFile;
  }

  /** What a write after a flush leaves: its slot names the cursor, its bytes are at the position. */
  lemma WriteSplits(u: Img, crc: Crc, w: Write)
    requires |u.mem| == DataOff(u.cnt) && u.written < u.cnt && DataOff(u.cnt) <= u.cur && Recordable(w, crc)
    ensures var (v, r) := WriteEntry(u, crc, w.kind, w.flags, w.buf);
      && v.written == u.written + 1 && r == AsInt(u.written) && v.file == Appended(u, w.buf).file
      && TocHas(v.mem, crc, u.written, Entry(w.kind, w.flags, u.cur, w.buf))
  {
    hide TocHas, StoreToc, WriteFile, Crc32, AlignOffset;
    StoreTocAt(u.mem, crc, u.written, Entry(w.kind, w.flags, u.cur, w.buf));
  }

  lemma RecordedAtCursor(u: Img, crc: Crc, w: Write)
    requires |u.mem| == DataOff(u.cnt) && u.written < u.cnt && u.pos == u.cur == DataOff(u.cnt) && Recordable(w, crc)
    ensures DescribesDisk(u, crc, w)
  {
    hide TocHas, WriteEntry, WriteFile, Crc32, BytesAt, AlignOffset;
    WriteSplits(u, crc, w);
    WriteFileAt(u.file, u.pos, w.buf);
  }

  /** Data written elsewhere than at the cursor: some byte is not where the cursor says. */
  lemma MissedWrite(u: Img)
    requires |u.mem| == DataOff(u.cnt) && u.written < u.cnt && u.pos == DataOff(u.cnt) < u.cur
    ensures exists buf: seq<Byte> :: buf != [] && !BytesAt(Appended(u, buf).file, u.cur, buf)
    ensures exists w: Write, sum: Crc :: Recordable(w, sum) && !DescribesDisk(u, sum, w)
  {
    hide AlignOffset, TocHas, WriteEntry;
    var b: Byte := if u.cur < |u.file| && u.file[u.cur] == 0 then 1 else 0;
    var r := Appended(u, [b]).file;
    if u.cur < |r| {
      assert u.cur < |u.file| && r[u.cur] == u.file[u.cur];
      assert r[u.cur..u.cur + 1][0] == r[u.cur];
    }
    assert [b] != [] && !BytesAt(r, u.cur, [b]);
    var one: Crc := _ => 1;
    var w := Write(0, 0, [b]);
    assert Recordable(w, one);
    WriteSplits(u, one, w);
    assert !DescribesDisk(u, one, w);
  }
}
