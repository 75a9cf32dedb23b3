/** Packed little-endian structures: fields of given widths, one after the other. */
module Packed {
  import opened Bits

  datatype Field = Field(value: nat, width: nat)

  function Pow256(w: nat): (p: nat)
    ensures p > 0
  {
    if w == 0 then 1 else 256 * Pow256(w - 1)
  }

  /** The low `w` bytes of a number, least significant first. */
  function Le(n: nat, w: nat): (b: seq<Byte>)
    ensures |b| == w
    decreases w
  {
    if w == 0 then [] else [n % 256] + Le(n / 256, w - 1)
  }

  function FromLe(b: seq<Byte>): nat {
    if b == [] then 0 else b[0] + 256 * FromLe(b[1..])
  }

  lemma ModByDigit(n: nat, m: nat)
    requires m > 0
    ensures n % (256 * m) == n % 256 + 256 * (n / 256 % m)
  {
    var q, r := n / 256 / m, n / 256 % m;
    assert n / 256 == m * q + r;
    assert 256 * (m * q) == 256 * m * q;
    ModUnique(n, 256 * m, q, n % 256 + 256 * r);
  }

  /** Storing in a field keeps the number modulo the field's range. */
  lemma {:induction false} LeTruncates(n: nat, w: nat)
    ensures FromLe(Le(n, w)) == n % Pow256(w)
    decreases w
  {
    if w == 0 {
      ModUnique(n, 1, n, 0);
    } else {
      LeTruncates(n / 256, w - 1);
      ModByDigit(n, Pow256(w - 1));
      assert Le(n, w)[1..] == Le(n / 256, w - 1);
    }
  }

  lemma DigitsApart(n: nat, r: nat)
    ensures (n % 256 + 256 * r) % 256 == n % 256 && (n % 256 + 256 * r) / 256 == r
  {
  }

  /** A number occupies the same bytes as its value modulo the field's range. */
  lemma {:induction false} LeOfTruncated(n: nat, w: nat)
    ensures Le(n % Pow256(w), w) == Le(n, w)
    decreases w
  {
    if w > 0 {
      var m := Pow256(w - 1);
      assert Pow256(w) == 256 * m;
      hide Pow256;
      ModByDigit(n, m);
      DigitsApart(n, n / 256 % m);
      LeOfTruncated(n / 256, w - 1);
    }
  }

  lemma DivByDigit(n: nat, m: nat)
    requires m > 0
    ensures n / 256 / m == n / (256 * m)
  {
    var q, r := n / 256 / m, n / 256 % m;
    assert n / 256 == m * q + r;
    assert 256 * (m * q) == 256 * m * q;
    ModUnique(n, 256 * m, q, n % 256 + 256 * r);
  }

  /** Byte `k` of a stored number is its digit `k` to base 256, the least significant first. */
  lemma {:induction false} LeDigits(n: nat, w: nat, k: nat)
    requires k < w
    ensures Le(n, w)[k] == n / Pow256(k) % 256
    decreases w
  {
    if k > 0 {
      hide Pow256;
      LeDigits(n / 256, w - 1, k - 1);
      Pow256Next(k);
      DivByDigit(n, Pow256(k - 1));
    }
  }

  lemma Pow256Next(k: nat)
    requires k > 0
    ensures Pow256(k) == 256 * Pow256(k - 1)
  {
  }

  function Width(fields: seq<Field>): nat {
    if fields == [] then 0 else fields[0].width + Width(fields[1..])
  }

  function Encode(fields: seq<Field>): (b: seq<Byte>)
    ensures |b| == Width(fields)
  {
    if fields == [] then [] else Le(fields[0].value, fields[0].width) + Encode(fields[1..])
  }

  /** The numbers in fields of the given widths at the start of the bytes. */
  function Decode(widths: seq<nat>, b: seq<Byte>): (r: seq<nat>)
    ensures |r| == |widths|
  {
    if widths == [] then []
    else if |b| < widths[0] then [0] + Decode(widths[1..], [])
    else [FromLe(b[..widths[0]])] + Decode(widths[1..], b[widths[0]..])
  }

  function Widths(fields: seq<Field>): (r: seq<nat>)
    ensures |r| == |fields|
  {
    if fields == [] then [] else [fields[0].width] + Widths(fields[1..])
  }

  function Truncated(fields: seq<Field>): (r: seq<nat>)
    ensures |r| == |fields|
  {
    if fields == [] then [] else [fields[0].value % Pow256(fields[0].width)] + Truncated(fields[1..])
  }

  /** Decoding an encoding yields every field's value modulo its range, whatever follows. */
  lemma {:induction false} DecodeEncode(fields: seq<Field>, rest: seq<Byte>)
    ensures Decode(Widths(fields), Encode(fields) + rest) == Truncated(fields)
  {
    hide Le, FromLe, Pow256, Decode, Encode, Widths, Truncated;
    FieldsUnfold(fields);
    if fields != [] {
      var f := fields[0];
      LeTruncates(f.value, f.width);
      DecodeEncode(fields[1..], rest);
      DecodeHead(Le(f.value, f.width), Widths(fields[1..]), Encode(fields[1..]) + rest);
      assert Encode(fields) + rest == Le(f.value, f.width) + (Encode(fields[1..]) + rest);
    } else {
      DecodeNone(Encode(fields) + rest);
    }
  }

  lemma FieldsUnfold(fields: seq<Field>)
    ensures fields == [] ==> Widths(fields) == [] && Truncated(fields) == []
    ensures fields != [] ==>
      var f, tail := fields[0], fields[1..];
      && Widths(fields) == [f.width] + Widths(tail)
      && Encode(fields) == Le(f.value, f.width) + Encode(tail)
      && Truncated(fields) == [f.value % Pow256(f.width)] + Truncated(tail)
  {
    hide Le, Pow256;
  }

  lemma DecodeNone(b: seq<Byte>)
    ensures Decode([], b) == []
  {
  }

  function Sum(widths: seq<nat>): nat {
    if widths == [] then 0 else widths[0] + Sum(widths[1..])
  }

  /** Each number is read from its own stretch, behind those before it. */
  lemma {:induction false} DecodePlaces(widths: seq<nat>, b: seq<Byte>, i: nat)
    requires i < |widths| && Sum(widths[..i]) + widths[i] <= |b|
    ensures var at := Sum(widths[..i]);
      Decode(widths, b)[i] == FromLe(b[at..at + widths[i]])
    decreases |widths|
  {
    hide FromLe;
    if i > 0 {
      assert widths[..i][1..] == widths[1..][..i - 1];
      var rest, at := b[widths[0]..], Sum(widths[1..][..i - 1]);
      DecodePlaces(widths[1..], rest, i - 1);
      assert rest[at..at + widths[i]] == b[widths[0] + at..widths[0] + at + widths[i]];
    }
  }

  lemma DecodeHead(head: seq<Byte>, widths: seq<nat>, rest: seq<Byte>)
    ensures Decode([|head|] + widths, head + rest) == [FromLe(head)] + Decode(widths, rest)
  {
    hide FromLe;
    var b, ws := head + rest, [|head|] + widths;
    assert b[..|head|] == head && b[|head|..] == rest && ws[1..] == widths;
  }

  lemma {:induction false} WidthsAt(fields: seq<Field>, i: nat)
    requires i < |fields|
    ensures Widths(fields)[i] == fields[i].width
    ensures Truncated(fields)[i] == fields[i].value % Pow256(fields[i].width)
  {
    hide Pow256;
    if i > 0 { WidthsAt(fields[1..], i - 1); }
  }

  /** The same, field by field. */
  lemma DecodeFields(widths: seq<nat>, fields: seq<Field>, rest: seq<Byte>)
    requires |widths| == |fields| && forall i :: 0 <= i < |fields| ==> widths[i] == fields[i].width
    ensures var d := Decode(widths, Encode(fields) + rest);
      forall i :: 0 <= i < |fields| ==> d[i] == fields[i].value % Pow256(fields[i].width)
  {
    hide Decode, Encode, Pow256, Truncated, Widths;
    DecodeEncode(fields, rest);
    forall i | 0 <= i < |fields|
      ensures Widths(fields)[i] == widths[i] && Truncated(fields)[i] == fields[i].value % Pow256(fields[i].width)
    {
      WidthsAt(fields, i);
    }
    assert Widths(fields) == widths;
  }

  lemma Pow256Values()
    ensures Pow256(2) == 0x1_0000 && Pow256(4) == DWORD && Pow256(8) == DWORD * DWORD
  {
  }

  lemma {:induction false} EncodeAppend(fields: seq<Field>, f: Field)
    ensures Encode(fields + [f]) == Encode(fields) + Le(f.value, f.width)
    ensures Width(fields + [f]) == Width(fields) + f.width
  {
    if fields == [] {
      assert fields + [f] == [f] && [f][1..] == [];
    } else {
      assert (fields + [f])[1..] == fields[1..] + [f];
      EncodeAppend(fields[1..], f);
    }
  }

  lemma {:induction false} EncodeSplit(a: seq<Field>, b: seq<Field>)
    ensures Encode(a + b) == Encode(a) + Encode(b)
  {
    hide Le;
    if a == [] {
      assert a + b == b;
    } else {
      assert (a + b)[1..] == a[1..] + b;
      EncodeSplit(a[1..], b);
    }
  }

  lemma MiddleOf(a: seq<Byte>, b: seq<Byte>, c: seq<Byte>)
    ensures (a + b + c)[|a|..|a| + |b|] == b
  {
  }

  lemma EncodeMiddle(a: seq<Field>, f: Field, c: seq<Field>)
    ensures Encode((a + [f]) + c) == Encode(a) + Le(f.value, f.width) + Encode(c)
  {
    hide Le, Encode, Width;
    EncodeAppend(a, f);
    EncodeSplit(a + [f], c);
  }

  /** A structure's fields lie one behind the other, in order. */
  lemma EncodePlaces(a: seq<Field>, f: Field, c: seq<Field>)
    ensures var at, all := Width(a), Encode((a + [f]) + c);
      at + f.width <= |all| && all[at..at + f.width] == Le(f.value, f.width)
  {
    hide Le, Encode, Width;
    EncodeMiddle(a, f, c);
    MiddleOf(Encode(a), Le(f.value, f.width), Encode(c));
  }

  lemma EncodeNone(fields: seq<Field>)
    ensures Encode(fields[..0]) == [] && Width(fields[..0]) == 0
  {
  }

  /** Store a structure at an offset, field by field; the bytes around it stay. */
  method Store(mem: array<Byte>, off: nat, fields: seq<Field>)
    requires off + Width(fields) <= mem.Length
    modifies mem
    ensures mem[..] == old(mem[..off]) + Encode(fields) + old(mem[off + Width(fields)..])
  {
    hide Le, Width, Encode;
    EncodeNone(fields);
    ghost var was := mem[..];
    var at := off;
    var i := 0;
    assert was == was[..off] + was[off..];
    while i < |fields|
      invariant 0 <= i <= |fields|
      invariant at == off + Width(fields[..i]) <= mem.Length
      invariant mem[..] == was[..off] + Encode(fields[..i]) + was[at..]
    {
      var f := fields[i];
      EncodeAppend(fields[..i], f);
      assert fields[..i + 1] == fields[..i] + [f];
      WidthPrefix(fields, i + 1);
      ghost var done := was[..off] + Encode(fields[..i]);
      assert mem[..at] == done && mem[at + f.width..] == was[at + f.width..];
      StoreLe(mem, at, f.value, f.width);
      assert done + Le(f.value, f.width) == was[..off] + Encode(fields[..i + 1]);
      at := at + f.width;
      i := i + 1;
    }
    assert fields[..i] == fields;
  }

  lemma {:induction false} WidthPrefix(fields: seq<Field>, i: nat)
    requires i <= |fields|
    ensures Width(fields[..i]) <= Width(fields)
  {
    if i > 0 {
      assert fields[..i][1..] == fields[1..][..i - 1];
      WidthPrefix(fields[1..], i - 1);
    }
  }

  /** Store one little-endian number. */
  method StoreLe(mem: array<Byte>, off: nat, value: nat, width: nat)
    requires off + width <= mem.Length
    modifies mem
    ensures mem[..] == old(mem[..off]) + Le(value, width) + old(mem[off + width..])
  {
    ghost var was, le := mem[..], Le(value, width);
    var v, i := value, 0;
    while i < width
      invariant 0 <= i <= width
      invariant le[i..] == Le(v, width - i)
      invariant forall j :: 0 <= j < i ==> mem[off + j] == le[j]
      invariant mem[..off] == was[..off] && mem[off + i..] == was[off + i..]
    {
      assert le[i] == le[i..][0] && le[i + 1..] == le[i..][1..];
      mem[off + i] := v % 256;
      v := v / 256;
      i := i + 1;
    }
    assert mem[off..off + width] == le;
    assert mem[..] == mem[..off] + mem[off..off + width] + mem[off + width..];
  }
}
