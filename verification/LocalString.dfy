/** The byte loops of the tables' local string helpers, over rows of a byte matrix and over a
    byte buffer holding NUL-terminated strings. */
module LocalString {
  import opened Bits

  ghost predicate RowIs(a: array2<Byte>, row: nat, bytes: seq<Byte>)
    requires row < a.Length0
    reads a
  {
    |bytes| == a.Length1 && forall j :: 0 <= j < |bytes| ==> a[row, j] == bytes[j]
  }

  /** `local_memcpy` into one row; every other row keeps its bytes. */
  method MemCpy(a: array2<Byte>, row: nat, src: seq<Byte>)
    requires row < a.Length0 && |src| == a.Length1
    modifies a
    ensures RowIs(a, row, src)
    ensures forall i, j :: 0 <= i < a.Length0 && 0 <= j < a.Length1 && i != row ==> a[i, j] == old(a[i, j])
    ensures forall i: nat, bytes :: i < a.Length0 && i != row && old(RowIs(a, i, bytes)) ==> RowIs(a, i, bytes)
  {
    var k := 0;
    while k < |src|
      invariant 0 <= k <= |src|
      invariant forall j :: 0 <= j < k ==> a[row, j] == src[j]
      invariant forall i, j :: 0 <= i < a.Length0 && 0 <= j < a.Length1 && i != row ==> a[i, j] == old(a[i, j])
    {
      a[row, k] := src[k];
      k := k + 1;
    }
  }

  /** `local_memcmp` of a buffer with one row: zero exactly for equal bytes, otherwise the
      difference at the first mismatch. */
  method MemCmp(buf: seq<Byte>, a: array2<Byte>, row: nat) returns (r: int)
    requires row < a.Length0 && |buf| == a.Length1
    ensures r == 0 <==> RowIs(a, row, buf)
    ensures r != 0 ==> exists k :: 0 <= k < |buf| && r == buf[k] - a[row, k] && forall j :: 0 <= j < k ==> buf[j] == a[row, j]
  {
    var i := 0;
    while i < |buf|
      invariant 0 <= i <= |buf|
      invariant forall j :: 0 <= j < i ==> buf[j] == a[row, j]
    {
      if buf[i] != a[row, i] { return buf[i] - a[row, i]; }
      i := i + 1;
    }
    return 0;
  }

  /** The NUL-terminated string `str` starts at offset `off`. */
  ghost predicate StringAt(bytes: seq<Byte>, off: nat, str: seq<Byte>) {
    && off + |str| < |bytes|
    && 0 !in str
    && (forall j :: 0 <= j < |str| ==> bytes[off + j] == str[j])
    && bytes[off + |str|] == 0
  }

  lemma NoNulInside(bytes: seq<Byte>, off: nat, str: seq<Byte>, j: nat)
    requires StringAt(bytes, off, str) && j <= |str|
    ensures bytes[off + j] == 0 <==> j == |str|
  {
    if j < |str| { assert bytes[off + j] == str[j]; }
  }

  /** At most one string starts at an offset. */
  lemma StringUnique(bytes: seq<Byte>, off: nat, s: seq<Byte>, t: seq<Byte>)
    requires StringAt(bytes, off, s) && StringAt(bytes, off, t)
    ensures s == t
  {
    if |s| <= |t| {
      NoNulInside(bytes, off, t, |s|);
    } else {
      NoNulInside(bytes, off, s, |t|);
    }
  }

  /** `local_strlen`. */
  method StrLen(buf: array<Byte>, off: nat, ghost str: seq<Byte>) returns (len: nat)
    requires StringAt(buf[..], off, str)
    ensures len == |str|
  {
    len := 0;
    while buf[off + len] != 0
      invariant len <= |str|
      decreases |str| - len
    {
      NoNulInside(buf[..], off, str, len);
      len := len + 1;
    }
    NoNulInside(buf[..], off, str, len);
  }

  /** `local_strcmp` of a string with the one at an offset: zero exactly when they are equal. */
  method StrCmp(str: seq<Byte>, buf: array<Byte>, off: nat, ghost other: seq<Byte>) returns (r: int)
    requires 0 !in str && StringAt(buf[..], off, other)
    ensures r == 0 <==> str == other
  {
    var i := 0;
    while i < |str| && buf[off + i] != 0
      invariant 0 <= i <= |str| && i <= |other|
      invariant str[..i] == other[..i]
      decreases |str| - i
    {
      assert buf[..][off + i] == if i < |other| then other[i] else 0;
      if str[i] != buf[off + i] { break; }
      i := i + 1;
    }
    assert buf[..][off + i] == if i < |other| then other[i] else 0;
    var c: int := if i < |str| then str[i] else 0;
    r := c - buf[off + i];
    if r == 0 && i == |str| {
      assert str == other;
    }
  }
}
