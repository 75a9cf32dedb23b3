/** Unsigned machine arithmetic on naturals: the bit operations the C code applies
    to sizes, offsets and hashes, and what they compute on powers of two. */
module Bits {
  const DWORD: nat := 0x1_0000_0000

  type Byte = b: int | 0 <= b < 256

  /** The bytes `s` lie at an offset. */
  ghost predicate BytesAt(bytes: seq<Byte>, off: nat, s: seq<Byte>) {
    off + |s| <= |bytes| && bytes[off..off + |s|] == s
  }

  /** The value a 32-bit counter holds for an integer. */
  function Wrap32(x: int): (r: nat)
    ensures r < DWORD
  {
    x % DWORD
  }

  /** The checksum of some bytes: some deterministic function, reduced to 32 bits. */
  type Crc = seq<Byte> -> nat

  function Crc32(crc: Crc, b: seq<Byte>): (r: nat)
    ensures r < DWORD
  {
    Wrap32(crc(b))
  }

  function Pow2(k: nat): (p: nat)
    ensures p > 0
  {
    if k == 0 then 1 else 2 * Pow2(k - 1)
  }

  function And(a: nat, b: nat): nat {
    if a == 0 || b == 0 then 0
    else (if a % 2 == 1 && b % 2 == 1 then 1 else 0) + 2 * And(a / 2, b / 2)
  }

  /** `a & ~b`, for an unsigned type wide enough to hold `a`. */
  function AndNot(a: nat, b: nat): nat {
    if a == 0 then 0
    else (if a % 2 == 1 && b % 2 == 0 then 1 else 0) + 2 * AndNot(a / 2, b / 2)
  }

  function Xor(a: nat, b: nat): nat
    decreases a + b
  {
    if a == 0 then b
    else if b == 0 then a
    else (if a % 2 != b % 2 then 1 else 0) + 2 * Xor(a / 2, b / 2)
  }

  /** Bit `k` of a number. */
  function Bit(n: nat, k: nat): bool {
    if k == 0 then n % 2 == 1 else Bit(n / 2, k - 1)
  }

  /** The three operators work bit by bit. */
  lemma {:induction false} BitwiseOps(a: nat, b: nat, k: nat)
    ensures Bit(And(a, b), k) == (Bit(a, k) && Bit(b, k))
    ensures Bit(AndNot(a, b), k) == (Bit(a, k) && !Bit(b, k))
    ensures Bit(Xor(a, b), k) == (Bit(a, k) != Bit(b, k))
    decreases k
  {
    OpsUnfold(a, b);
    if k > 0 { BitwiseOps(a / 2, b / 2, k - 1); }
  }

  /** Lowest bit and remaining bits of each result. */
  lemma OpsUnfold(a: nat, b: nat)
    ensures And(a, b) / 2 == And(a / 2, b / 2) && (And(a, b) % 2 == 1 <==> a % 2 == 1 && b % 2 == 1)
    ensures AndNot(a, b) / 2 == AndNot(a / 2, b / 2) && (AndNot(a, b) % 2 == 1 <==> a % 2 == 1 && b % 2 == 0)
    ensures Xor(a, b) / 2 == Xor(a / 2, b / 2) && (Xor(a, b) % 2 == 1 <==> a % 2 != b % 2)
  {
  }

  /** A number is its bits. */
  lemma {:induction false} BitsDecide(a: nat, b: nat)
    requires forall k: nat :: Bit(a, k) == Bit(b, k)
    ensures a == b
    decreases a + b
  {
    assert Bit(a, 0) == Bit(b, 0);
    if a + b > 0 {
      forall k: nat ensures Bit(a / 2, k) == Bit(b / 2, k) {
        assert Bit(a, k + 1) == Bit(b, k + 1);
      }
      BitsDecide(a / 2, b / 2);
    }
  }

  /** The macro `IS_POWER_OF_2`. */
  predicate IsPowerOf2(n: nat) {
    n > 0 && And(n, n - 1) == 0
  }

  /** The macro `ALIGN_OFFSET`. */
  function AlignOffset(off: nat, align: nat): nat
    requires align > 0
  {
    AndNot(off + align - 1, align - 1)
  }

  lemma {:induction false} AndSelf(a: nat)
    ensures And(a, a) == a
  {
    if a > 0 { AndSelf(a / 2); }
  }

  /** The bit trick decides exactly the powers of two. */
  lemma {:induction false} PowerOf2Iff(n: nat)
    ensures IsPowerOf2(n) <==> exists k: nat :: n == Pow2(k)
  {
    if n == 0 {
    } else if n % 2 == 1 {
      AndSelf(n / 2);
      if n == 1 {
        assert n == Pow2(0);
      } else {
        forall k: nat ensures n != Pow2(k) {}
      }
    } else {
      PowerOf2Iff(n / 2);
      assert (n - 1) / 2 == n / 2 - 1;
      if IsPowerOf2(n / 2) {
        var k: nat :| n / 2 == Pow2(k);
        assert n == Pow2(k + 1);
      } else {
        forall k: nat ensures n != Pow2(k) {
          assert k > 0 ==> Pow2(k) / 2 == Pow2(k - 1);
        }
      }
    }
  }

  lemma MulMonotone(m: nat, a: int, b: int)
    requires a <= b
    ensures m * a <= m * b
  {
  }

  lemma ModUnique(x: nat, m: nat, q: nat, r: nat)
    requires r < m && x == m * q + r
    ensures x % m == r && x / m == q
  {
    var q', r' := x / m, x % m;
    assert x == m * q' + r';
    if q < q' {
      MulMonotone(m, q + 1, q');
    } else if q' < q {
      MulMonotone(m, q' + 1, q);
    }
  }

  lemma ModHalves(x: nat, m: nat)
    requires m > 0
    ensures x % (2 * m) == x % 2 + 2 * (x / 2 % m)
  {
    var q, r := x / 2 / m, x / 2 % m;
    assert x / 2 == m * q + r;
    assert x == 2 * m * q + (2 * r + x % 2);
    ModUnique(x, 2 * m, q, 2 * r + x % 2);
  }

  lemma {:induction false} AndZero(x: nat)
    ensures AndNot(x, 0) == x
  {
    if x > 0 { AndZero(x / 2); }
  }

  lemma {:induction false} MaskByExponent(x: nat, k: nat)
    ensures And(x, Pow2(k) - 1) == x % Pow2(k)
    ensures AndNot(x, Pow2(k) - 1) == x - x % Pow2(k)
    decreases k
  {
    if k == 0 {
      AndZero(x);
    } else {
      MaskByExponent(x / 2, k - 1);
      MaskByHalf(x, Pow2(k - 1));
    }
  }

  lemma MaskByHalf(x: nat, m: nat)
    requires m > 0 && And(x / 2, m - 1) == x / 2 % m && AndNot(x / 2, m - 1) == x / 2 - x / 2 % m
    ensures And(x, 2 * m - 1) == x % (2 * m) && AndNot(x, 2 * m - 1) == x - x % (2 * m)
  {
    hide And, AndNot;
    ModHalves(x, m);
    MaskStep(x, m);
  }

  /** One unfolding of the two masks, for an odd mask `2 * m - 1`. */
  lemma MaskStep(x: nat, m: nat)
    requires m > 0
    ensures And(x, 2 * m - 1) == x % 2 + 2 * And(x / 2, m - 1)
    ensures AndNot(x, 2 * m - 1) == 2 * AndNot(x / 2, m - 1)
  {
  }

  /** Masking with size minus one is the remainder, and clearing those bits rounds down. */
  lemma MaskIsRemainder(x: nat, size: nat)
    requires IsPowerOf2(size)
    ensures And(x, size - 1) == x % size
    ensures AndNot(x, size - 1) == x - x % size
  {
    PowerOf2Iff(size);
    var k: nat :| size == Pow2(k);
    MaskByExponent(x, k);
  }

  /** `ALIGN_OFFSET` yields the least multiple of the alignment that is not below the offset. */
  lemma AlignOffsetLeast(off: nat, align: nat)
    requires IsPowerOf2(align)
    ensures off <= AlignOffset(off, align) < off + align
    ensures AlignOffset(off, align) % align == 0
    ensures forall m: nat :: off <= m && m % align == 0 ==> AlignOffset(off, align) <= m
  {
    var x := off + align - 1;
    MaskIsRemainder(x, align);
    RoundDown(x, align);
    forall m: nat | off <= m && m % align == 0 ensures AlignOffset(off, align) <= m {
      MultipleAbove(x, m, align);
    }
  }

  lemma RoundDown(x: nat, a: nat)
    requires a > 0
    ensures x - x % a == a * (x / a) && (x - x % a) % a == 0
  {
    ModUnique(a * (x / a), a, x / a, 0);
  }

  lemma NoMultipleBetween(a: nat, p: nat, q: nat)
    requires a * q < a * p + a
    ensures a * q <= a * p
  {
    if p < q { MulMonotone(a, p + 1, q); }
  }

  lemma MultipleAbove(x: nat, m: nat, a: nat)
    requires a > 0 && m % a == 0 && x < m + a
    ensures x - x % a <= m
  {
    var p, q, r := m / a, x / a, x % a;
    assert m == a * p && x == a * q + r;
    NoMultipleBetween(a, p, q);
  }

  lemma AlignMonotone(x: nat, y: nat, align: nat)
    requires IsPowerOf2(align) && x <= y
    ensures AlignOffset(x, align) <= AlignOffset(y, align)
  {
    AlignOffsetLeast(x, align);
    AlignOffsetLeast(y, align);
  }

  /** Number of significant bits, that is, `32 - __builtin_clz(x)` for a 32-bit `x > 0`. */
  function BitLength(x: nat): nat {
    if x == 0 then 0 else 1 + BitLength(x / 2)
  }

  /** `__builtin_clz` on a 32-bit value; C leaves it undefined at zero. */
  function Clz32(x: nat): (z: nat)
    requires 0 < x < DWORD
  {
    Pow2Of32();
    BitLengthAtMost(x, 32);
    32 - BitLength(x)
  }

  lemma Pow2Of32()
    ensures Pow2(31) == 0x8000_0000 && Pow2(32) == DWORD
  {
    assert Pow2(8) == 256;
    assert Pow2(16) == 65536;
    assert Pow2(24) == 0x100_0000;
    assert Pow2(31) == 0x8000_0000;
  }

  lemma {:induction false} BitLengthBounds(x: nat)
    requires x > 0
    ensures BitLength(x) > 0
    ensures Pow2(BitLength(x) - 1) <= x < Pow2(BitLength(x))
  {
    if x > 1 { BitLengthBounds(x / 2); }
  }

  lemma {:induction false} Pow2Monotone(j: nat, k: nat)
    ensures j <= k ==> Pow2(j) <= Pow2(k)
    decreases k
  {
    if j < k { Pow2Monotone(j, k - 1); }
  }

  /** `dword_next_pow2`; the domain excludes the two inputs whose result C leaves
      undefined: 1 (`clz(0)`) and anything above 2^31 (a shift by 32). */
  function DwordNextPow2(x: nat): nat
    requires x != 1 && x <= 0x8000_0000
  {
    if x == 0 then 1 else Pow2(32 - Clz32(x - 1))
  }

  lemma PowerAbove(x: nat, p: nat)
    requires IsPowerOf2(p) && x < p
    ensures Pow2(BitLength(x)) <= p
  {
    hide IsPowerOf2, BitLength;
    PowerOf2Iff(p);
    var j: nat :| p == Pow2(j);
    BitLengthAtMost(x, j);
    Pow2Monotone(BitLength(x), j);
  }

  lemma PowerPositive(p: nat)
    requires IsPowerOf2(p)
    ensures p > 0
  {
  }

  /** The smallest power of two that is not below the argument. */
  lemma NextPow2Least(x: nat)
    requires x != 1 && x <= 0x8000_0000
    ensures IsPowerOf2(DwordNextPow2(x)) && x <= DwordNextPow2(x) <= 0x8000_0000
    ensures forall p: nat :: IsPowerOf2(p) && x <= p ==> DwordNextPow2(x) <= p
  {
    hide IsPowerOf2, BitLength, Pow2;
    Pow2Of32();
    if x == 0 {
      PowerOne();
      forall p: nat | IsPowerOf2(p) ensures 1 <= p { PowerPositive(p); }
    } else {
      var k := BitLength(x - 1);
      BitLengthBounds(x - 1);
      PowerOf2Iff(Pow2(k));
      BitLengthAtMost(x - 1, 31);
      Pow2Monotone(k, 31);
      forall p: nat | IsPowerOf2(p) && x <= p ensures Pow2(k) <= p { PowerAbove(x - 1, p); }
    }
  }

  lemma PowerOne()
    ensures IsPowerOf2(1)
  {
  }

  lemma {:induction false} BitLengthAtMost(x: nat, j: nat)
    requires x < Pow2(j)
    ensures BitLength(x) <= j
    decreases j
  {
    if x > 0 { BitLengthAtMost(x / 2, j - 1); }
  }
}
