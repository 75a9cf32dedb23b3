/** The 32-bit FNV-1a hash all tables use. */
module Fnv {
  import opened Bits

  const OFFSET_BASIS: nat := 0x811C_9DC5
  const PRIME: nat := 0x0100_0193

  function Step(h: nat, b: Byte): (h': nat)
    ensures h' < DWORD
  {
    Xor(h, b) * PRIME % DWORD
  }

  function Hash32(key: seq<Byte>): (h: nat)
    ensures h < DWORD
  {
    if key == [] then OFFSET_BASIS else Step(Hash32(key[..|key| - 1]), key[|key| - 1])
  }

  method ComputeHash32(key: seq<Byte>) returns (h: nat)
    ensures h == Hash32(key)
  {
    h := OFFSET_BASIS;
    var i := 0;
    while i < |key|
      invariant 0 <= i <= |key| && h == Hash32(key[..i])
    {
      assert key[..i + 1][..i] == key[..i];
      h := Xor(h, key[i]) * PRIME % DWORD;
      i := i + 1;
    }
    assert key[..i] == key;
  }

  lemma {:induction false} XorLow(h: nat, b: nat, k: nat)
    requires b < Pow2(k)
    ensures Xor(h, b) == h - h % Pow2(k) + Xor(h % Pow2(k), b)
    decreases k
  {
    if k == 0 {
      ModUnique(h, 1, h, 0);
    } else {
      XorLow(h / 2, b / 2, k - 1);
      XorLowStep(h, b, Pow2(k - 1));
    }
  }

  lemma XorLowStep(h: nat, b: nat, m: nat)
    requires m > 0 && Xor(h / 2, b / 2) == h / 2 - h / 2 % m + Xor(h / 2 % m, b / 2)
    ensures Xor(h, b) == h - h % (2 * m) + Xor(h % (2 * m), b)
  {
    hide Xor;
    ModHalves(h, m);
    XorDigit(h, b);
    XorDigit(h % (2 * m), b);
    Halves(h % 2, h / 2 % m);
  }

  lemma Halves(d: nat, r: nat)
    requires d < 2
    ensures (d + 2 * r) / 2 == r && (d + 2 * r) % 2 == d
  {
  }

  /** One step on numbers: the low byte is changed, then the whole multiplied. */
  lemma StepValue(h: nat, b: Byte, low: nat)
    requires Xor(h % 256, b) == low
    ensures Step(h, b) == (h - h % 256 + low) * 0x0100_0193 % DWORD
  {
    assert Pow2(8) == 256;
    hide Xor;
    XorLow(h, b, 8);
  }

  lemma HashNext(key: seq<Byte>, b: Byte)
    ensures Hash32(key + [b]) == Step(Hash32(key), b)
  {
    hide Step;
    assert (key + [b])[..|key|] == key;
  }

  lemma HashNone()
    ensures Hash32([]) == 0x811C_9DC5
  {
  }

  /** Two published FNV-1a values: of the empty string and of "a". */
  lemma KnownValues()
    ensures Hash32([]) == 0x811C_9DC5
    ensures Hash32([97]) == 0xE40C_292C
  {
    hide Step, Xor, Hash32;
    HashNone();
    LowByte();
    StepValue(0x811C_9DC5, 97, 0xA4);
    HashNext([], 97);
    assert [] + [97] == [97];
  }

  lemma LowByte()
    ensures Xor(0xC5, 97) == 0xA4
  {
    hide Xor;
    XorDigit(1, 0);
    XorDigit(3, 1);
    XorDigit(6, 3);
    XorDigit(12, 6);
    XorDigit(24, 12);
    XorDigit(49, 24);
    XorDigit(98, 48);
    XorDigit(197, 97);
    XorNone();
  }

  lemma XorDigit(a: nat, b: nat)
    ensures Xor(a, b) == (if a % 2 != b % 2 then 1 else 0) + 2 * Xor(a / 2, b / 2)
  {
    OpsUnfold(a, b);
    hide Xor;
  }

  lemma XorNone()
    ensures Xor(0, 0) == 0
  {
  }
}
