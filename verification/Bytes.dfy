/** Bytes, their bitwise combination, and the option type shared by the modules. */
module Bytes {
  type Byte = x: int | 0 <= x < 256
  type Bytes = seq<Byte>

  datatype Option<T> = None | Some(value: T)

  function Pow2(k: nat): (p: nat)
    ensures p > 0
  {
    if k == 0 then 1 else 2 * Pow2(k - 1)
  }

  /** Exclusive or of two k-bit numbers, bit by bit from the lowest. */
  function XorBits(x: nat, y: nat, k: nat): (z: nat)
    requires x < Pow2(k) && y < Pow2(k)
    ensures z < Pow2(k)
  {
    if k == 0 then 0 else 2 * XorBits(x / 2, y / 2, k - 1) + (x + y) % 2
  }

  /** Bitwise and of two k-bit numbers. */
  function AndBits(x: nat, y: nat, k: nat): (z: nat)
    requires x < Pow2(k) && y < Pow2(k)
    ensures z < Pow2(k)
  {
    if k == 0 then 0 else 2 * AndBits(x / 2, y / 2, k - 1) + (if x % 2 == 1 && y % 2 == 1 then 1 else 0)
  }

  lemma {:induction false} XorBitsCancel(x: nat, y: nat, k: nat)
    requires x < Pow2(k) && y < Pow2(k)
    ensures XorBits(XorBits(x, y, k), y, k) == x
  {
    hide XorBits, Pow2;
    if k > 0 {
      Halves(x, k);
      Halves(y, k);
      var high, low := XorBits(x / 2, y / 2, k - 1), (x + y) % 2;
      var z := XorBits(x, y, k);
      XorUnfold(x, y, k);
      Halves(z, k);
      XorUnfold(z, y, k);
      Digits(high, low);
      XorBitsCancel(x / 2, y / 2, k - 1);
      ParityCancels(x, y, z);
    } else {
      NoBits(x, y);
    }
  }

  lemma Halves(x: nat, k: nat)
    requires k > 0 && x < Pow2(k)
    ensures x / 2 < Pow2(k - 1)
  {
  }

  lemma XorUnfold(x: nat, y: nat, k: nat)
    requires k > 0 && x < Pow2(k) && y < Pow2(k) && x / 2 < Pow2(k - 1) && y / 2 < Pow2(k - 1)
    ensures XorBits(x, y, k) == 2 * XorBits(x / 2, y / 2, k - 1) + (x + y) % 2
  {
  }

  lemma NoBits(x: nat, y: nat)
    requires x < Pow2(0) && y < Pow2(0)
    ensures x == 0 && XorBits(x, y, 0) == 0
  {
  }

  lemma Digits(high: nat, low: nat)
    requires low < 2
    ensures (2 * high + low) / 2 == high && (2 * high + low) % 2 == low
  {
  }

  lemma ParityCancels(x: nat, y: nat, z: nat)
    requires z % 2 == (x + y) % 2
    ensures 2 * (x / 2) + (z + y) % 2 == x
  {
  }

  lemma EightBits()
    ensures Pow2(8) == 256
  {
    assert Pow2(4) == 16;
  }

  function XorByte(x: Byte, y: Byte): Byte {
    EightBits();
    XorBits(x, y, 8)
  }

  function AndByte(x: Byte, y: Byte): Byte {
    EightBits();
    AndBits(x, y, 8)
  }

  lemma XorByteCancels(x: Byte, y: Byte)
    ensures XorByte(XorByte(x, y), y) == x
  {
    EightBits();
    XorBitsCancel(x, y, 8);
  }
}
