/** The Poly1305 one-time authenticator (RFC 8439 sections 2.5 and 2.8) and the layout of the data it authenticates. */
module Poly1305 {
  import opened Bytes
  import opened Integers

  const PRIME: nat := 0x3fffffffffffffffffffffffffffffffb   // 2^130 - 5

  lemma PrimeValue()
    ensures PRIME == 4 * Pow256(16) - 5
  {
    assert Pow256(4) == 0x1_0000_0000;
    assert Pow256(8) == 0x1_0000_0000 * 0x1_0000_0000;
    assert Pow256(12) == 0x1_0000_0000 * 0x1_0000_0000 * 0x1_0000_0000;
    assert Pow256(16) == 0x1_0000_0000 * 0x1_0000_0000 * 0x1_0000_0000 * 0x1_0000_0000;
  }

  /** The clamp 0x0ffffffc0ffffffc0ffffffc0fffffff, byte by byte in little-endian order. */
  const CLAMP: Bytes := [0xff, 0xff, 0xff, 0x0f, 0xfc, 0xff, 0xff, 0x0f, 0xfc, 0xff, 0xff, 0x0f, 0xfc, 0xff, 0xff, 0x0f]

  function Clamped(r: Bytes): Bytes
    requires |r| == 16
  {
    seq(16, i requires 0 <= i < 16 => AndByte(r[i], CLAMP[i]))
  }

  function KeyR(key: Bytes): nat
    requires |key| == 32
  {
    LeInt(Clamped(key[..16]))
  }

  function KeyS(key: Bytes): nat
    requires |key| == 32
  {
    LeInt(key[16..])
  }

  function BlockCount(size: nat): nat { (size + 15) / 16 }

  /** Block i of the message, up to sixteen bytes, with the marker byte appended. */
  function BlockValue(message: Bytes, i: nat): nat
    requires 16 * i < |message|
  {
    var end := if 16 * i + 16 <= |message| then 16 * i + 16 else |message|;
    LeInt(message[16 * i..end] + [1])
  }

  /** The coefficients of the message polynomial, highest power first. */
  function Coefficients(message: Bytes): (cs: seq<nat>)
    ensures |cs| == BlockCount(|message|)
  {
    seq(BlockCount(|message|), i requires 0 <= i < BlockCount(|message|) => BlockValue(message, i))
  }

  function Times(a: nat, b: nat): nat { a * b }

  function Power(r: nat, n: nat): nat {
    if n == 0 then 1 else Times(r, Power(r, n - 1))
  }

  /** The polynomial without constant term, over the integers and unreduced: the sum of cs[i] * r^(n - i). */
  function Polynomial(cs: seq<nat>, r: nat): nat {
    PowerSum(cs, r, |cs|)
  }

  function PowerSum(cs: seq<nat>, r: nat, top: nat): nat
    requires |cs| <= top
  {
    if cs == [] then 0
    else PowerSum(cs[..|cs| - 1], r, top) + Times(cs[|cs| - 1], Power(r, top - (|cs| - 1)))
  }

  /** The nested form the accumulator follows. */
  function Horner(cs: seq<nat>, r: nat): nat {
    if cs == [] then 0 else Times(Horner(cs[..|cs| - 1], r) + cs[|cs| - 1], r)
  }

  lemma ShiftAlgebra(sum: nat, b: nat, p: nat, r: nat)
    ensures Times(sum + Times(b, p), r) == Times(sum, r) + Times(b, Times(r, p))
  {
    assert (sum + b * p) * r == sum * r + b * (r * p);
  }

  lemma {:induction false} PowerSumShift(cs: seq<nat>, r: nat, top: nat)
    requires |cs| <= top
    ensures PowerSum(cs, r, top + 1) == Times(PowerSum(cs, r, top), r)
  {
    if cs == [] {
      assert Times(0, r) == 0;
    } else {
      var k := |cs| - 1;
      PowerSumShift(cs[..k], r, top);
      ShiftAlgebra(PowerSum(cs[..k], r, top), cs[k], Power(r, top - k), r);
    }
  }

  lemma LastTerm(sum: nat, b: nat, r: nat)
    ensures Times(sum + b, r) == Times(sum, r) + Times(b, Times(r, 1))
  {
    assert (sum + b) * r == sum * r + b * r;
  }

  /** Horner's scheme computes the polynomial. */
  lemma {:induction false} HornerIsPolynomial(cs: seq<nat>, r: nat)
    ensures Horner(cs, r) == Polynomial(cs, r)
  {
    hide Times;
    if cs != [] {
      var k := |cs| - 1;
      HornerIsPolynomial(cs[..k], r);
      PowerSumShift(cs[..k], r, k);
      assert Power(r, 1) == Times(r, Power(r, 0));
      LastTerm(PowerSum(cs[..k], r, k), cs[k], r);
    }
  }

  lemma ModUnique(x: nat, q: nat, m: nat, p: nat)
    requires m < p && x == q * p + m
    ensures x % p == m
  {
    var d := x / p;
    assert x == d * p + x % p;
    MultiplesApart(q, d, p);
    MultiplesApart(d, q, p);
  }

  /** Reducing before the multiplication does not change the remainder. */
  lemma ModStep(a: nat, b: nat, r: nat, p: nat)
    requires p > 0
    ensures Times(a % p + b, r) % p == Times(a + b, r) % p
  {
    var q := a / p;
    var x := Times(a % p + b, r);
    assert a == q * p + a % p;
    assert x == (x / p) * p + x % p;
    ModStepAlgebra(a % p, b, r, p, q, x / p, x % p);
    ModUnique(Times(a + b, r), x / p + Times(q, r), x % p, p);
  }

  lemma ModStepAlgebra(m: nat, b: nat, r: nat, p: nat, q: nat, k: nat, rest: nat)
    requires (m + b) * r == k * p + rest
    ensures (q * p + m + b) * r == (k + q * r) * p + rest
  {
    assert (q * p + m + b) * r == (q * p) * r + (m + b) * r;
    assert (q * p) * r == (q * r) * p;
    assert (k + q * r) * p == k * p + (q * r) * p;
  }

  /** The tag: the polynomial of the message at r, reduced modulo 2^130 - 5, plus s, modulo 2^128. */
  function Tag(message: Bytes, key: Bytes): (tag: Bytes)
    requires |key| == 32
    ensures |tag| == 16
  {
    LeBytes((Polynomial(Coefficients(message), KeyR(key)) % PRIME + KeyS(key)) % Pow256(16), 16)
  }

  /** `_poly1305`: the accumulator is reduced at every block, the result is that of the unreduced polynomial;
      None stands for the error about the key length. */
  method ComputeTag(message: Bytes, key: Bytes) returns (r: Option<Bytes>)
    ensures r.Some? <==> |key| == 32
    ensures r.Some? ==> r.value == Tag(message, key)
  {
    hide BlockValue, Clamped, LeInt, LeBytes, Times, Horner, Polynomial;
    if |key| != 32 {
      return None;
    }
    var multiplier := LeInt(Clamped(key[..16]));
    var s := LeInt(key[16..]);
    var accumulator := Accumulate(message, multiplier);
    HornerIsPolynomial(Coefficients(message), multiplier);
    r := Some(LeBytes((accumulator + s) % Pow256(16), 16));
  }

  /** The block loop: `accumulator = ((accumulator + n) * r) % p`. */
  method Accumulate(message: Bytes, r: nat) returns (accumulator: nat)
    ensures accumulator == Horner(Coefficients(message), r) % PRIME
  {
    hide BlockValue, LeInt, Times, Horner, BlockCount;
    ghost var cs := Coefficients(message);
    accumulator := 0;
    HornerStart(cs, r);
    for k := 0 to BlockCount(|message|)
      invariant accumulator == Horner(cs[..k], r) % PRIME
    {
      BlockStarts(|message|, k);
      var offset := 16 * k;
      var end := if offset + 16 <= |message| then offset + 16 else |message|;
      var value := LeInt(message[offset..end] + [1]);
      BlockValueIs(message, k, end);
      HornerStep(cs, k, r);
      ModStep(Horner(cs[..k], r), value, r, PRIME);
      accumulator := Times(accumulator + value, r) % PRIME;
    }
    assert cs[..|cs|] == cs;
  }

  lemma BlockStarts(size: nat, k: nat)
    ensures k < BlockCount(size) ==> 16 * k < size
  {
  }

  lemma HornerStart(cs: seq<nat>, r: nat)
    ensures Horner(cs[..0], r) % PRIME == 0
  {
  }

  lemma HornerStep(cs: seq<nat>, k: nat, r: nat)
    requires k < |cs|
    ensures Horner(cs[..k + 1], r) == Times(Horner(cs[..k], r) + cs[k], r)
  {
    assert cs[..k + 1][..k] == cs[..k];
  }

  lemma BlockValueIs(message: Bytes, n: nat, end: nat)
    requires 16 * n < |message| && end == if 16 * n + 16 <= |message| then 16 * n + 16 else |message|
    ensures BlockValue(message, n) == LeInt(message[16 * n..end] + [1])
  {
  }

  /** `_pad16` */
  function Pad16(size: nat): (pad: Bytes)
    ensures (size + |pad|) % 16 == 0 && |pad| < 16
  {
    if size % 16 == 0 then [] else seq(16 - size % 16, i => 0)
  }

  /** What the tag covers: both parts padded to sixteen bytes, then their lengths as little-endian 64-bit integers. */
  function MacData(aad: Bytes, ciphertext: Bytes): Bytes
    requires |aad| < Pow256(8) && |ciphertext| < Pow256(8)
  {
    aad + Pad16(|aad|) + ciphertext + Pad16(|ciphertext|) + LeBytes(|aad|, 8) + LeBytes(|ciphertext|, 8)
  }

  /** The padded input determines both parts. */
  lemma MacDataInjective(aad: Bytes, ciphertext: Bytes, aad': Bytes, ciphertext': Bytes)
    requires |aad| < Pow256(8) && |ciphertext| < Pow256(8) && |aad'| < Pow256(8) && |ciphertext'| < Pow256(8)
    requires MacData(aad, ciphertext) == MacData(aad', ciphertext')
    ensures aad == aad' && ciphertext == ciphertext'
  {
    hide LeBytes, Pad16;
    var m, m' := MacData(aad, ciphertext), MacData(aad', ciphertext');
    MacParts(aad, ciphertext);
    MacParts(aad', ciphertext');
    LeIntOfBytes(|aad|, 8);
    LeIntOfBytes(|aad'|, 8);
    LeIntOfBytes(|ciphertext|, 8);
    LeIntOfBytes(|ciphertext'|, 8);
  }

  lemma MacParts(aad: Bytes, ciphertext: Bytes)
    requires |aad| < Pow256(8) && |ciphertext| < Pow256(8)
    ensures var m := MacData(aad, ciphertext);
            && |m| >= 16 && m[|m| - 16..|m| - 8] == LeBytes(|aad|, 8) && m[|m| - 8..] == LeBytes(|ciphertext|, 8)
            && |aad| + |Pad16(|aad|)| + |ciphertext| <= |m|
            && m[..|aad|] == aad
            && m[|aad| + |Pad16(|aad|)|..|aad| + |Pad16(|aad|)| + |ciphertext|] == ciphertext
  {
    hide LeBytes, Pad16;
  }
}
