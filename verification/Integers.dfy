/** Byte strings as integers, in both byte orders. */
module Integers {
  import opened Bytes

  function Pow256(n: nat): (p: nat)
    ensures p > 0
  {
    if n == 0 then 1 else 256 * Pow256(n - 1)
  }

  lemma {:induction false} Pow256Grows(m: nat, n: nat)
    requires m <= n
    ensures Pow256(m) <= Pow256(n)
  {
    if m < n { Pow256Grows(m, n - 1); }
  }

  /** int.from_bytes(b, "little") */
  function LeInt(b: Bytes): (n: nat)
    ensures n < Pow256(|b|)
  {
    if b == [] then 0 else b[0] + 256 * LeInt(b[1..])
  }

  /** n.to_bytes(k, "little") */
  function LeBytes(n: nat, k: nat): (b: Bytes)
    requires n < Pow256(k)
    ensures |b| == k
  {
    if k == 0 then [] else [n % 256] + LeBytes(n / 256, k - 1)
  }

  lemma {:induction false} LeIntOfBytes(n: nat, k: nat)
    requires n < Pow256(k)
    ensures LeInt(LeBytes(n, k)) == n
  {
    if k > 0 {
      LeIntOfBytes(n / 256, k - 1);
      assert LeBytes(n, k)[1..] == LeBytes(n / 256, k - 1);
    }
  }

  lemma {:induction false} LeBytesOfInt(b: Bytes)
    ensures LeBytes(LeInt(b), |b|) == b
  {
    if b != [] {
      LeBytesOfInt(b[1..]);
      var n := LeInt(b);
      assert n % 256 == b[0] && n / 256 == LeInt(b[1..]);
      assert b == [b[0]] + b[1..];
    }
  }

  /** Big-endian integers, as struct's ">" formats use them. */
  function BeInt(b: Bytes): (n: nat)
    ensures n < Pow256(|b|)
  {
    if b == [] then 0 else BeInt(b[..|b| - 1]) * 256 + b[|b| - 1]
  }

  function BeBytes(n: nat, k: nat): (b: Bytes)
    requires n < Pow256(k)
    ensures |b| == k
  {
    if k == 0 then [] else BeBytes(n / 256, k - 1) + [n % 256]
  }

  lemma {:induction false} BeIntOfBytes(n: nat, k: nat)
    requires n < Pow256(k)
    ensures BeInt(BeBytes(n, k)) == n
  {
    if k > 0 {
      BeIntOfBytes(n / 256, k - 1);
      assert BeBytes(n, k)[..k - 1] == BeBytes(n / 256, k - 1);
    }
  }

  lemma LastDigit(high: nat, low: nat)
    requires low < 256
    ensures (high * 256 + low) % 256 == low && (high * 256 + low) / 256 == high
  {
  }

  lemma {:induction false} BeBytesOfInt(b: Bytes)
    ensures BeBytes(BeInt(b), |b|) == b
  {
    if b != [] {
      var init := b[..|b| - 1];
      BeBytesOfInt(init);
      LastDigit(BeInt(init), b[|b| - 1]);
      assert b == init + [b[|b| - 1]];
    }
  }

  lemma MultiplesApart(a: nat, b: nat, p: nat)
    ensures a < b ==> a * p + p <= b * p
  {
    if a < b {
      var d := b - a - 1;
      assert b == a + 1 + d;
      assert (a + 1 + d) * p == a * p + p + d * p;
    }
  }
}
