/** HKDF (RFC 5869 sections 2.2 and 2.3) over an uninterpreted HMAC, and the derivation of evidence keys. */
module KeyDerivation {
  import opened Bytes

  /** SHA-256, HMAC-SHA-256 and UTF-8 as the code sees them: functions it calls. */
  datatype Primitives = Primitives(
    sha256: Bytes -> Bytes,
    hmac: (Bytes, Bytes) -> Bytes,
    encode: string -> Bytes,
    decode: Bytes -> Option<string>
  )

  const DIGEST_SIZE: nat := 32

  ghost predicate Lawful(p: Primitives) {
    && (forall b :: |p.sha256(b)| == DIGEST_SIZE)
    && (forall k, b :: |p.hmac(k, b)| == DIGEST_SIZE)
    && (forall s :: p.decode(p.encode(s)) == Some(s))
    && (forall b :: p.decode(b).Some? ==> p.encode(p.decode(b).value) == b)
  }

  /** T(n) of RFC 5869 section 2.3. */
  function T(p: Primitives, prk: Bytes, info: Bytes, n: nat): Bytes
    requires n <= 255
  {
    if n == 0 then [] else p.hmac(prk, T(p, prk, info, n - 1) + info + [n])
  }

  /** T(1) | T(2) | ... | T(n) */
  function Stream(p: Primitives, prk: Bytes, info: Bytes, n: nat): Bytes
    requires n <= 255
  {
    if n == 0 then [] else Stream(p, prk, info, n - 1) + T(p, prk, info, n)
  }

  function BlocksFor(length: nat): nat { (length + DIGEST_SIZE - 1) / DIGEST_SIZE }

  lemma {:induction false} StreamLength(p: Primitives, prk: Bytes, info: Bytes, n: nat)
    requires Lawful(p) && n <= 255
    ensures |Stream(p, prk, info, n)| == DIGEST_SIZE * n
  {
    if n > 0 { StreamLength(p, prk, info, n - 1); }
  }

  /** The first `length` bytes of the stream; None is the invalid-length error. */
  function Expand(p: Primitives, prk: Bytes, info: Bytes, length: int): (r: Option<Bytes>)
    requires Lawful(p)
    ensures r.Some? <==> 0 < length <= 255 * DIGEST_SIZE
    ensures r.Some? ==> |r.value| == length
  {
    if length <= 0 || length > 255 * DIGEST_SIZE then None
    else
      StreamLength(p, prk, info, BlocksFor(length));
      Some(Stream(p, prk, info, BlocksFor(length))[..length])
  }

  /** `_hkdf_expand`: blocks are appended until there is enough output. */
  method ComputeExpand(p: Primitives, prk: Bytes, info: Bytes, length: int) returns (r: Option<Bytes>)
    requires Lawful(p)
    ensures r == Expand(p, prk, info, length)
  {
    if length <= 0 || length > 255 * DIGEST_SIZE {
      return None;
    }
    var result, previous, counter := [], [], 1;
    while |result| < length
      invariant 1 <= counter <= BlocksFor(length) + 1
      invariant previous == T(p, prk, info, counter - 1)
      invariant result == Stream(p, prk, info, counter - 1) && |result| == DIGEST_SIZE * (counter - 1)
      decreases length - |result|
    {
      previous := p.hmac(prk, previous + info + [counter]);
      result := result + previous;
      counter := counter + 1;
    }
    r := Some(result[..length]);
  }

  lemma {:induction false} StreamPrefix(p: Primitives, prk: Bytes, info: Bytes, m: nat, n: nat)
    requires Lawful(p) && m <= n <= 255
    ensures |Stream(p, prk, info, m)| <= |Stream(p, prk, info, n)|
    ensures Stream(p, prk, info, n)[..|Stream(p, prk, info, m)|] == Stream(p, prk, info, m)
  {
    if m < n { StreamPrefix(p, prk, info, m, n - 1); }
  }

  /** Asking for less output yields a prefix of the longer one. */
  lemma ShorterIsPrefix(p: Primitives, prk: Bytes, info: Bytes, l: nat, l': nat)
    requires Lawful(p) && 0 < l <= l' <= 255 * DIGEST_SIZE
    ensures Expand(p, prk, info, l).value == Expand(p, prk, info, l').value[..l]
  {
    StreamLength(p, prk, info, BlocksFor(l));
    StreamLength(p, prk, info, BlocksFor(l'));
    StreamPrefix(p, prk, info, BlocksFor(l), BlocksFor(l'));
  }

  /** `derive_key`: None when the master key is not 32 bytes long. */
  function DeriveKey(p: Primitives, master: Bytes, projectId: string, keyId: string): (r: Option<Bytes>)
    requires Lawful(p)
    ensures r.Some? <==> |master| == 32
    ensures r.Some? ==> |r.value| == 32
  {
    if |master| != 32 then None
    else
      var salt := p.sha256(p.encode("syntavra:" + projectId));
      var prk := p.hmac(salt, master);
      Expand(p, prk, p.encode("evidence-xchacha20poly1305:" + keyId), 32)
  }


  /** Every block is the HMAC of the block before it, the info and its number; the first one has none before it. */
  lemma ExpandBlock(p: Primitives, prk: Bytes, info: Bytes, n: nat)
    requires Lawful(p) && 1 <= n <= 255
    ensures var before := if n == 1 then [] else Expand(p, prk, info, 32 * (n - 1)).value[32 * (n - 2)..];
            Expand(p, prk, info, 32 * n).value[32 * (n - 1)..] == p.hmac(prk, before + info + [n])
  {
    hide T;
    BlockAt(p, prk, info, n);
    if n > 1 { BlockAt(p, prk, info, n - 1); }
    NextBlock(p, prk, info, n);
  }

  lemma NextBlock(p: Primitives, prk: Bytes, info: Bytes, n: nat)
    requires 1 <= n <= 255
    ensures T(p, prk, info, n) == p.hmac(prk, T(p, prk, info, n - 1) + info + [n])
    ensures T(p, prk, info, 0) == []
  {
  }

  lemma BlockAt(p: Primitives, prk: Bytes, info: Bytes, n: nat)
    requires Lawful(p) && 1 <= n <= 255
    ensures Expand(p, prk, info, 32 * n).value[32 * (n - 1)..] == T(p, prk, info, n)
  {
    hide T, BlocksFor, Stream, Lawful;
    StreamLength(p, prk, info, n);
    StreamLength(p, prk, info, n - 1);
    WholeBlocks(n);
    OneMoreBlock(p, prk, info, n);
    TailOf(Stream(p, prk, info, n - 1), T(p, prk, info, n), 32 * (n - 1), 32 * n);
  }

  lemma OneMoreBlock(p: Primitives, prk: Bytes, info: Bytes, n: nat)
    requires Lawful(p) && 1 <= n <= 255
    ensures Stream(p, prk, info, n) == Stream(p, prk, info, n - 1) + T(p, prk, info, n)
  {
    hide T;
  }

  lemma WholeBlocks(n: nat)
    ensures BlocksFor(32 * n) == n
  {
  }

  lemma TailOf(a: Bytes, b: Bytes, i: nat, n: nat)
    requires |a| == i && |a + b| == n
    ensures (a + b)[..n][i..] == b
  {
  }
}
