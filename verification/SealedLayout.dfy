/** What sealed objects and sealed files consist of, byte by byte. */
module SealedLayout {
  import opened Bytes
  import opened Integers
  import opened ChaCha
  import opened Poly1305
  import opened KeyDerivation
  import opened SealedObject
  import opened SealedFile
  import opened SealedFileCodec
  import opened CipherLayout

  // ---- The cipher and its authenticator ----

  /** Byte i of the keystream under a 24-byte nonce, whose blocks are counted from `first`. */
  function StreamByte(key: Bytes, nonce: Bytes, first: nat, i: nat): Byte
    requires |key| == 32 && |nonce| == 24 && first + i / 64 <= 0xFFFFFFFF
  {
    Block(HChaCha20(key, nonce[..16]), first + i / 64, [0, 0, 0, 0] + nonce[16..])[i % 64]
  }

  /** The input of the authenticator: associated data and ciphertext, each followed by zeros up to a multiple of
      sixteen, then the two lengths as little-endian numbers of eight bytes. */
  ghost predicate Authenticated(m: Bytes, aad: Bytes, ciphertext: Bytes) {
    var a, c := |aad| + (16 - |aad| % 16) % 16, |ciphertext| + (16 - |ciphertext| % 16) % 16;
    && |m| == a + c + 16
    && m[..|aad|] == aad && (forall i :: |aad| <= i < a ==> m[i] == 0)
    && m[a..a + |ciphertext|] == ciphertext && (forall i :: a + |ciphertext| <= i < a + c ==> m[i] == 0)
    && (forall i :: 0 <= i < 8 ==> m[a + c + i] == |aad| / Pow256(i) % 256)
    && (forall i :: 0 <= i < 8 ==> m[a + c + 8 + i] == |ciphertext| / Pow256(i) % 256)
  }

  lemma MacDataIs(aad: Bytes, ciphertext: Bytes)
    requires |aad| < Pow256(8) && |ciphertext| < Pow256(8)
    ensures Authenticated(MacData(aad, ciphertext), aad, ciphertext)
  {
    hide LeBytes, Pow256, Pad16, Authenticated;
    PadIs(|aad|);
    PadIs(|ciphertext|);
    forall i | 0 <= i < 8
      ensures LeBytes(|aad|, 8)[i] == |aad| / Pow256(i) % 256
      ensures LeBytes(|ciphertext|, 8)[i] == |ciphertext| / Pow256(i) % 256
    {
      LengthDigit(|aad|, i);
      LengthDigit(|ciphertext|, i);
    }
    PartsAre(aad, Pad16(|aad|), ciphertext, Pad16(|ciphertext|), LeBytes(|aad|, 8), LeBytes(|ciphertext|, 8));
  }

  lemma PartsAre(aad: Bytes, p: Bytes, ciphertext: Bytes, q: Bytes, e: Bytes, f: Bytes)
    requires |p| == (16 - |aad| % 16) % 16 && |q| == (16 - |ciphertext| % 16) % 16 && |e| == |f| == 8
    requires (forall i :: 0 <= i < |p| ==> p[i] == 0) && forall i :: 0 <= i < |q| ==> q[i] == 0
    requires forall i :: 0 <= i < 8 ==> e[i] == |aad| / Pow256(i) % 256
    requires forall i :: 0 <= i < 8 ==> f[i] == |ciphertext| / Pow256(i) % 256
    ensures Authenticated(aad + p + ciphertext + q + e + f, aad, ciphertext)
  {
    hide Pow256;
    SixParts(aad, p, ciphertext, q, e, f);
  }

  lemma SixParts(a: Bytes, b: Bytes, c: Bytes, d: Bytes, e: Bytes, f: Bytes)
    ensures var m := a + b + c + d + e + f;
            var i, j := |a| + |b|, |a| + |b| + |c| + |d|;
            && m[..|a|] == a && (forall k :: |a| <= k < i ==> m[k] == b[k - |a|])
            && m[i..i + |c|] == c && (forall k :: i + |c| <= k < j ==> m[k] == d[k - i - |c|])
            && (forall k :: 0 <= k < |e| ==> m[j + k] == e[k])
            && (forall k :: 0 <= k < |f| ==> m[j + |e| + k] == f[k])
  {
  }

  lemma PadIs(size: nat)
    ensures |Pad16(size)| == (16 - size % 16) % 16 && forall i :: 0 <= i < |Pad16(size)| ==> Pad16(size)[i] == 0
  {
  }

  lemma LengthDigit(n: nat, i: nat)
    requires n < Pow256(8) && i < 8
    ensures LeBytes(n, 8)[i] == n / Pow256(i) % 256
  {
    LeIntOfBytes(n, 8);
    LittleDigit(LeBytes(n, 8), i);
  }

  /** Sealing combines the plaintext with the keystream from block 1 on, and tags the authenticated input under the
      first half of block 0, which no byte is ever encrypted with. */
  lemma SealBytes(key: Bytes, nonce: Bytes, plaintext: Bytes, aad: Bytes)
    requires |key| == 32 && |nonce| == 24 && |aad| < Pow256(8)
    requires AeadSeal(key, nonce, plaintext, aad).Ok?
    ensures var sealed := AeadSeal(key, nonce, plaintext, aad).value;
            && |plaintext| <= 0xFFFFFFFF * 64 && |sealed.ciphertext| == |plaintext|
            && (forall i :: 0 <= i < |plaintext| ==> 1 + i / 64 <= 0xFFFFFFFF)
            && (forall i :: 0 <= i < |plaintext| ==>
                  sealed.ciphertext[i] == XorByte(plaintext[i], StreamByte(key, nonce, 1, i)))
            && TagIs(key, nonce, sealed.ciphertext, aad, sealed.tag)
  {
    hide Block, HChaCha20, Tag, MacData, XorByte;
    KeystreamLimit(|plaintext|);
    forall i | 0 <= i < |plaintext| ensures 1 + i / 64 <= 0xFFFFFFFF { BlockInRange(1, |plaintext|, i); }
    MacDataIs(aad, AeadSeal(key, nonce, plaintext, aad).value.ciphertext);
  }

  ghost predicate TagIs(key: Bytes, nonce: Bytes, ciphertext: Bytes, aad: Bytes, tag: Bytes)
    requires |key| == 32 && |nonce| == 24
  {
    exists m :: Authenticated(m, aad, ciphertext)
                && tag == Tag(m, Block(HChaCha20(key, nonce[..16]), 0, [0, 0, 0, 0] + nonce[16..])[..32])
  }

  // ---- The derived key ----

  /** One block of HKDF under a salt made of the project, for an info made of the key id. */
  lemma DerivedKeyIs(p: Primitives, master: Bytes, projectId: string, keyId: string)
    requires KeyDerivation.Lawful(p) && |master| == 32
    ensures DeriveKey(p, master, projectId, keyId)
         == Some(p.hmac(p.hmac(p.sha256(p.encode("syntavra:" + projectId)), master),
                        p.encode("evidence-xchacha20poly1305:" + keyId) + [1]))
  {
    var prk := p.hmac(p.sha256(p.encode("syntavra:" + projectId)), master);
    var info := p.encode("evidence-xchacha20poly1305:" + keyId);
    OneBlock(p, prk, info);
  }

  lemma OneBlock(p: Primitives, prk: Bytes, info: Bytes)
    requires KeyDerivation.Lawful(p)
    ensures Expand(p, prk, info, 32) == Some(p.hmac(prk, info + [1]))
  {
    assert BlocksFor(32) == 1;
    assert T(p, prk, info, 0) == [] && Stream(p, prk, info, 0) == [];
    assert [] + info + [1] == info + [1];
    assert T(p, prk, info, 1) == p.hmac(prk, info + [1]);
    assert Stream(p, prk, info, 1) == [] + T(p, prk, info, 1);
    StreamLength(p, prk, info, 1);
    assert Stream(p, prk, info, 1)[..32] == p.hmac(prk, info + [1]);
  }

  // ---- Big-endian fields ----

  /** The number n in k bytes, most significant byte first. */
  ghost predicate IsField(b: Bytes, n: nat, k: nat) {
    |b| == k && forall i :: 0 <= i < k ==> b[i] == n / Pow256(k - 1 - i) % 256
  }

  lemma FieldIs(n: nat, k: nat)
    requires n < Pow256(k)
    ensures IsField(BeBytes(n, k), n, k)
  {
    hide BeInt, BeBytes, Pow256;
    forall i | 0 <= i < k ensures BeBytes(n, k)[i] == n / Pow256(k - 1 - i) % 256 {
      BeIntOfBytes(n, k);
      BigDigit(BeBytes(n, k), i);
    }
  }

  // ---- Sealed objects ----

  /** The header of an object: the magic "SCSEAL2", the sizes of key id, nonce and plaintext. */
  ghost predicate IsObjectHeader(h: Bytes, keySize: nat, size: nat) {
    && |h| == 19 && h[..8] == [0x53, 0x43, 0x53, 0x45, 0x41, 0x4c, 0x32, 0x00]
    && IsField(h[8..9], keySize, 1) && IsField(h[9..11], 24, 2) && IsField(h[11..], size, 8)
  }

  /** A sealed object is header, key id and nonce, all of which it authenticates, then ciphertext and tag under the key
      derived from master key, project and key id. */
  lemma ObjectIs(p: Primitives, nonce: Bytes, plaintext: Bytes, master: Bytes, projectId: string, keyId: string)
    returns (header: Bytes, sealed: Sealed)
    requires KeyDerivation.Lawful(p) && |nonce| == 24 && Seal(p, nonce, plaintext, master, projectId, keyId).Ok?
    ensures IsObjectHeader(header, |p.encode(keyId)|, |plaintext|) && |master| == 32
    ensures Seal(p, nonce, plaintext, master, projectId, keyId).value
         == header + p.encode(keyId) + nonce + sealed.ciphertext + sealed.tag
    ensures var key := DeriveKey(p, master, projectId, keyId).value;
            && |header + p.encode(keyId) + nonce| < Pow256(8)
            && AeadSeal(key, nonce, plaintext, header + p.encode(keyId) + nonce) == SealedObject.Ok(sealed)
  {
    hide AeadSeal, DeriveKey, BeBytes, Pow256, IsField;
    Widths();
    var encoded := p.encode(keyId);
    header := Header(|encoded|, NONCE_BYTES, |plaintext|);
    FieldIs(|encoded|, 1);
    FieldIs(NONCE_BYTES, 2);
    FieldIs(|plaintext|, 8);
    HeaderSlices(|encoded|, NONCE_BYTES, |plaintext|);
    sealed := AeadSeal(DeriveKey(p, master, projectId, keyId).value, nonce, plaintext, header + encoded + nonce).value;
  }

  lemma HeaderSlices(a: nat, b: nat, c: nat)
    requires a < Pow256(1) && b < Pow256(2) && c < Pow256(8)
    ensures var h := Header(a, b, c);
            && h[..8] == [0x53, 0x43, 0x53, 0x45, 0x41, 0x4c, 0x32, 0x00]
            && h[8..9] == BeBytes(a, 1) && h[9..11] == BeBytes(b, 2) && h[11..] == BeBytes(c, 8)
  {
    hide BeBytes, Pow256;
  }

  // ---- Sealed files ----

  /** The header of a file: the magic "SCCHNK2", key id size, piece size, plaintext size and number of pieces. */
  ghost predicate IsFileHeader(h: Bytes, keySize: nat, chunk: nat, size: nat, count: nat) {
    && |h| == 29 && h[..8] == [0x53, 0x43, 0x43, 0x48, 0x4e, 0x4b, 0x32, 0x00]
    && IsField(h[8..9], keySize, 1) && IsField(h[9..13], chunk, 4)
    && IsField(h[13..21], size, 8) && IsField(h[21..], count, 8)
  }

  /** The record of a piece: its number, its nonce and its size. */
  ghost predicate IsRecord(r: Bytes, index: nat, nonce: Bytes, size: nat) {
    && |r| == 36 && IsField(r[..8], index, 8) && r[8..32] == nonce && IsField(r[32..], size, 4)
  }

  /** The pieces of a source: full ones, and what is left as the last. */
  ghost predicate IsCount(count: nat, size: nat, chunk: nat) {
    if size == 0 then count == 0 else count > 0 && (count - 1) * chunk < size <= count * chunk
  }

  ghost function PieceOf(source: Bytes, chunk: nat, i: nat): Bytes
    requires i * chunk <= |source|
  {
    source[i * chunk..if |source| - i * chunk < chunk then |source| else i * chunk + chunk]
  }

  /** One stored piece: record, ciphertext and tag of the i-th part of the source, where header, key id and record are
      authenticated. */
  ghost predicate IsPiece(key: Bytes, prefix: Bytes, source: Bytes, chunk: nat, i: nat, nonce: Bytes, stored: Bytes)
    requires |key| == 32 && |nonce| == 24
  {
    exists record: Bytes, sealed: Sealed ::
      && i * chunk < |source| && IsRecord(record, i, nonce, |PieceOf(source, chunk, i)|)
      && |prefix + record| < Pow256(8)
      && AeadSeal(key, nonce, PieceOf(source, chunk, i), prefix + record) == SealedObject.Ok(sealed)
      && stored == record + sealed.ciphertext + sealed.tag
  }

  ghost function Joined(parts: seq<Bytes>): Bytes {
    if parts == [] then [] else Joined(parts[..|parts| - 1]) + parts[|parts| - 1]
  }

  /** A sealed file is its header and key id, followed by one stored piece for every part of the source, in order. */
  lemma FileIs(p: Primitives, source: Bytes, master: Bytes, projectId: string, keyId: string, chunk: int,
               nonces: nat -> Bytes)
    returns (header: Bytes, parts: seq<Bytes>)
    requires KeyDerivation.Lawful(p) && (forall i :: |nonces(i)| == 24)
    requires SealedFileOf(p, source, master, projectId, keyId, chunk, nonces).Good?
    ensures 0 < chunk && |master| == 32
    ensures IsFileHeader(header, |p.encode(keyId)|, chunk, |source|, |parts|) && IsCount(|parts|, |source|, chunk)
    ensures SealedFileOf(p, source, master, projectId, keyId, chunk, nonces).value
         == header + p.encode(keyId) + Joined(parts)
    ensures forall i :: 0 <= i < |parts| ==>
              IsPiece(DeriveKey(p, master, projectId, keyId).value, header + p.encode(keyId), source, chunk, i,
                      nonces(i), parts[i])
  {
    hide DeriveKey, PackHeader, Joined, IsPiece, SealedChunks, Chunks, IsFileHeader, IsCount;
    var encoded := p.encode(keyId);
    var key := DeriveKey(p, master, projectId, keyId).value;
    var h := HeaderFor(encoded, chunk, |source|);
    header := PackHeader(h);
    FileHeaderIs(h);
    CountIs(|source|, chunk);
    parts := Pieces(key, header + encoded, source, chunk, nonces, h.count);
  }

  lemma FileHeaderIs(h: FileHeader)
    requires Fits(h)
    ensures IsFileHeader(PackHeader(h), h.keySize, h.chunkBytes, h.plaintextSize, h.count)
  {
    hide BeBytes, Pow256, IsField;
    FieldIs(h.keySize, 1);
    FieldIs(h.chunkBytes, 4);
    FieldIs(h.plaintextSize, 8);
    FieldIs(h.count, 8);
    var b := PackHeader(h);
    assert b[8..9] == BeBytes(h.keySize, 1) && b[9..13] == BeBytes(h.chunkBytes, 4);
    assert b[13..21] == BeBytes(h.plaintextSize, 8) && b[21..] == BeBytes(h.count, 8);
  }

  lemma CountIs(size: nat, chunk: nat)
    requires chunk > 0
    ensures IsCount(PieceCount(size, chunk), size, chunk)
  {
    var n := PieceCount(size, chunk);
    DivisionFacts(size + chunk - 1, chunk);
    if n > 0 { assert (n - 1) * chunk == n * chunk - chunk; }
  }

  lemma {:induction false} Pieces(key: Bytes, prefix: Bytes, source: Bytes, chunk: nat, nonces: nat -> Bytes, n: nat)
    returns (parts: seq<Bytes>)
    requires |key| == 32 && |prefix| <= FILE_HEADER_SIZE + 255 && 0 < chunk <= MAX_CHUNK && n < Pow256(8)
    requires GoodNonces(nonces) && n <= PieceCount(|source|, chunk)
    ensures |parts| == n && Chunks(SealedChunks(key, prefix, source, chunk, nonces, n)) == Joined(parts)
    ensures forall i :: 0 <= i < n ==> IsPiece(key, prefix, source, chunk, i, nonces(i), parts[i])
  {
    hide SealedChunk, Piece, PieceEnd, Packable, ChunkBytes, IsPiece, Pow256, PieceCount;
    if n == 0 {
      parts := [];
    } else {
      var before := Pieces(key, prefix, source, chunk, nonces, n - 1);
      PieceBounds(|source|, chunk, n - 1);
      var c := PieceIs(key, prefix, source, chunk, n - 1, nonces(n - 1));
      parts := before + [ChunkBytes(c)];
      OneMoreChunk(key, prefix, source, chunk, nonces, n - 1);
      ChunksAppend(SealedChunks(key, prefix, source, chunk, nonces, n - 1), c);
      assert parts[..n - 1] == before;
    }
  }

  lemma PieceIs(key: Bytes, prefix: Bytes, source: Bytes, chunk: nat, i: nat, nonce: Bytes) returns (c: Chunk)
    requires |key| == 32 && |nonce| == 24 && |prefix| <= FILE_HEADER_SIZE + 255 && 0 < chunk <= MAX_CHUNK
    requires i < Pow256(8) && i * chunk < |source|
    ensures |Piece(source, chunk, i)| <= MAX_CHUNK && c == SealedChunk(key, prefix, i, nonce, Piece(source, chunk, i))
    ensures Packable(c) && IsPiece(key, prefix, source, chunk, i, nonce, ChunkBytes(c))
  {
    hide AeadSeal, BeBytes, Pow256, IsField, Piece, PieceOf, Record, IsRecord;
    PieceSize(source, chunk, i);
    SamePiece(source, chunk, i);
    var piece := Piece(source, chunk, i);
    c := SealedChunk(key, prefix, i, nonce, piece);
    ChunkWidths(|piece|);
    RecordIs(i, nonce, |piece|);
    var record := Record(i, nonce, |piece|);
    assert RecordData(prefix, i, nonce, |piece|) == prefix + record;
    var sealed := AeadSeal(key, nonce, piece, prefix + record).value;
    assert AeadSeal(key, nonce, piece, prefix + record) == SealedObject.Ok(sealed);
  }

  lemma SamePiece(source: Bytes, chunk: nat, i: nat)
    requires 0 < chunk && i * chunk < |source|
    ensures Piece(source, chunk, i) == PieceOf(source, chunk, i)
  {
    PieceEndGrows(|source|, chunk, i);
    assert (i + 1) * chunk == i * chunk + chunk;
  }

  lemma RecordIs(index: nat, nonce: Bytes, size: nat)
    requires index < Pow256(8) && |nonce| == 24 && size < Pow256(4)
    ensures IsRecord(Record(index, nonce, size), index, nonce, size)
  {
    hide BeBytes, Pow256, IsField;
    FieldIs(index, 8);
    FieldIs(size, 4);
    var b := Record(index, nonce, size);
    assert b[..8] == BeBytes(index, 8) && b[8..32] == nonce && b[32..] == BeBytes(size, 4);
  }


  /** Sealing an object succeeds exactly for a key id of 1 to 255 bytes, a master key of 32 bytes and fewer than 2^32
      blocks of plaintext; sealing a file takes pieces of 64 KiB to 64 MiB and any size that fits eight bytes. */
  lemma SealLimits(p: Primitives, nonce: Bytes, plaintext: Bytes, master: Bytes, projectId: string, keyId: string,
                   chunk: int, nonces: nat -> Bytes)
    requires KeyDerivation.Lawful(p) && |nonce| == 24 && (forall i :: |nonces(i)| == 24)
    ensures Seal(p, nonce, plaintext, master, projectId, keyId).Ok?
       <==> 1 <= |p.encode(keyId)| <= 255 && |master| == 32 && |plaintext| <= 0xFFFFFFFF * 64
    ensures SealedFileOf(p, plaintext, master, projectId, keyId, chunk, nonces).Good?
       <==> 1 <= |p.encode(keyId)| <= 255 && |master| == 32 && 0x10000 <= chunk <= 0x4000000
            && |plaintext| < 0x1_0000_0000_0000_0000
  {
    hide Seal, SealedFileOf;
    SealSucceeds(p, nonce, plaintext, master, projectId, keyId);
    SealFileSucceeds(p, plaintext, master, projectId, keyId, chunk, nonces);
    Widths();
  }
}
