/** `seal_file` and `open_sealed_file` over the chunked format. */
module SealedFileCodec {
  import opened Bytes
  import opened Integers
  import opened KeyDerivation
  import opened SealedObject
  import opened SealedFile

  /** ceil(size / chunk) */
  function PieceCount(size: nat, chunk: nat): nat
    requires chunk > 0
  {
    (size + chunk - 1) / chunk
  }

  lemma DivisionFacts(a: nat, c: nat)
    requires c > 0
    ensures a / c * c <= a < a / c * c + c
  {
  }

  lemma ProductAtLeast(a: nat, c: nat)
    requires c > 0
    ensures a * c >= a
  {
  }

  lemma PieceBounds(size: nat, chunk: nat, i: nat)
    requires chunk > 0
    ensures i < PieceCount(size, chunk) ==> i * chunk < size
    ensures PieceCount(size, chunk) * chunk >= size
    ensures PieceCount(size, chunk) <= size
  {
    var n := PieceCount(size, chunk);
    DivisionFacts(size + chunk - 1, chunk);
    hide PieceCount;
    MultiplesApart(i, n, chunk);
    MultiplesApart(size, n, chunk);
    ProductAtLeast(size, chunk);
  }

  /** Where the first i pieces end. */
  function PieceEnd(size: nat, chunk: nat, i: nat): (end: nat)
    ensures end <= size
  {
    if i * chunk < size then i * chunk else size
  }

  /** What reading `chunk` bytes for the i-th time returns. */
  function Piece(source: Bytes, chunk: nat, i: nat): Bytes
    requires chunk > 0
  {
    PieceEndGrows(|source|, chunk, i);
    source[PieceEnd(|source|, chunk, i)..PieceEnd(|source|, chunk, i + 1)]
  }

  lemma PieceEndGrows(size: nat, chunk: nat, i: nat)
    requires chunk > 0
    ensures PieceEnd(size, chunk, i) <= PieceEnd(size, chunk, i + 1) <= PieceEnd(size, chunk, i) + chunk
  {
    assert (i + 1) * chunk == i * chunk + chunk;
  }

  ghost predicate GoodNonces(nonces: nat -> Bytes) { forall i :: |nonces(i)| == NONCE_BYTES }

  lemma ChunkWidths(size: nat)
    requires size <= MAX_CHUNK
    ensures size < Pow256(4) && size <= MAX_PLAINTEXT && Pow256(4) <= Pow256(8)
  {
    assert Pow256(4) == 0x1_0000_0000;
    Pow256Grows(4, 8);
  }

  /** The associated data of every record: header, key id and the record itself. */
  function RecordData(prefix: Bytes, index: nat, nonce: Bytes, length: nat): (aad: Bytes)
    requires |prefix| <= FILE_HEADER_SIZE + 255 && index < Pow256(8) && |nonce| == NONCE_BYTES && length < Pow256(4)
    ensures |aad| < Pow256(8)
  {
    Widths();
    prefix + Record(index, nonce, length)
  }

  function SealedChunk(key: Bytes, prefix: Bytes, index: nat, nonce: Bytes, plaintext: Bytes): (c: Chunk)
    requires |key| == 32 && |prefix| <= FILE_HEADER_SIZE + 255 && index < Pow256(8) && |nonce| == NONCE_BYTES
    requires |plaintext| <= MAX_CHUNK
    ensures Packable(c) && c.index == index && c.nonce == nonce && |c.ciphertext| == |plaintext|
  {
    ChunkWidths(|plaintext|);
    var sealed := AeadSeal(key, nonce, plaintext, RecordData(prefix, index, nonce, |plaintext|)).value;
    Chunk(index, nonce, sealed.ciphertext, sealed.tag)
  }

  /** A sealed chunk opens, under its own record, to the plaintext that was sealed. */
  lemma ChunkOpens(key: Bytes, prefix: Bytes, index: nat, nonce: Bytes, plaintext: Bytes)
    requires |key| == 32 && |prefix| <= FILE_HEADER_SIZE + 255 && index < Pow256(8) && |nonce| == NONCE_BYTES
    requires |plaintext| <= MAX_CHUNK
    ensures var c := SealedChunk(key, prefix, index, nonce, plaintext);
            |c.ciphertext| < Pow256(4) <= Pow256(8)
            && AeadOpen(key, nonce, c.ciphertext, c.tag, RecordData(prefix, index, nonce, |c.ciphertext|))
                == Ok(plaintext)
  {
    hide AeadSeal, AeadOpen, RecordData;
    ChunkWidths(|plaintext|);
    var c := SealedChunk(key, prefix, index, nonce, plaintext);
    AeadInverse(key, nonce, plaintext, c.ciphertext, c.tag, RecordData(prefix, index, nonce, |plaintext|));
  }

  /** The first n chunks of a source. */
  function SealedChunks(key: Bytes, prefix: Bytes, source: Bytes, chunk: nat, nonces: nat -> Bytes,
                        n: nat): (cs: seq<Chunk>)
    requires |key| == 32 && |prefix| <= FILE_HEADER_SIZE + 255 && 0 < chunk <= MAX_CHUNK && n < Pow256(8)
    requires GoodNonces(nonces)
    ensures |cs| == n && AllPackable(cs)
  {
    if n == 0 then []
    else
      PieceEndGrows(|source|, chunk, n - 1);
      SealedChunks(key, prefix, source, chunk, nonces, n - 1)
          + [SealedChunk(key, prefix, n - 1, nonces(n - 1), Piece(source, chunk, n - 1))]
  }

  lemma {:induction false} SealedChunkAt(key: Bytes, prefix: Bytes, source: Bytes, chunk: nat, nonces: nat -> Bytes,
                                         n: nat, i: nat)
    requires |key| == 32 && |prefix| <= FILE_HEADER_SIZE + 255 && 0 < chunk <= MAX_CHUNK && i < n < Pow256(8)
    requires GoodNonces(nonces)
    ensures |Piece(source, chunk, i)| <= MAX_CHUNK
    ensures SealedChunks(key, prefix, source, chunk, nonces, n)[i]
         == SealedChunk(key, prefix, i, nonces(i), Piece(source, chunk, i))
  {
    hide SealedChunk;
    PieceEndGrows(|source|, chunk, i);
    if i < n - 1 { SealedChunkAt(key, prefix, source, chunk, nonces, n - 1, i); }
  }

  lemma {:induction false} ChunksAppend(cs: seq<Chunk>, c: Chunk)
    requires AllPackable(cs) && Packable(c)
    ensures Chunks(cs + [c]) == Chunks(cs) + ChunkBytes(c)
  {
    hide ChunkBytes, Packable;
    if cs == [] {
      assert Chunks([c]) == ChunkBytes(c) + Chunks([]);
      assert [] + [c] == [c];
    } else {
      ChunksAppend(cs[1..], c);
      assert (cs + [c])[1..] == cs[1..] + [c];
      assert ChunkBytes(cs[0]) + (Chunks(cs[1..]) + ChunkBytes(c))
          == ChunkBytes(cs[0]) + Chunks(cs[1..]) + ChunkBytes(c);
    }
  }

  /** The whole sealed file, or the first check that refuses. */
  function SealedFileOf(p: Primitives, source: Bytes, master: Bytes, projectId: string, keyId: string, chunk: int,
                        nonces: nat -> Bytes): FileResult<Bytes>
    requires Lawful(p) && GoodNonces(nonces)
  {
    var encoded := p.encode(keyId);
    if chunk < MIN_CHUNK || chunk > MAX_CHUNK then Fail(ChunkSizeOutOfRange)
    else if encoded == [] || |encoded| > 255 then Fail(BadKeyIdLength)
    else if |source| >= Pow256(8) then Fail(NotPackable)
    else if |master| != 32 then Fail(MasterKeyLength)
    else
      var h := HeaderFor(encoded, chunk, |source|);
      var key := DeriveKey(p, master, projectId, keyId).value;
      Good(FileBytes(h, encoded, SealedChunks(key, PackHeader(h) + encoded, source, chunk, nonces, h.count)))
  }

  function HeaderFor(encoded: Bytes, chunk: nat, size: nat): (h: FileHeader)
    requires 0 < |encoded| <= 255 && 0 < chunk <= MAX_CHUNK && size < Pow256(8)
    ensures Fits(h)
  {
    Widths();
    ChunkWidths(chunk);
    PieceBounds(size, chunk, 0);
    FileHeader(CHUNK_MAGIC, |encoded|, chunk, size, PieceCount(size, chunk))
  }

  /** `seal_file`: one record per piece of the source. */
  method SealFile(p: Primitives, source: Bytes, master: Bytes, projectId: string, keyId: string, chunk: int,
                  nonces: nat -> Bytes)
    returns (r: FileResult<Bytes>)
    requires Lawful(p) && GoodNonces(nonces)
    ensures r == SealedFileOf(p, source, master, projectId, keyId, chunk, nonces)
  {
    hide SealedChunk, PackHeader, Chunks, ChunkBytes, DeriveKey, Piece, Packable, Fits;
    if chunk < MIN_CHUNK || chunk > MAX_CHUNK {
      return Fail(ChunkSizeOutOfRange);
    }
    var encoded := p.encode(keyId);
    if encoded == [] || |encoded| > 255 {
      return Fail(BadKeyIdLength);
    }
    if |source| >= Pow256(8) {
      return Fail(NotPackable);
    }
    var h := HeaderFor(encoded, chunk, |source|);
    var derived := DeriveKey(p, master, projectId, keyId);
    if derived.None? {
      return Fail(MasterKeyLength);
    }
    var prefix := PackHeader(h) + encoded;
    var records := SealPieces(derived.value, prefix, source, chunk, nonces, h.count);
    r := Good(prefix + records);
  }

  /** The sealing loop: read a piece, write its record, until the count is reached. */
  method SealPieces(key: Bytes, prefix: Bytes, source: Bytes, chunk: nat, nonces: nat -> Bytes, count: nat)
    returns (output: Bytes)
    requires |key| == 32 && |prefix| <= FILE_HEADER_SIZE + 255 && 0 < chunk <= MAX_CHUNK && count < Pow256(8)
    requires GoodNonces(nonces)
    ensures output == Chunks(SealedChunks(key, prefix, source, chunk, nonces, count))
  {
    hide SealedChunk, SealedChunks, Chunks, ChunkBytes, Piece, PieceEnd, Packable, Front, Pow256;
    output := [];
    var remaining := source;
    NoChunks(key, prefix, source, chunk, nonces);
    FirstPiece(source, chunk);
    for index := 0 to count
      invariant remaining == source[PieceEnd(|source|, chunk, index)..]
      invariant output == Chunks(SealedChunks(key, prefix, source, chunk, nonces, index))
    {
      SealStep(key, prefix, source, chunk, nonces, index);
      var plaintext := Front(remaining, chunk);
      var sealed := SealedChunk(key, prefix, index, nonces(index), plaintext);
      remaining := remaining[|plaintext|..];
      output := output + ChunkBytes(sealed);
    }
  }

  /** `input_handle.read(chunk_bytes)` */
  function Front(rest: Bytes, chunk: nat): (piece: Bytes)
    ensures |piece| <= |rest| && |piece| <= chunk
  {
    rest[..if chunk <= |rest| then chunk else |rest|]
  }

  /** One turn of the sealing loop: the piece read is the next one, and its record is the next to be written. */
  lemma SealStep(key: Bytes, prefix: Bytes, source: Bytes, chunk: nat, nonces: nat -> Bytes, i: nat)
    requires |key| == 32 && |prefix| <= FILE_HEADER_SIZE + 255 && 0 < chunk <= MAX_CHUNK && i + 1 < Pow256(8)
    requires GoodNonces(nonces)
    ensures var rest := source[PieceEnd(|source|, chunk, i)..];
            var piece := Front(rest, chunk);
            && rest[|piece|..] == source[PieceEnd(|source|, chunk, i + 1)..]
            && Packable(SealedChunk(key, prefix, i, nonces(i), piece))
            && Chunks(SealedChunks(key, prefix, source, chunk, nonces, i + 1))
                 == Chunks(SealedChunks(key, prefix, source, chunk, nonces, i))
                    + ChunkBytes(SealedChunk(key, prefix, i, nonces(i), piece))
  {
    hide SealedChunk, SealedChunks, Chunks, ChunkBytes, Packable, Pow256, Piece, PieceEnd, Front;
    NextPiece(source, chunk, i);
    OneMoreChunk(key, prefix, source, chunk, nonces, i);
    ChunksAppend(SealedChunks(key, prefix, source, chunk, nonces, i),
                 SealedChunk(key, prefix, i, nonces(i), Piece(source, chunk, i)));
  }

  lemma FirstPiece(source: Bytes, chunk: nat)
    ensures source == source[PieceEnd(|source|, chunk, 0)..]
  {
  }

  lemma NoChunks(key: Bytes, prefix: Bytes, source: Bytes, chunk: nat, nonces: nat -> Bytes)
    requires |key| == 32 && |prefix| <= FILE_HEADER_SIZE + 255 && 0 < chunk <= MAX_CHUNK && GoodNonces(nonces)
    ensures Chunks(SealedChunks(key, prefix, source, chunk, nonces, 0)) == []
  {
  }

  lemma OneMoreChunk(key: Bytes, prefix: Bytes, source: Bytes, chunk: nat, nonces: nat -> Bytes, n: nat)
    requires |key| == 32 && |prefix| <= FILE_HEADER_SIZE + 255 && 0 < chunk <= MAX_CHUNK && n + 1 < Pow256(8)
    requires GoodNonces(nonces)
    ensures |Piece(source, chunk, n)| <= MAX_CHUNK
    ensures SealedChunks(key, prefix, source, chunk, nonces, n + 1)
         == SealedChunks(key, prefix, source, chunk, nonces, n)
            + [SealedChunk(key, prefix, n, nonces(n), Piece(source, chunk, n))]
  {
    hide SealedChunk, Piece, PieceEnd;
    PieceSize(source, chunk, n);
  }

  lemma PieceSize(source: Bytes, chunk: nat, i: nat)
    requires 0 < chunk
    ensures |Piece(source, chunk, i)| <= chunk
  {
    hide PieceEnd;
    PieceEndGrows(|source|, chunk, i);
  }

  lemma NextPiece(source: Bytes, chunk: nat, i: nat)
    requires 0 < chunk
    ensures var rest := source[PieceEnd(|source|, chunk, i)..];
            var piece := Front(rest, chunk);
            piece == Piece(source, chunk, i) && rest[|piece|..] == source[PieceEnd(|source|, chunk, i + 1)..]
  {
    PieceEndGrows(|source|, chunk, i);
    assert (i + 1) * chunk == i * chunk + chunk;
  }

  datatype Decrypted = Decrypted(plaintext: Bytes, rest: Bytes)

  /** The opening loop from some point on, with `out` already written. */
  function OpenFrom(key: Bytes, prefix: Bytes, rest: Bytes, chunkBytes: nat, index: nat, count: nat,
                    out: Bytes): FileResult<Decrypted>
    requires |key| == 32 && |prefix| <= FILE_HEADER_SIZE + 255 && index <= count < Pow256(8)
    decreases count - index
  {
    if index == count then Good(Decrypted(out, rest))
    else match ReadChunk(rest, chunkBytes, index)
      case Fail(e) => Fail(e)
      case Good(r) =>
        ChunkWidths(0);
        WrittenFromRead(rest, chunkBytes, index);
        match AeadOpen(key, r.chunk.nonce, r.chunk.ciphertext, r.chunk.tag,
                       RecordData(prefix, index, r.chunk.nonce, |r.chunk.ciphertext|))
        case Err(_) => Fail(NotAuthentic)
        case Ok(plaintext) => OpenFrom(key, prefix, r.rest, chunkBytes, index + 1, count, out + plaintext)
  }

  datatype OpenedFile = OpenedFile(plaintext: Bytes, info: Info)

  /** `open_sealed_file`: the destination's content and the info, or the check that refused. */
  function OpenedFileOf(p: Primitives, file: Bytes, master: Bytes, projectId: string): FileResult<OpenedFile>
    requires Lawful(p)
  {
    if |file| < FILE_HEADER_SIZE then Fail(HeaderTruncated)
    else
      var h := HeaderOf(file);
      if h.magic != CHUNK_MAGIC || h.keySize < 1 || h.chunkBytes < 1 then Fail(InvalidHeader)
      else match p.decode(file[FILE_HEADER_SIZE..KeyEnd(file)])
        case None => Fail(InvalidKeyText)
        case Some(keyId) =>
          match DeriveKey(p, master, projectId, keyId)
          case None => Fail(MasterKeyLength)
          case Some(key) =>
            HeaderBounds(file);
            match OpenFrom(key, file[..KeyEnd(file)], file[KeyEnd(file)..], h.chunkBytes, 0, h.count, [])
            case Fail(e) => Fail(e)
            case Good(progress) =>
              if |progress.plaintext| != h.plaintextSize || progress.rest != [] then Fail(TotalMismatch)
              else Good(OpenedFile(progress.plaintext, Info(keyId, h.plaintextSize, |file|)))
  }

  lemma HeaderBounds(file: Bytes)
    requires |file| >= FILE_HEADER_SIZE && HeaderOf(file).magic == CHUNK_MAGIC
    ensures HeaderOf(file).count < Pow256(8) && KeyEnd(file) <= FILE_HEADER_SIZE + 255
  {
    hide PackHeader, UnpackHeader;
    Widths();
    PackUnpacked(file[..FILE_HEADER_SIZE]);
  }

  method OpenSealedFile(p: Primitives, source: Bytes, master: Bytes, projectId: string)
    returns (r: FileResult<OpenedFile>)
    requires Lawful(p)
    ensures r == OpenedFileOf(p, source, master, projectId)
  {
    hide ReadChunk, DeriveKey, AeadOpen, RecordData;
    if |source| < FILE_HEADER_SIZE {
      return Fail(HeaderTruncated);
    }
    var h := HeaderOf(source);
    if h.magic != CHUNK_MAGIC || h.keySize < 1 || h.chunkBytes < 1 {
      return Fail(InvalidHeader);
    }
    var keyId := p.decode(source[FILE_HEADER_SIZE..KeyEnd(source)]);
    if keyId.None? {
      return Fail(InvalidKeyText);
    }
    var derived := DeriveKey(p, master, projectId, keyId.value);
    if derived.None? {
      return Fail(MasterKeyLength);
    }
    HeaderBounds(source);
    ChunkWidths(0);
    var prefix := source[..KeyEnd(source)];
    var rest, output: Bytes := source[KeyEnd(source)..], [];
    for index := 0 to h.count
      invariant OpenFrom(derived.value, prefix, source[KeyEnd(source)..], h.chunkBytes, 0, h.count, [])
             == OpenFrom(derived.value, prefix, rest, h.chunkBytes, index, h.count, output)
    {
      var read := ReadChunk(rest, h.chunkBytes, index);
      if read.Fail? {
        return Fail(read.error);
      }
      WrittenFromRead(rest, h.chunkBytes, index);
      var chunk := read.value.chunk;
      var plaintext := AeadOpen(derived.value, chunk.nonce, chunk.ciphertext, chunk.tag,
                                RecordData(prefix, index, chunk.nonce, |chunk.ciphertext|));
      if plaintext.Err? {
        return Fail(NotAuthentic);
      }
      rest, output := read.value.rest, output + plaintext.value;
    }
    if |output| != h.plaintextSize || rest != [] {
      return Fail(TotalMismatch);
    }
    r := Good(OpenedFile(output, Info(keyId.value, h.plaintextSize, |source|)));
  }

  /** From the i-th record on, opening appends the rest of the source. */
  lemma {:induction false} OpenSealedChunks(key: Bytes, prefix: Bytes, source: Bytes, chunk: nat,
                                            nonces: nat -> Bytes, n: nat, i: nat)
    requires |key| == 32 && |prefix| <= FILE_HEADER_SIZE + 255 && 0 < chunk <= MAX_CHUNK && i <= n < Pow256(8)
    requires GoodNonces(nonces)
    ensures OpenFrom(key, prefix, Chunks(SealedChunks(key, prefix, source, chunk, nonces, n)[i..]), chunk, i, n,
                     source[..PieceEnd(|source|, chunk, i)])
         == Good(Decrypted(source[..PieceEnd(|source|, chunk, n)], []))
    decreases n - i
  {
    hide ReadChunk, ChunkBytes, Packable, AeadOpen, RecordData, SealedChunk, SealedChunks;
    var cs := SealedChunks(key, prefix, source, chunk, nonces, n);
    if i == n {
      assert cs[n..] == [];
    } else {
      var piece := Piece(source, chunk, i);
      SealedChunkAt(key, prefix, source, chunk, nonces, n, i);
      PieceEndGrows(|source|, chunk, i);
      assert cs[i..][0] == cs[i] && cs[i..][1..] == cs[i + 1..];
      ReadWritten(cs[i], Chunks(cs[i + 1..]), chunk, i);
      ChunkOpens(key, prefix, i, nonces(i), piece);
      assert source[..PieceEnd(|source|, chunk, i)] + piece == source[..PieceEnd(|source|, chunk, i + 1)];
      OpenSealedChunks(key, prefix, source, chunk, nonces, n, i + 1);
    }
  }

  /** Opening reads the same records inspection does, and produces as many bytes as they declare. */
  lemma {:induction false} OpenReadsAll(key: Bytes, prefix: Bytes, rest: Bytes, chunkBytes: nat, index: nat,
                                        count: nat, out: Bytes)
    requires |key| == 32 && |prefix| <= FILE_HEADER_SIZE + 255 && index <= count < Pow256(8)
    requires OpenFrom(key, prefix, rest, chunkBytes, index, count, out).Good?
    ensures var d := OpenFrom(key, prefix, rest, chunkBytes, index, count, out).value;
            var read := ReadAll(rest, chunkBytes, index, count);
            read.Good? && read.value.rest == d.rest && |d.plaintext| == |out| + Total(read.value.chunks)
    decreases count - index
  {
    hide ReadChunk, RecordData;
    if index < count {
      var r := ReadChunk(rest, chunkBytes, index).value;
      WrittenFromRead(rest, chunkBytes, index);
      ChunkWidths(0);
      OpenedLength(key, r.chunk.nonce, r.chunk.ciphertext, r.chunk.tag,
                   RecordData(prefix, index, r.chunk.nonce, |r.chunk.ciphertext|));
      hide AeadOpen;
      var plaintext := AeadOpen(key, r.chunk.nonce, r.chunk.ciphertext, r.chunk.tag,
                                RecordData(prefix, index, r.chunk.nonce, |r.chunk.ciphertext|)).value;
      OpenReadsAll(key, prefix, r.rest, chunkBytes, index + 1, count, out + plaintext);
      var q := ReadAll(r.rest, chunkBytes, index + 1, count).value;
      assert ([r.chunk] + q.chunks)[1..] == q.chunks;
    }
  }

  lemma OpenedLength(key: Bytes, nonce: Bytes, ciphertext: Bytes, tag: Bytes, aad: Bytes)
    requires |key| == 32 && |nonce| == NONCE_BYTES && |aad| < Pow256(8) && |ciphertext| < Pow256(8)
    ensures var r := AeadOpen(key, nonce, ciphertext, tag, aad); r.Ok? ==> |r.value| == |ciphertext|
  {
  }

  /** A file that opens also passes inspection, with the same info. */
  lemma OpenImpliesInspect(p: Primitives, file: Bytes, master: Bytes, projectId: string)
    requires Lawful(p) && OpenedFileOf(p, file, master, projectId).Good?
    ensures InspectFile(p, file) == Good(OpenedFileOf(p, file, master, projectId).value.info)
  {
    hide OpenFrom, ReadAll, DeriveKey, UnpackHeader;
    var h := HeaderOf(file);
    HeaderBounds(file);
    var keyId := p.decode(file[FILE_HEADER_SIZE..KeyEnd(file)]).value;
    var key := DeriveKey(p, master, projectId, keyId).value;
    OpenReadsAll(key, file[..KeyEnd(file)], file[KeyEnd(file)..], h.chunkBytes, 0, h.count, []);
  }

  /** Opening a sealed file restores its source, whatever the size and the legal chunk size, and inspection agrees. */
  lemma SealThenOpenFile(p: Primitives, source: Bytes, master: Bytes, projectId: string, keyId: string, chunk: int,
                         nonces: nat -> Bytes)
    requires Lawful(p) && GoodNonces(nonces)
    requires SealedFileOf(p, source, master, projectId, keyId, chunk, nonces).Good?
    ensures var file := SealedFileOf(p, source, master, projectId, keyId, chunk, nonces).value;
            && OpenedFileOf(p, file, master, projectId) == Good(OpenedFile(source, Info(keyId, |source|, |file|)))
            && InspectFile(p, file) == Good(Info(keyId, |source|, |file|))
  {
    hide OpenFrom, DeriveKey, FileBytes, SealedChunks, InspectFile;
    var file := SealedFileOf(p, source, master, projectId, keyId, chunk, nonces).value;
    var encoded := p.encode(keyId);
    var h := HeaderFor(encoded, chunk, |source|);
    var key := DeriveKey(p, master, projectId, keyId).value;
    var prefix := PackHeader(h) + encoded;
    var cs := SealedChunks(key, prefix, source, chunk, nonces, h.count);
    FileParts(h, encoded, cs);
    PrefixOfFile(h, encoded, cs);
    OpenSealedChunks(key, prefix, source, chunk, nonces, h.count, 0);
    assert cs[0..] == cs;
    PieceBounds(|source|, chunk, 0);
    assert source[..PieceEnd(|source|, chunk, h.count)] == source;
    assert source[..PieceEnd(|source|, chunk, 0)] == [];
    OpenImpliesInspect(p, file, master, projectId);
  }

  lemma PrefixOfFile(h: FileHeader, key: Bytes, cs: seq<Chunk>)
    requires Fits(h) && AllPackable(cs)
    ensures |FileBytes(h, key, cs)| >= FILE_HEADER_SIZE + |key|
    ensures FileBytes(h, key, cs)[..FILE_HEADER_SIZE + |key|] == PackHeader(h) + key
  {
  }

  /** Sealing a file succeeds exactly under these conditions. */
  lemma SealFileSucceeds(p: Primitives, source: Bytes, master: Bytes, projectId: string, keyId: string, chunk: int,
                         nonces: nat -> Bytes)
    requires Lawful(p) && GoodNonces(nonces)
    ensures SealedFileOf(p, source, master, projectId, keyId, chunk, nonces).Good?
       <==> MIN_CHUNK <= chunk <= MAX_CHUNK && 1 <= |p.encode(keyId)| <= 255 && |source| < Pow256(8) && |master| == 32
  {
    hide DeriveKey, FileBytes, SealedChunks;
  }

  /** The exception to the truncation check does occur: the sealing of an empty source, cut inside its key id where the
      shorter id still decodes, passes inspection and opens, under the shorter id. Where the empty key id encodes to no
      bytes, this holds for every key id cut off as a whole. */
  lemma EmptyFileCutAccepted(p: Primitives, master: Bytes, projectId: string, keyId: string, chunk: int,
                             nonces: nat -> Bytes, m: nat)
    requires Lawful(p) && GoodNonces(nonces) && SealedFileOf(p, [], master, projectId, keyId, chunk, nonces).Good?
    requires m < |p.encode(keyId)| && p.decode(p.encode(keyId)[..m]).Some?
    ensures var file := SealedFileOf(p, [], master, projectId, keyId, chunk, nonces).value;
            var cut, shorter := file[..FILE_HEADER_SIZE + m], p.decode(p.encode(keyId)[..m]).value;
            && |file| == FILE_HEADER_SIZE + |p.encode(keyId)| && shorter != keyId
            && InspectFile(p, cut) == Good(Info(shorter, 0, |cut|))
            && OpenedFileOf(p, cut, master, projectId) == Good(OpenedFile([], Info(shorter, 0, |cut|)))
  {
    hide DeriveKey, PackHeader, UnpackHeader;
    var encoded := p.encode(keyId);
    var h := HeaderFor(encoded, chunk, 0);
    var file := SealedFileOf(p, [], master, projectId, keyId, chunk, nonces).value;
    NoPieces(chunk);
    assert file == PackHeader(h) + encoded + [];
    var cut := file[..FILE_HEADER_SIZE + m];
    assert cut[..FILE_HEADER_SIZE] == PackHeader(h);
    UnpackPacked(h);
    assert KeyEnd(cut) == |cut|;
    assert cut[FILE_HEADER_SIZE..|cut|] == encoded[..m];
    assert cut[|cut|..] == [];
  }

  lemma NoPieces(chunk: nat)
    requires chunk > 0
    ensures PieceCount(0, chunk) == 0
  {
  }
}
