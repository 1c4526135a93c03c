/** The chunked sealed-file format: sealing, inspecting and opening files record by record. */
module SealedFile {
  import opened Bytes
  import opened Integers
  import opened KeyDerivation
  import opened SealedObject

  const CHUNK_MAGIC: Bytes := [0x53, 0x43, 0x43, 0x48, 0x4e, 0x4b, 0x32, 0x00]   // "SCCHNK2\0"
  const FILE_HEADER_SIZE: nat := 29
  const RECORD_SIZE: nat := 36
  const MIN_CHUNK: nat := 64 * 1024
  const MAX_CHUNK: nat := 64 * 1024 * 1024

  datatype FileError =
    | ChunkSizeOutOfRange | BadKeyIdLength | MasterKeyLength | NotPackable | SealFailed
    | HeaderTruncated | InvalidHeader | InvalidKeyText
    | RecordTruncated | InvalidRecord | ChunkTruncated | NotAuthentic | TotalMismatch

  datatype FileResult<T> = Good(value: T) | Fail(error: FileError)

  datatype Chunk = Chunk(index: nat, nonce: Bytes, ciphertext: Bytes, tag: Bytes)

  datatype FileHeader = FileHeader(magic: Bytes, keySize: nat, chunkBytes: nat, plaintextSize: nat, count: nat)

  ghost predicate Fits(h: FileHeader) {
    h.magic == CHUNK_MAGIC && h.keySize < Pow256(1) && h.chunkBytes < Pow256(4) && h.plaintextSize < Pow256(8)
        && h.count < Pow256(8)
  }

  /** struct.pack(">8sBIQQ", ...) */
  function PackHeader(h: FileHeader): (b: Bytes)
    requires Fits(h)
    ensures |b| == FILE_HEADER_SIZE
  {
    h.magic + BeBytes(h.keySize, 1) + BeBytes(h.chunkBytes, 4) + BeBytes(h.plaintextSize, 8) + BeBytes(h.count, 8)
  }

  function UnpackHeader(b: Bytes): FileHeader
    requires |b| == FILE_HEADER_SIZE
  {
    FileHeader(b[..8], BeInt(b[8..9]), BeInt(b[9..13]), BeInt(b[13..21]), BeInt(b[21..]))
  }

  lemma UnpackPacked(h: FileHeader)
    requires Fits(h)
    ensures UnpackHeader(PackHeader(h)) == h
  {
    hide BeBytes, BeInt;
    var b := PackHeader(h);
    assert b[..8] == CHUNK_MAGIC && b[8..9] == BeBytes(h.keySize, 1) && b[9..13] == BeBytes(h.chunkBytes, 4);
    assert b[13..21] == BeBytes(h.plaintextSize, 8) && b[21..] == BeBytes(h.count, 8);
    BeIntOfBytes(h.keySize, 1);
    BeIntOfBytes(h.chunkBytes, 4);
    BeIntOfBytes(h.plaintextSize, 8);
    BeIntOfBytes(h.count, 8);
  }

  /** A chunk whose record can be packed. */
  ghost predicate Packable(c: Chunk) {
    c.index < Pow256(8) && |c.nonce| == NONCE_BYTES && |c.ciphertext| < Pow256(4) && |c.tag| == TAG_BYTES
  }

  /** struct.pack(">Q24sI", ...) */
  function Record(index: nat, nonce: Bytes, length: nat): (b: Bytes)
    requires index < Pow256(8) && |nonce| == NONCE_BYTES && length < Pow256(4)
    ensures |b| == RECORD_SIZE
  {
    BeBytes(index, 8) + nonce + BeBytes(length, 4)
  }

  function ChunkBytes(c: Chunk): (b: Bytes)
    requires Packable(c)
    ensures |b| == RECORD_SIZE + |c.ciphertext| + TAG_BYTES
  {
    Record(c.index, c.nonce, |c.ciphertext|) + c.ciphertext + c.tag
  }

  /** The records of a file, one after the other. */
  function Chunks(cs: seq<Chunk>): Bytes
    requires forall c :: c in cs ==> Packable(c)
  {
    if cs == [] then [] else ChunkBytes(cs[0]) + Chunks(cs[1..])
  }

  datatype Read = Read(chunk: Chunk, record: Bytes, rest: Bytes)

  /** One turn of the reading loop: the record, its ciphertext and its tag. */
  function ReadChunk(rest: Bytes, chunkBytes: nat, expected: nat): (r: FileResult<Read>)
    ensures r.Good? ==>
              |r.value.rest| < |rest| && |r.value.record| == RECORD_SIZE && |r.value.chunk.nonce| == NONCE_BYTES
    ensures r.Good? ==> |r.value.chunk.tag| == TAG_BYTES && |r.value.chunk.ciphertext| < Pow256(4)
  {
    if |rest| < RECORD_SIZE then Fail(RecordTruncated)
    else
      var index, nonce, length := BeInt(rest[..8]), rest[8..32], BeInt(rest[32..36]);
      if index != expected || length > chunkBytes then Fail(InvalidRecord)
      else
        var body := rest[RECORD_SIZE..];
        if |body| < length + TAG_BYTES then Fail(ChunkTruncated)
        else Good(Read(Chunk(index, nonce, body[..length], body[length..length + TAG_BYTES]), rest[..RECORD_SIZE],
                       body[length + TAG_BYTES..]))
  }

  /** A written chunk is read back exactly when its index is the expected one and its length is allowed. */
  lemma ReadWritten(c: Chunk, tail: Bytes, chunkBytes: nat, expected: nat)
    requires Packable(c)
    ensures ReadChunk(ChunkBytes(c) + tail, chunkBytes, expected)
         == if c.index != expected || |c.ciphertext| > chunkBytes then Fail(InvalidRecord)
            else Good(Read(c, Record(c.index, c.nonce, |c.ciphertext|), tail))
  {
    hide BeBytes, BeInt;
    var record := Record(c.index, c.nonce, |c.ciphertext|);
    var rest := ChunkBytes(c) + tail;
    assert rest[..RECORD_SIZE] == record;
    assert rest[..8] == BeBytes(c.index, 8) && rest[8..32] == c.nonce && rest[32..36] == BeBytes(|c.ciphertext|, 4);
    BeIntOfBytes(c.index, 8);
    BeIntOfBytes(|c.ciphertext|, 4);
    var body := rest[RECORD_SIZE..];
    assert body == c.ciphertext + c.tag + tail;
    assert body[..|c.ciphertext|] == c.ciphertext;
    assert body[|c.ciphertext|..|c.ciphertext| + TAG_BYTES] == c.tag;
    assert body[|c.ciphertext| + TAG_BYTES..] == tail;
  }

  /** What was read is exactly the writing of the chunk, followed by the rest. */
  lemma WrittenFromRead(rest: Bytes, chunkBytes: nat, expected: nat)
    requires ReadChunk(rest, chunkBytes, expected).Good?
    ensures var r := ReadChunk(rest, chunkBytes, expected).value;
            && Packable(r.chunk) && r.chunk.index == expected && |r.chunk.ciphertext| <= chunkBytes
            && rest == ChunkBytes(r.chunk) + r.rest
            && r.record == Record(r.chunk.index, r.chunk.nonce, |r.chunk.ciphertext|)
  {
    hide BeBytes, BeInt;
    var r := ReadChunk(rest, chunkBytes, expected).value;
    BeBytesOfInt(rest[..8]);
    BeBytesOfInt(rest[32..36]);
    assert rest[..RECORD_SIZE] == rest[..8] + rest[8..32] + rest[32..36];
    var body := rest[RECORD_SIZE..];
    var length := |r.chunk.ciphertext|;
    assert body == body[..length] + body[length..length + TAG_BYTES] + body[length + TAG_BYTES..];
    assert rest == rest[..RECORD_SIZE] + body;
  }

  datatype Parsed = Parsed(chunks: seq<Chunk>, rest: Bytes)
  datatype Progress = Progress(seen: nat, rest: Bytes)

  /** Reading records until `count` of them have been read, with indices counted up from `index`. */
  function ReadAll(rest: Bytes, chunkBytes: nat, index: nat, count: nat): FileResult<Parsed>
    requires index <= count
    decreases count - index
  {
    if index == count then Good(Parsed([], rest))
    else match ReadChunk(rest, chunkBytes, index)
      case Fail(e) => Fail(e)
      case Good(r) =>
        match ReadAll(r.rest, chunkBytes, index + 1, count)
        case Fail(e) => Fail(e)
        case Good(p) => Good(Parsed([r.chunk] + p.chunks, p.rest))
  }

  ghost predicate AllPackable(cs: seq<Chunk>) { forall c :: c in cs ==> Packable(c) }

  /** The chunks are numbered consecutively from `index` and none is longer than allowed. */
  ghost predicate InSequence(cs: seq<Chunk>, chunkBytes: nat, index: nat) {
    forall k :: 0 <= k < |cs| ==> cs[k].index == index + k && |cs[k].ciphertext| <= chunkBytes
  }

  /** Written records are accepted exactly when they come in sequence, and are then read back as written. */
  lemma {:induction false} ReadAllWritten(cs: seq<Chunk>, tail: Bytes, chunkBytes: nat, index: nat)
    requires AllPackable(cs)
    ensures ReadAll(Chunks(cs) + tail, chunkBytes, index, index + |cs|).Good? <==> InSequence(cs, chunkBytes, index)
    ensures InSequence(cs, chunkBytes, index) ==>
              ReadAll(Chunks(cs) + tail, chunkBytes, index, index + |cs|) == Good(Parsed(cs, tail))
    decreases |cs|
  {
    hide ReadChunk, ChunkBytes, Packable;
    if cs == [] {
      assert Chunks(cs) + tail == tail;
    } else {
      var later := Chunks(cs[1..]) + tail;
      assert Chunks(cs) + tail == ChunkBytes(cs[0]) + later;
      ReadWritten(cs[0], later, chunkBytes, index);
      ReadAllWritten(cs[1..], tail, chunkBytes, index + 1);
      SequenceSplits(cs, chunkBytes, index);
      assert cs == [cs[0]] + cs[1..];
    }
  }

  lemma SequenceSplits(cs: seq<Chunk>, chunkBytes: nat, index: nat)
    requires cs != []
    ensures InSequence(cs, chunkBytes, index)
       <==> cs[0].index == index && |cs[0].ciphertext| <= chunkBytes && InSequence(cs[1..], chunkBytes, index + 1)
  {
    if cs[0].index == index && |cs[0].ciphertext| <= chunkBytes && InSequence(cs[1..], chunkBytes, index + 1) {
      forall k | 0 <= k < |cs| ensures cs[k].index == index + k && |cs[k].ciphertext| <= chunkBytes {
        if k > 0 { assert cs[k] == cs[1..][k - 1]; }
      }
    }
  }

  /** Whatever is read is the writing of chunks in sequence, followed by what is left. */
  lemma {:induction false} WrittenFromReadAll(rest: Bytes, chunkBytes: nat, index: nat, count: nat)
    requires index <= count && ReadAll(rest, chunkBytes, index, count).Good?
    ensures var p := ReadAll(rest, chunkBytes, index, count).value;
            && AllPackable(p.chunks) && InSequence(p.chunks, chunkBytes, index) && |p.chunks| == count - index
            && rest == Chunks(p.chunks) + p.rest
    decreases count - index
  {
    hide ReadChunk, ChunkBytes, Packable;
    if index < count {
      var r := ReadChunk(rest, chunkBytes, index).value;
      WrittenFromRead(rest, chunkBytes, index);
      WrittenFromReadAll(r.rest, chunkBytes, index + 1, count);
      var q := ReadAll(r.rest, chunkBytes, index + 1, count).value;
      var cs := [r.chunk] + q.chunks;
      assert cs[1..] == q.chunks;
      SequenceSplits(cs, chunkBytes, index);
    } else {
      assert Chunks([]) + rest == rest;
    }
  }

  function Total(cs: seq<Chunk>): nat {
    if cs == [] then 0 else |cs[0].ciphertext| + Total(cs[1..])
  }

  /** Header and key id of a file long enough to have them; a short file yields a short key id, as reading past the
      end does. */
  function HeaderOf(file: Bytes): FileHeader
    requires |file| >= FILE_HEADER_SIZE
  {
    UnpackHeader(file[..FILE_HEADER_SIZE])
  }

  function KeyEnd(file: Bytes): (end: nat)
    requires |file| >= FILE_HEADER_SIZE
    ensures FILE_HEADER_SIZE <= end <= |file|
  {
    var end := FILE_HEADER_SIZE + HeaderOf(file).keySize;
    if end <= |file| then end else |file|
  }

  /** `inspect_sealed_file` */
  function InspectFile(p: Primitives, file: Bytes): FileResult<Info> {
    if |file| < FILE_HEADER_SIZE then Fail(HeaderTruncated)
    else
      var h := HeaderOf(file);
      if h.magic != CHUNK_MAGIC || h.keySize < 1 || h.chunkBytes < 1 then Fail(InvalidHeader)
      else match p.decode(file[FILE_HEADER_SIZE..KeyEnd(file)])
        case None => Fail(InvalidKeyText)
        case Some(keyId) =>
          match ReadAll(file[KeyEnd(file)..], h.chunkBytes, 0, h.count)
          case Fail(e) => Fail(e)
          case Good(parsed) =>
            if Total(parsed.chunks) != h.plaintextSize || parsed.rest != [] then Fail(TotalMismatch)
            else Good(Info(keyId, h.plaintextSize, |file|))
  }

  /** The inspection loop from some point on, with `seen` bytes counted so far. */
  function InspectFrom(rest: Bytes, chunkBytes: nat, index: nat, count: nat, seen: nat): FileResult<Progress>
    requires index <= count
    decreases count - index
  {
    if index == count then Good(Progress(seen, rest))
    else match ReadChunk(rest, chunkBytes, index)
      case Fail(e) => Fail(e)
      case Good(r) => InspectFrom(r.rest, chunkBytes, index + 1, count, seen + |r.chunk.ciphertext|)
  }

  lemma {:induction false} InspectFromIsReadAll(rest: Bytes, chunkBytes: nat, index: nat, count: nat, seen: nat)
    requires index <= count
    ensures InspectFrom(rest, chunkBytes, index, count, seen)
         == match ReadAll(rest, chunkBytes, index, count)
            case Fail(e) => Fail(e)
            case Good(p) => Good(Progress(seen + Total(p.chunks), p.rest))
    decreases count - index
  {
    hide ReadChunk;
    if index < count && ReadChunk(rest, chunkBytes, index).Good? {
      var r := ReadChunk(rest, chunkBytes, index).value;
      InspectFromIsReadAll(r.rest, chunkBytes, index + 1, count, seen + |r.chunk.ciphertext|);
      if ReadAll(r.rest, chunkBytes, index + 1, count).Good? {
        var q := ReadAll(r.rest, chunkBytes, index + 1, count).value;
        assert ([r.chunk] + q.chunks)[1..] == q.chunks;
      }
    }
  }

  /** `inspect_sealed_file`, reading on from where it stands. */
  method InspectSealedFile(p: Primitives, source: Bytes) returns (r: FileResult<Info>)
    ensures r == InspectFile(p, source)
  {
    hide ReadChunk;
    if |source| < FILE_HEADER_SIZE {
      return Fail(HeaderTruncated);
    }
    var h := HeaderOf(source);
    if h.magic != CHUNK_MAGIC || h.keySize < 1 || h.chunkBytes < 1 {
      return Fail(InvalidHeader);
    }
    var keyId := p.decode(source[FILE_HEADER_SIZE..KeyEnd(source)]);
    if keyId.None? {
      return Fail(InvalidKeyText);
    }
    var rest: Bytes, seen: nat := source[KeyEnd(source)..], 0;
    InspectFromIsReadAll(rest, h.chunkBytes, 0, h.count, 0);
    for index := 0 to h.count
      invariant InspectFrom(source[KeyEnd(source)..], h.chunkBytes, 0, h.count, 0)
             == InspectFrom(rest, h.chunkBytes, index, h.count, seen)
    {
      var chunk := ReadChunk(rest, h.chunkBytes, index);
      if chunk.Fail? {
        return Fail(chunk.error);
      }
      rest, seen := chunk.value.rest, seen + |chunk.value.chunk.ciphertext|;
    }
    if seen != h.plaintextSize || rest != [] {
      return Fail(TotalMismatch);
    }
    r := Good(Info(keyId.value, h.plaintextSize, |source|));
  }

  /** The bytes of a file with the given header, key id and records. */
  function FileBytes(h: FileHeader, key: Bytes, cs: seq<Chunk>): Bytes
    requires Fits(h) && forall c :: c in cs ==> Packable(c)
  {
    PackHeader(h) + key + Chunks(cs)
  }

  /** What an accepted file with a complete key id consists of. */
  lemma AcceptedIsWritten(p: Primitives, file: Bytes) returns (cs: seq<Chunk>)
    requires InspectFile(p, file).Good?
    ensures |file| >= FILE_HEADER_SIZE && Fits(HeaderOf(file)) && AllPackable(cs)
    ensures file == FileBytes(HeaderOf(file), file[FILE_HEADER_SIZE..KeyEnd(file)], cs)
    ensures |cs| == HeaderOf(file).count && InSequence(cs, HeaderOf(file).chunkBytes, 0)
    ensures Total(cs) == HeaderOf(file).plaintextSize
    ensures KeyEnd(file) < FILE_HEADER_SIZE + HeaderOf(file).keySize ==> cs == []
  {
    hide ReadChunk, ReadAll;
    var h := HeaderOf(file);
    PackUnpacked(file[..FILE_HEADER_SIZE]);
    WrittenFromReadAll(file[KeyEnd(file)..], h.chunkBytes, 0, h.count);
    cs := ReadAll(file[KeyEnd(file)..], h.chunkBytes, 0, h.count).value.chunks;
    ThreeParts(file, FILE_HEADER_SIZE, KeyEnd(file));
    assert file[KeyEnd(file)..] == Chunks(cs) + [];
    if KeyEnd(file) < FILE_HEADER_SIZE + h.keySize { NoBytesNoChunks(cs); }
  }

  lemma ThreeParts(b: Bytes, i: nat, j: nat)
    requires i <= j <= |b|
    ensures b == b[..i] + b[i..j] + b[j..]
  {
  }

  lemma NoBytesNoChunks(cs: seq<Chunk>)
    requires AllPackable(cs)
    ensures Chunks(cs) == [] ==> cs == []
  {
  }

  lemma PackUnpacked(b: Bytes)
    requires |b| == FILE_HEADER_SIZE && UnpackHeader(b).magic == CHUNK_MAGIC
    ensures Fits(UnpackHeader(b)) && PackHeader(UnpackHeader(b)) == b
  {
    hide BeBytes, BeInt;
    BeBytesOfInt(b[8..9]);
    BeBytesOfInt(b[9..13]);
    BeBytesOfInt(b[13..21]);
    BeBytesOfInt(b[21..]);
    assert b == b[..8] + b[8..9] + b[9..13] + b[13..21] + b[21..];
  }

  lemma {:induction false} ChunksInjective(cs: seq<Chunk>, ds: seq<Chunk>)
    requires AllPackable(cs) && AllPackable(ds) && Chunks(cs) == Chunks(ds)
    ensures cs == ds
  {
    hide ReadChunk, ChunkBytes, Packable;
    if cs == [] {
      NoBytesNoChunks(ds);
    } else {
      NoBytesNoChunks(cs);
      assert ds != [];
      assert Packable(cs[0]) && Packable(ds[0]);
      SmallLengths(cs[0]);
      ReadWritten(cs[0], Chunks(cs[1..]), Pow256(4), cs[0].index);
      ReadWritten(ds[0], Chunks(ds[1..]), Pow256(4), cs[0].index);
      ChunksInjective(cs[1..], ds[1..]);
      assert cs == [cs[0]] + cs[1..] && ds == [ds[0]] + ds[1..];
    }
  }

  lemma SmallLengths(c: Chunk)
    requires Packable(c)
    ensures |c.ciphertext| <= Pow256(4)
  {
  }

  lemma FileParts(h: FileHeader, key: Bytes, cs: seq<Chunk>)
    requires Fits(h) && AllPackable(cs) && |key| == h.keySize
    ensures var file := FileBytes(h, key, cs);
            && |file| >= FILE_HEADER_SIZE && HeaderOf(file) == h && KeyEnd(file) == FILE_HEADER_SIZE + |key|
            && file[FILE_HEADER_SIZE..KeyEnd(file)] == key && file[KeyEnd(file)..] == Chunks(cs)
  {
    hide PackHeader, UnpackHeader;
    UnpackPacked(h);
    assert FileBytes(h, key, cs)[..FILE_HEADER_SIZE] == PackHeader(h);
  }

  /** Exactly which record sequences are accepted: as many as declared, numbered from zero in order,
      none longer than the chunk size, adding up to the declared total. */
  lemma InspectAccepts(p: Primitives, h: FileHeader, key: Bytes, cs: seq<Chunk>)
    requires Fits(h) && AllPackable(cs) && |key| == h.keySize
    ensures InspectFile(p, FileBytes(h, key, cs)).Good?
       <==> (h.keySize >= 1 && h.chunkBytes >= 1 && p.decode(key).Some?
             && |cs| == h.count && InSequence(cs, h.chunkBytes, 0) && Total(cs) == h.plaintextSize)
    ensures InspectFile(p, FileBytes(h, key, cs)).Good? ==>
              InspectFile(p, FileBytes(h, key, cs)).value
                  == Info(p.decode(key).value, h.plaintextSize, |FileBytes(h, key, cs)|)
  {
    hide ReadAll, FileBytes;
    FileParts(h, key, cs);
    assert Chunks(cs) + [] == Chunks(cs);
    if |cs| == h.count {
      ReadAllWritten(cs, [], h.chunkBytes, 0);
    } else if ReadAll(Chunks(cs), h.chunkBytes, 0, h.count).Good? {
      WrittenFromReadAll(Chunks(cs), h.chunkBytes, 0, h.count);
      var q := ReadAll(Chunks(cs), h.chunkBytes, 0, h.count).value;
      if q.rest == [] {
        assert Chunks(q.chunks) + [] == Chunks(q.chunks);
        ChunksInjective(cs, q.chunks);
      }
    }
  }

  /** Rearranging the records of an accepted file in any way that changes it makes it unacceptable. */
  lemma ReorderRejected(p: Primitives, h: FileHeader, key: Bytes, cs: seq<Chunk>, ds: seq<Chunk>)
    requires Fits(h) && AllPackable(cs) && AllPackable(ds) && |key| == h.keySize
    requires InspectFile(p, FileBytes(h, key, cs)).Good? && multiset(cs) == multiset(ds) && cs != ds
    ensures InspectFile(p, FileBytes(h, key, ds)).Fail?
  {
    hide InspectFile, FileBytes, Packable;
    InspectAccepts(p, h, key, cs);
    InspectAccepts(p, h, key, ds);
    assert |multiset(cs)| == |cs| && |multiset(ds)| == |ds|;
    if InSequence(ds, h.chunkBytes, 0) {
      forall k | 0 <= k < |ds| ensures ds[k] == cs[k] {
        assert ds[k] in multiset(ds);
        assert ds[k] in cs;
        var m :| 0 <= m < |cs| && cs[m] == ds[k];
        assert cs[m].index == 0 + m && ds[k].index == 0 + k;
      }
    }
  }

  /** Cutting an accepted file short is noticed, with one exception: a file of no records cut inside its key id,
      where the shorter key id still decodes. */
  lemma TruncationRejected(p: Primitives, file: Bytes, n: nat)
    requires InspectFile(p, file).Good? && n < |file|
    ensures InspectFile(p, file[..n]).Good?
       <==> (HeaderOf(file).count == 0 && n >= FILE_HEADER_SIZE && p.decode(file[FILE_HEADER_SIZE..n]).Some?)
  {
    if n >= FILE_HEADER_SIZE {
      var cut := file[..n];
      assert cut[..FILE_HEADER_SIZE] == file[..FILE_HEADER_SIZE];
      var h := HeaderOf(file);
      if h.count == 0 {
        EmptyFileCut(p, file, n);
      } else {
        CutRecords(p, file, n);
      }
    }
  }

  lemma EmptyFileCut(p: Primitives, file: Bytes, n: nat)
    requires InspectFile(p, file).Good? && FILE_HEADER_SIZE <= n < |file| && HeaderOf(file).count == 0
    ensures InspectFile(p, file[..n]).Good? <==> p.decode(file[FILE_HEADER_SIZE..n]).Some?
  {
    hide UnpackHeader;
    var cut := file[..n];
    assert cut[..FILE_HEADER_SIZE] == file[..FILE_HEADER_SIZE];
    assert KeyEnd(cut) == n;
    assert cut[FILE_HEADER_SIZE..n] == file[FILE_HEADER_SIZE..n];
  }

  lemma CutRecords(p: Primitives, file: Bytes, n: nat)
    requires InspectFile(p, file).Good? && FILE_HEADER_SIZE <= n < |file| && HeaderOf(file).count > 0
    ensures InspectFile(p, file[..n]).Fail?
  {
    hide UnpackHeader, ReadAll;
    var cut := file[..n];
    var h := HeaderOf(file);
    assert cut[..FILE_HEADER_SIZE] == file[..FILE_HEADER_SIZE];
    if InspectFile(p, cut).Good? {
      var ds := AcceptedIsWritten(p, cut);
      assert KeyEnd(cut) == KeyEnd(file) == FILE_HEADER_SIZE + h.keySize;
      WrittenFromReadAll(cut[KeyEnd(cut)..], h.chunkBytes, 0, h.count);
      var q := ReadAll(cut[KeyEnd(cut)..], h.chunkBytes, 0, h.count).value;
      assert file[KeyEnd(file)..] == cut[KeyEnd(cut)..] + file[n..];
      assert Chunks(q.chunks) + [] + file[n..] == Chunks(q.chunks) + file[n..];
      ReadAllWritten(q.chunks, file[n..], h.chunkBytes, 0);
    }
  }

  /** Nothing may follow the last record of a file whose key id is complete. */
  lemma ExtensionRejected(p: Primitives, file: Bytes, more: Bytes)
    requires InspectFile(p, file).Good? && KeyEnd(file) == FILE_HEADER_SIZE + HeaderOf(file).keySize && more != []
    ensures InspectFile(p, file + more).Fail?
  {
    hide UnpackHeader, ReadAll;
    var long := file + more;
    assert long[..|file|] == file;
    assert long[..FILE_HEADER_SIZE] == file[..FILE_HEADER_SIZE];
    if InspectFile(p, long).Good? {
      TruncationRejected(p, long, |file|);
      assert KeyEnd(long) == KeyEnd(file);
      assert HeaderOf(long).count == 0;
      NoRecords(long[KeyEnd(long)..], HeaderOf(long).chunkBytes);
    }
  }

  lemma NoRecords(rest: Bytes, chunkBytes: nat)
    ensures ReadAll(rest, chunkBytes, 0, 0) == Good(Parsed([], rest))
  {
  }
}
