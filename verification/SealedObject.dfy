/** XChaCha20-Poly1305 sealing (RFC 8439 section 2.8 with the extended nonce) and the sealed-object format. */
module SealedObject {
  import opened Bytes
  import opened Integers
  import opened ChaCha
  import opened Poly1305
  import opened KeyDerivation

  const MAGIC: Bytes := [0x53, 0x43, 0x53, 0x45, 0x41, 0x4c, 0x32, 0x00]   // "SCSEAL2\0"
  const NONCE_BYTES: nat := 24
  const TAG_BYTES: nat := 16
  const HEADER_SIZE: nat := 19
  const MAX_PLAINTEXT: nat := 0xFFFFFFFF * 64

  datatype Error =
    | InvalidKeyId | BadMasterKey | SizeNotPackable | CounterExhausted
    | Truncated | BadHeader | LengthMismatch | KeyIdNotUtf8 | AuthenticationFailed

  datatype Result<T> = Ok(value: T) | Err(error: Error)

  datatype Info = Info(keyId: string, plaintextBytes: nat, ciphertextBytes: nat)

  lemma Widths()
    ensures Pow256(1) == 256 && Pow256(2) == 65536 && Pow256(8) == 0x1_0000_0000_0000_0000
  {
    assert Pow256(4) == 0x1_0000_0000;
  }

  /** The keystream lasts exactly this long. */
  lemma KeystreamLimit(size: nat)
    ensures Exhausts(1, size) <==> size > MAX_PLAINTEXT
    ensures !Exhausts(1, size) ==> size < Pow256(8)
  {
    Widths();
  }

  /** Subkey, 12-byte nonce and one-time authenticator key for a 24-byte nonce. */
  function Subkey(key: Bytes, nonce24: Bytes): (subkey: Bytes)
    requires |key| == 32 && |nonce24| == NONCE_BYTES
    ensures |subkey| == 32
  {
    HChaCha20(key, nonce24[..16])
  }

  function Nonce12(nonce24: Bytes): (nonce: Bytes)
    requires |nonce24| == NONCE_BYTES
    ensures |nonce| == 12
  {
    [0, 0, 0, 0] + nonce24[16..]
  }

  function AeadTag(key: Bytes, nonce24: Bytes, ciphertext: Bytes, aad: Bytes): (tag: Bytes)
    requires |key| == 32 && |nonce24| == NONCE_BYTES && |aad| < Pow256(8) && |ciphertext| < Pow256(8)
    ensures |tag| == TAG_BYTES
  {
    Tag(MacData(aad, ciphertext), Block(Subkey(key, nonce24), 0, Nonce12(nonce24))[..32])
  }

  datatype Sealed = Sealed(ciphertext: Bytes, tag: Bytes)

  /** `_aead_seal` */
  function AeadSeal(key: Bytes, nonce24: Bytes, plaintext: Bytes, aad: Bytes): (r: Result<Sealed>)
    requires |key| == 32 && |nonce24| == NONCE_BYTES && |aad| < Pow256(8)
    ensures r.Ok? <==> |plaintext| <= MAX_PLAINTEXT
    ensures r.Ok? ==> |r.value.ciphertext| == |plaintext| && |r.value.tag| == TAG_BYTES
  {
    KeystreamLimit(|plaintext|);
    if Exhausts(1, |plaintext|) then Err(CounterExhausted)
    else
      var ciphertext := XorStream(Subkey(key, nonce24), Nonce12(nonce24), 1, plaintext);
      Ok(Sealed(ciphertext, AeadTag(key, nonce24, ciphertext, aad)))
  }

  /** `_aead_open`: the tag is checked before anything is decrypted. */
  function AeadOpen(key: Bytes, nonce24: Bytes, ciphertext: Bytes, tag: Bytes, aad: Bytes): Result<Bytes>
    requires |key| == 32 && |nonce24| == NONCE_BYTES && |aad| < Pow256(8) && |ciphertext| < Pow256(8)
  {
    KeystreamLimit(|ciphertext|);
    if |tag| != TAG_BYTES then Err(Truncated)
    else if tag != AeadTag(key, nonce24, ciphertext, aad) then Err(AuthenticationFailed)
    else if Exhausts(1, |ciphertext|) then Err(CounterExhausted)
    else Ok(XorStream(Subkey(key, nonce24), Nonce12(nonce24), 1, ciphertext))
  }

  /** Opening and sealing are inverse to each other, in both directions. */
  lemma AeadInverse(key: Bytes, nonce24: Bytes, plaintext: Bytes, ciphertext: Bytes, tag: Bytes, aad: Bytes)
    requires |key| == 32 && |nonce24| == NONCE_BYTES && |aad| < Pow256(8) && |ciphertext| < Pow256(8)
    ensures AeadSeal(key, nonce24, plaintext, aad) == Ok(Sealed(ciphertext, tag))
       <==> AeadOpen(key, nonce24, ciphertext, tag, aad) == Ok(plaintext)
  {
    hide XorStream, AeadTag, Subkey, Nonce12;
    var subkey, nonce := Subkey(key, nonce24), Nonce12(nonce24);
    KeystreamLimit(|plaintext|);
    KeystreamLimit(|ciphertext|);
    if !Exhausts(1, |plaintext|) { XorStreamInvolution(subkey, nonce, 1, plaintext); }
    if !Exhausts(1, |ciphertext|) { XorStreamInvolution(subkey, nonce, 1, ciphertext); }
  }

  /** struct.pack(">8sBHQ", ...) */
  function Header(keyIdSize: nat, nonceSize: nat, plaintextSize: nat): (h: Bytes)
    requires keyIdSize < Pow256(1) && nonceSize < Pow256(2) && plaintextSize < Pow256(8)
    ensures |h| == HEADER_SIZE
  {
    MAGIC + BeBytes(keyIdSize, 1) + BeBytes(nonceSize, 2) + BeBytes(plaintextSize, 8)
  }

  datatype HeaderFields = HeaderFields(magic: Bytes, keyIdSize: nat, nonceSize: nat, plaintextSize: nat)

  function ParseHeader(h: Bytes): HeaderFields
    requires |h| == HEADER_SIZE
  {
    HeaderFields(h[..8], BeInt(h[8..9]), BeInt(h[9..11]), BeInt(h[11..]))
  }

  lemma HeaderRoundTrip(keyIdSize: nat, nonceSize: nat, plaintextSize: nat)
    requires keyIdSize < Pow256(1) && nonceSize < Pow256(2) && plaintextSize < Pow256(8)
    ensures ParseHeader(Header(keyIdSize, nonceSize, plaintextSize))
         == HeaderFields(MAGIC, keyIdSize, nonceSize, plaintextSize)
  {
    hide BeBytes, BeInt;
    var h := Header(keyIdSize, nonceSize, plaintextSize);
    assert h[8..9] == BeBytes(keyIdSize, 1) && h[9..11] == BeBytes(nonceSize, 2)
        && h[11..] == BeBytes(plaintextSize, 8);
    BeIntOfBytes(keyIdSize, 1);
    BeIntOfBytes(nonceSize, 2);
    BeIntOfBytes(plaintextSize, 8);
  }

  lemma HeaderUnique(h: Bytes)
    requires |h| == HEADER_SIZE && ParseHeader(h).magic == MAGIC
    ensures var f := ParseHeader(h);
            f.keyIdSize < Pow256(1) && f.nonceSize < Pow256(2) && f.plaintextSize < Pow256(8)
            && h == Header(f.keyIdSize, f.nonceSize, f.plaintextSize)
  {
    hide BeBytes, BeInt;
    BeBytesOfInt(h[8..9]);
    BeBytesOfInt(h[9..11]);
    BeBytesOfInt(h[11..]);
    assert h == h[..8] + h[8..9] + h[9..11] + h[11..];
  }

  /** `seal`, for the nonce drawn for this call. */
  function Seal(p: Primitives, nonce: Bytes, plaintext: Bytes, master: Bytes, projectId: string,
                keyId: string): Result<Bytes>
    requires Lawful(p) && |nonce| == NONCE_BYTES
  {
    Widths();
    var encoded := p.encode(keyId);
    if encoded == [] || |encoded| > 255 then Err(InvalidKeyId)
    else if |master| != 32 then Err(BadMasterKey)
    else if |plaintext| >= Pow256(8) then Err(SizeNotPackable)
    else
      var key := DeriveKey(p, master, projectId, keyId).value;
      var aad := Header(|encoded|, NONCE_BYTES, |plaintext|) + encoded + nonce;
      match AeadSeal(key, nonce, plaintext, aad)
      case Err(e) => Err(e)
      case Ok(sealed) => Ok(aad + sealed.ciphertext + sealed.tag)
  }

  /** `inspect_sealed` */
  function Inspect(p: Primitives, data: Bytes): (r: Result<Info>)
    requires Lawful(p)
  {
    if |data| < HEADER_SIZE + 1 + NONCE_BYTES + TAG_BYTES then Err(Truncated)
    else
      var f := ParseHeader(data[..HEADER_SIZE]);
      if f.magic != MAGIC || f.nonceSize != NONCE_BYTES || f.keyIdSize < 1 then Err(BadHeader)
      else
        var endKey := HEADER_SIZE + f.keyIdSize;
        var endNonce := endKey + f.nonceSize;
        if |data| != endNonce + f.plaintextSize + TAG_BYTES then Err(LengthMismatch)
        else match p.decode(data[HEADER_SIZE..endKey])
          case None => Err(KeyIdNotUtf8)
          case Some(keyId) => Ok(Info(keyId, f.plaintextSize, |data|))
  }

  datatype Opened = Opened(plaintext: Bytes, info: Info)

  /** Where the parts of an object that passed inspection end. */
  function EndKey(data: Bytes): nat
    requires |data| >= HEADER_SIZE
  {
    HEADER_SIZE + ParseHeader(data[..HEADER_SIZE]).keyIdSize
  }

  function NonceOf(data: Bytes): Bytes
    requires |data| >= HEADER_SIZE && EndKey(data) + NONCE_BYTES <= |data|
  {
    data[EndKey(data)..EndKey(data) + NONCE_BYTES]
  }

  /** `open_sealed` */
  function Open(p: Primitives, data: Bytes, master: Bytes, projectId: string): Result<Opened>
    requires Lawful(p)
  {
    match Inspect(p, data)
    case Err(e) => Err(e)
    case Ok(info) =>
      var endNonce := EndKey(data) + NONCE_BYTES;
      var endCiphertext := endNonce + info.plaintextBytes;
      HeaderUnique(data[..HEADER_SIZE]);
      Widths();
      match DeriveKey(p, master, projectId, info.keyId)
      case None => Err(BadMasterKey)
      case Some(key) =>
        match AeadOpen(key, NonceOf(data), data[endNonce..endCiphertext], data[endCiphertext..], data[..endNonce])
        case Err(e) => Err(e)
        case Ok(plaintext) => Ok(Opened(plaintext, info))
  }

  /** Sealing succeeds exactly for a usable key id, a 32-byte master key and at most (2^32 - 1) * 64 bytes. */
  lemma SealSucceeds(p: Primitives, nonce: Bytes, plaintext: Bytes, master: Bytes, projectId: string, keyId: string)
    requires Lawful(p) && |nonce| == NONCE_BYTES
    ensures Seal(p, nonce, plaintext, master, projectId, keyId).Ok?
       <==> 1 <= |p.encode(keyId)| <= 255 && |master| == 32 && |plaintext| <= MAX_PLAINTEXT
  {
    hide AeadSeal, DeriveKey, Header;
    Widths();
  }

  /** The layout of a sealed object, read back part by part. */
  lemma SealedParts(p: Primitives, encoded: Bytes, nonce: Bytes, ciphertext: Bytes, tag: Bytes)
    requires Lawful(p) && 1 <= |encoded| <= 255 && |nonce| == NONCE_BYTES && |ciphertext| < Pow256(8)
    requires |tag| == TAG_BYTES
    requires Pow256(1) == 256 && Pow256(2) == 65536
    ensures var data := Header(|encoded|, NONCE_BYTES, |ciphertext|) + encoded + nonce + ciphertext + tag;
            var endNonce := HEADER_SIZE + |encoded| + NONCE_BYTES;
            && ParseHeader(data[..HEADER_SIZE]) == HeaderFields(MAGIC, |encoded|, NONCE_BYTES, |ciphertext|)
            && |data| == endNonce + |ciphertext| + TAG_BYTES
            && data[HEADER_SIZE..HEADER_SIZE + |encoded|] == encoded
            && data[HEADER_SIZE + |encoded|..endNonce] == nonce
            && data[..endNonce] == Header(|encoded|, NONCE_BYTES, |ciphertext|) + encoded + nonce
            && data[endNonce..endNonce + |ciphertext|] == ciphertext
            && data[endNonce + |ciphertext|..] == tag
  {
    hide Header, ParseHeader;
    HeaderRoundTrip(|encoded|, NONCE_BYTES, |ciphertext|);
    var h := Header(|encoded|, NONCE_BYTES, |ciphertext|);
    var data := h + encoded + nonce + ciphertext + tag;
    assert data[..HEADER_SIZE] == h;
  }

  /** Opening a sealed object gives back the plaintext, the key id and the sizes. */
  lemma SealThenOpen(p: Primitives, nonce: Bytes, plaintext: Bytes, master: Bytes, projectId: string, keyId: string)
    requires Lawful(p) && |nonce| == NONCE_BYTES
    requires Seal(p, nonce, plaintext, master, projectId, keyId).Ok?
    ensures var data := Seal(p, nonce, plaintext, master, projectId, keyId).value;
            Open(p, data, master, projectId) == Ok(Opened(plaintext, Info(keyId, |plaintext|, |data|)))
  {
    hide AeadSeal, AeadOpen, DeriveKey, Header, ParseHeader;
    Widths();
    SealSucceeds(p, nonce, plaintext, master, projectId, keyId);
    var encoded := p.encode(keyId);
    var key := DeriveKey(p, master, projectId, keyId).value;
    var aad := Header(|encoded|, NONCE_BYTES, |plaintext|) + encoded + nonce;
    var sealed := AeadSeal(key, nonce, plaintext, aad).value;
    SealedParts(p, encoded, nonce, sealed.ciphertext, sealed.tag);
    AeadInverse(key, nonce, plaintext, sealed.ciphertext, sealed.tag, aad);
    var data := aad + sealed.ciphertext + sealed.tag;
    assert Inspect(p, data) == Ok(Info(keyId, |plaintext|, |data|));
  }

  /** Whatever opens is, byte for byte, the sealing of its plaintext under the nonce and key id it carries. */
  lemma OpenThenSeal(p: Primitives, data: Bytes, master: Bytes, projectId: string)
    requires Lawful(p) && Open(p, data, master, projectId).Ok?
    ensures var found := Open(p, data, master, projectId).value;
            && |data| >= HEADER_SIZE && EndKey(data) + NONCE_BYTES <= |data|
            && Seal(p, NonceOf(data), found.plaintext, master, projectId, found.info.keyId) == Ok(data)
  {
    hide AeadSeal, AeadOpen, DeriveKey, Header, ParseHeader;
    Widths();
    var found := Open(p, data, master, projectId).value;
    var f := ParseHeader(data[..HEADER_SIZE]);
    HeaderUnique(data[..HEADER_SIZE]);
    var endNonce := EndKey(data) + NONCE_BYTES;
    var endCiphertext := endNonce + f.plaintextSize;
    var encoded := data[HEADER_SIZE..EndKey(data)];
    var aad, ciphertext, tag := data[..endNonce], data[endNonce..endCiphertext], data[endCiphertext..];
    var key := DeriveKey(p, master, projectId, found.info.keyId).value;
    AeadInverse(key, NonceOf(data), found.plaintext, ciphertext, tag, aad);
    assert aad == Header(|encoded|, NONCE_BYTES, |ciphertext|) + encoded + NonceOf(data);
    assert data == aad + ciphertext + tag;
  }
}
