/** ChaCha20 and HChaCha20 (RFC 8439 sections 2.1 to 2.4; draft-irtf-cfrg-xchacha section 2.2). */
module ChaCha {
  import opened Bytes

  type Word = bv32
  type State = s: seq<Word> | |s| == 16 witness seq(16, i => 0)

  const MAX_COUNTER: nat := 0xFFFFFFFF

  /** `_rotl32` on a 32-bit word. */
  function Rotl32(value: Word, shift: Word): Word
    requires 0 < shift < 32
  {
    (value << shift) | (value >> (32 - shift))
  }

  function Add(x: Word, y: Word): Word { x + y }

  function Xor(x: Word, y: Word): Word { x ^ y }

  datatype Quad = Quad(a: Word, b: Word, c: Word, d: Word)

  /** The quarter round on four words. */
  function QuarterRound(q: Quad): Quad {
    var a1 := Add(q.a, q.b);
    var d1 := Rotl32(Xor(q.d, a1), 16);
    var c1 := Add(q.c, d1);
    var b1 := Rotl32(Xor(q.b, c1), 12);
    var a2 := Add(a1, b1);
    var d2 := Rotl32(Xor(d1, a2), 8);
    var c2 := Add(c1, d2);
    Quad(a2, Rotl32(Xor(b1, c2), 7), c2, d2)
  }

  /** The published example of RFC 8439 section 2.1.1. */
  lemma QuarterRoundExample()
    ensures QuarterRound(Quad(0x11111111, 0x01020304, 0x9b8d6f43, 0x01234567))
         == Quad(0xea2a92f4, 0xcb1cf8ce, 0x4581472e, 0x5881c4bb)
  {
  }

  /** Four distinct positions of the state. */
  datatype Lane = Lane(a: nat, b: nat, c: nat, d: nat) {
    predicate Valid() {
      a < 16 && b < 16 && c < 16 && d < 16 && a != b && a != c && a != d && b != c && b != d && c != d
    }
  }

  function Place(s: State, l: Lane, q: Quad): State
    requires l.Valid()
  {
    s[l.a := q.a][l.b := q.b][l.c := q.c][l.d := q.d]
  }

  function OnLane(s: State, l: Lane): State
    requires l.Valid()
  {
    Place(s, l, QuarterRound(Quad(s[l.a], s[l.b], s[l.c], s[l.d])))
  }

  /** One double round: the four columns, then the four diagonals. */
  const LANES: seq<Lane> := [
    Lane(0, 4, 8, 12), Lane(1, 5, 9, 13), Lane(2, 6, 10, 14), Lane(3, 7, 11, 15),
    Lane(0, 5, 10, 15), Lane(1, 6, 11, 12), Lane(2, 7, 8, 13), Lane(3, 4, 9, 14)]

  predicate LanesValid(lanes: seq<Lane>) { forall i :: 0 <= i < |lanes| ==> lanes[i].Valid() }

  function OnLanes(s: State, lanes: seq<Lane>): State
    requires LanesValid(lanes)
  {
    if lanes == [] then s else OnLane(OnLanes(s, lanes[..|lanes| - 1]), lanes[|lanes| - 1])
  }

  lemma LanesAreValid()
    ensures LanesValid(LANES)
  {
  }

  function DoubleRound(s: State): State {
    LanesAreValid();
    OnLanes(s, LANES)
  }

  function Rounds(s: State, n: nat): State {
    if n == 0 then s else DoubleRound(Rounds(s, n - 1))
  }

  /** One add-xor-rotate step: s[x] += s[y], then s[z] is xored with s[x] and rotated. */
  function Step(s: State, x: nat, y: nat, z: nat, shift: Word): State
    requires x < 16 && y < 16 && z < 16 && 0 < shift < 32
  {
    var sum := Add(s[x], s[y]);
    var s' := s[x := sum];
    s'[z := Rotl32(Xor(s'[z], sum), shift)]
  }

  lemma LaneIsFourSteps(s: State, l: Lane)
    requires l.Valid()
    ensures Step(Step(Step(Step(s, l.a, l.b, l.d, 16), l.c, l.d, l.b, 12), l.a, l.b, l.d, 8), l.c, l.d, l.b, 7)
         == OnLane(s, l)
  {
    hide Add, Xor, Rotl32;
    var s1 := Step(s, l.a, l.b, l.d, 16);
    var s2 := Step(s1, l.c, l.d, l.b, 12);
    var s3 := Step(s2, l.a, l.b, l.d, 8);
    var s4 := Step(s3, l.c, l.d, l.b, 7);
    var q := QuarterRound(Quad(s[l.a], s[l.b], s[l.c], s[l.d]));
    assert s2[l.a] == s1[l.a] && s2[l.d] == s1[l.d];
    assert s4[l.a] == q.a && s4[l.b] == q.b && s4[l.c] == q.c && s4[l.d] == q.d;
  }

  /** `_quarter_round`, in place: four add-xor-rotate steps. */
  method QuarterRoundInPlace(state: array<Word>, l: Lane)
    requires state.Length == 16 && l.Valid()
    modifies state
    ensures state[..] == OnLane(old(state[..]), l)
  {
    hide Step, OnLane;
    AddXorRotate(state, l.a, l.b, l.d, 16);
    AddXorRotate(state, l.c, l.d, l.b, 12);
    AddXorRotate(state, l.a, l.b, l.d, 8);
    AddXorRotate(state, l.c, l.d, l.b, 7);
    LaneIsFourSteps(old(state[..]), l);
  }

  method AddXorRotate(state: array<Word>, x: nat, y: nat, z: nat, shift: Word)
    requires state.Length == 16 && x < 16 && y < 16 && z < 16 && 0 < shift < 32
    modifies state
    ensures state[..] == Step(old(state[..]), x, y, z, shift)
  {
    hide Add, Xor, Rotl32;
    state[x] := Add(state[x], state[y]);
    state[z] := Xor(state[z], state[x]);
    state[z] := Rotl32(state[z], shift);
  }

  /** `_rounds`: ten double rounds in place. */
  method RoundsInPlace(state: array<Word>)
    requires state.Length == 16
    modifies state
    ensures state[..] == Rounds(old(state[..]), 10)
  {
    hide OnLane;
    LanesAreValid();
    for i := 0 to 10
      invariant state[..] == Rounds(old(state[..]), i)
    {
      ghost var before := state[..];
      for j := 0 to |LANES|
        invariant state[..] == OnLanes(before, LANES[..j])
      {
        assert LANES[..j + 1] == LANES[..j] + [LANES[j]];
        QuarterRoundInPlace(state, LANES[j]);
      }
      assert LANES[..|LANES|] == LANES;
    }
  }

  /** The published example of RFC 8439 section 2.2.1: a quarter round on positions 2, 7, 8 and 13 of a full state. */
  lemma StateQuarterRoundExample()
    ensures OnLane([0x879531e0, 0xc5ecf37d, 0x516461b1, 0xc9a62f8a, 0x44c20ef3, 0x3390af7f, 0xd9fc690b, 0x2a5f714c,
                    0x53372767, 0xb00a5631, 0x974c541a, 0x359e9963, 0x5c971061, 0x3d631689, 0x2098d9d6, 0x91dbd320],
                   Lane(2, 7, 8, 13))
         == [0x879531e0, 0xc5ecf37d, 0xbdb886dc, 0xc9a62f8a, 0x44c20ef3, 0x3390af7f, 0xd9fc690b, 0xcfacafd2,
             0xe46bea80, 0xb00a5631, 0x974c541a, 0x359e9963, 0x5c971061, 0xccc07c79, 0x2098d9d6, 0x91dbd320]
  {
    assert QuarterRound(Quad(0x516461b1, 0x2a5f714c, 0x53372767, 0x3d631689))
        == Quad(0xbdb886dc, 0xcfacafd2, 0xe46bea80, 0xccc07c79);
  }

  /** Little-endian words, as struct.unpack("<I...") reads them. */
  function WordAt(b: Bytes, i: nat): Word
    requires 4 * i + 4 <= |b|
  {
    (b[4 * i] as Word) | ((b[4 * i + 1] as Word) << 8) | ((b[4 * i + 2] as Word) << 16) | ((b[4 * i + 3] as Word) << 24)
  }

  function Words(b: Bytes): (w: seq<Word>)
    ensures |w| == |b| / 4
  {
    seq(|b| / 4, i requires 0 <= i < |b| / 4 => WordAt(b, i))
  }

  function LowByte(w: Word): Byte { ((w & 0xFF) as bv8) as int }

  function WordBytes(w: Word): (b: Bytes)
    ensures |b| == 4
  {
    [LowByte(w), LowByte(w >> 8), LowByte(w >> 16), LowByte(w >> 24)]
  }

  /** struct.pack("<I...") */
  function Pack(ws: seq<Word>): (b: Bytes)
    ensures |b| == 4 * |ws|
  {
    if ws == [] then [] else Pack(ws[..|ws| - 1]) + WordBytes(ws[|ws| - 1])
  }

  /** "expand 32-byte k" */
  const CONSTANT_BYTES: Bytes := [0x65, 0x78, 0x70, 0x61, 0x6e, 0x64, 0x20, 0x33, 0x32, 0x2d, 0x62, 0x79, 0x74, 0x65,
                                  0x20, 0x6b]

  function Constants(): (w: seq<Word>)
    ensures |w| == 4
  {
    Words(CONSTANT_BYTES)
  }

  /** The subkey of HChaCha20: the first and last rows of the scrambled state. */
  function HChaCha20(key: Bytes, nonce16: Bytes): (subkey: Bytes)
    requires |key| == 32 && |nonce16| == 16
    ensures |subkey| == 32
  {
    var w := Rounds(Constants() + Words(key) + Words(nonce16), 10);
    Pack([w[0], w[1], w[2], w[3], w[12], w[13], w[14], w[15]])
  }

  /** The lengths that the block function accepts. */
  predicate Sized(key: Bytes, nonce12: Bytes) { |key| == 32 && |nonce12| == 12 }

  function InitialState(key: Bytes, counter: nat, nonce12: Bytes): State
    requires |key| == 32 && |nonce12| == 12 && counter <= MAX_COUNTER
  {
    Constants() + Words(key) + [counter as Word] + Words(nonce12)
  }

  function AddStates(a: State, b: State): State {
    seq(16, i requires 0 <= i < 16 => Add(a[i], b[i]))
  }

  /** One 64-byte keystream block. */
  function Block(key: Bytes, counter: nat, nonce12: Bytes): (b: Bytes)
    requires |key| == 32 && |nonce12| == 12 && counter <= MAX_COUNTER
    ensures |b| == 64
  {
    var initial := InitialState(key, counter, nonce12);
    Pack(AddStates(Rounds(initial, 10), initial))
  }

  /** `_chacha20_block`: None stands for the error about the parameters. */
  method ComputeBlock(key: Bytes, counter: int, nonce12: Bytes) returns (r: Option<Bytes>)
    ensures r.Some? <==> Sized(key, nonce12) && 0 <= counter <= MAX_COUNTER
    ensures r.Some? ==> r.value == Block(key, counter, nonce12)
  {
    hide Rounds, Words, Pack;
    if |key| != 32 || |nonce12| != 12 || !(0 <= counter <= MAX_COUNTER) {
      return None;
    }
    var state := InitialState(key, counter, nonce12);
    var working := new Word[16](i requires 0 <= i < 16 => state[i]);
    assert working[..] == state;
    RoundsInPlace(working);
    var scrambled := working[..];
    r := Some(Pack(seq(16, i requires 0 <= i < 16 => Add(scrambled[i], state[i]))));
    assert seq(16, i requires 0 <= i < 16 => Add(scrambled[i], state[i])) == AddStates(scrambled, state);
  }

  /** `_hchacha20`: None stands for the error about the input lengths. */
  method ComputeHChaCha20(key: Bytes, nonce16: Bytes) returns (r: Option<Bytes>)
    ensures r.Some? <==> |key| == 32 && |nonce16| == 16
    ensures r.Some? ==> r.value == HChaCha20(key, nonce16)
  {
    hide Rounds, Words, Pack;
    if |key| != 32 || |nonce16| != 16 {
      return None;
    }
    var state := Constants() + Words(key) + Words(nonce16);
    var working := new Word[16](i requires 0 <= i < 16 => state[i]);
    assert working[..] == state;
    RoundsInPlace(working);
    r := Some(Pack([working[0], working[1], working[2], working[3], working[12], working[13], working[14],
                    working[15]]));
  }

  /** Byte i of the keystream that starts at block `counter`. */
  function KeyByte(key: Bytes, nonce12: Bytes, counter: nat, i: nat): Byte
    requires |key| == 32 && |nonce12| == 12 && counter + i / 64 <= MAX_COUNTER
  {
    Block(key, counter + i / 64, nonce12)[i % 64]
  }

  /** Whether `size` bytes need a block beyond the last counter value. */
  predicate Exhausts(counter: nat, size: nat) {
    size > 0 && counter + (size - 1) / 64 > MAX_COUNTER
  }

  lemma BlockInRange(counter: nat, size: nat, i: nat)
    requires !Exhausts(counter, size) && i < size
    ensures counter + i / 64 <= MAX_COUNTER
  {
    assert i / 64 <= (size - 1) / 64;
  }

  /** The data combined byte by byte with the keystream. */
  function XorStream(key: Bytes, nonce12: Bytes, counter: nat, data: Bytes): (out: Bytes)
    requires |key| == 32 && |nonce12| == 12 && !Exhausts(counter, |data|)
    ensures |out| == |data|
  {
    seq(|data|, i requires 0 <= i < |data| => BlockInRange(counter, |data|, i);
        XorByte(data[i], KeyByte(key, nonce12, counter, i)))
  }

  /** Applying the same keystream twice restores the data. */
  lemma XorStreamInvolution(key: Bytes, nonce12: Bytes, counter: nat, data: Bytes)
    requires |key| == 32 && |nonce12| == 12 && !Exhausts(counter, |data|)
    ensures XorStream(key, nonce12, counter, XorStream(key, nonce12, counter, data)) == data
  {
    hide Block, XorByte;
    var once := XorStream(key, nonce12, counter, data);
    var twice := XorStream(key, nonce12, counter, once);
    forall i | 0 <= i < |data| ensures twice[i] == data[i] {
      BlockInRange(counter, |data|, i);
      XorByteCancels(data[i], KeyByte(key, nonce12, counter, i));
    }
  }

  /** The inner loop: one block combined into the output at `position`. */
  method XorBlock(output: array<Byte>, data: Bytes, position: nat, block: Bytes, take: nat)
    requires output.Length == |data| && position + take <= |data| && take <= |block|
    modifies output
    ensures forall i :: 0 <= i < |data| && !(position <= i < position + take) ==> output[i] == old(output[i])
    ensures forall i :: position <= i < position + take ==> output[i] == XorByte(data[i], block[i - position])
  {
    hide XorByte;
    for index := 0 to take
      invariant forall i :: 0 <= i < |data| && !(position <= i < position + index) ==> output[i] == old(output[i])
      invariant forall i :: position <= i < position + index ==> output[i] == XorByte(data[i], block[i - position])
    {
      output[position + index] := XorByte(data[position + index], block[index]);
    }
  }

  ghost predicate XoredUpTo(key: Bytes, nonce12: Bytes, counter: nat, data: Bytes, output: Bytes, position: nat)
    requires |key| == 32 && |nonce12| == 12 && |output| == |data|
  {
    forall i :: 0 <= i < position && i < |data| ==>
      (counter + i / 64 <= MAX_COUNTER && output[i] == XorByte(data[i], KeyByte(key, nonce12, counter, i)))
  }

  lemma NextBlock(key: Bytes, nonce12: Bytes, counter: nat, data: Bytes, before: Bytes, after: Bytes, position: nat,
                  take: nat)
    requires |key| == 32 && |nonce12| == 12 && |before| == |data| && |after| == |data|
    requires position % 64 == 0 && take <= 64 && position + take <= |data| && counter + position / 64 <= MAX_COUNTER
    requires XoredUpTo(key, nonce12, counter, data, before, position)
    requires forall i :: 0 <= i < position ==> after[i] == before[i]
    requires forall i :: position <= i < position + take ==>
               after[i] == XorByte(data[i], Block(key, counter + position / 64, nonce12)[i - position])
    ensures XoredUpTo(key, nonce12, counter, data, after, position + take)
  {
    hide Block, XorByte;
    forall i | position <= i < position + take
      ensures counter + i / 64 <= MAX_COUNTER && after[i] == XorByte(data[i], KeyByte(key, nonce12, counter, i))
    {
      assert i / 64 == position / 64 && i % 64 == i - position;
    }
  }

  datatype XorOutcome = Output(data: Bytes) | BadParameters | KeystreamExhausted

  /** `_chacha20_xor` */
  method ChaCha20Xor(key: Bytes, nonce12: Bytes, counter: int, data: Bytes) returns (r: XorOutcome)
    ensures data == [] ==> r == Output([])
    ensures data != [] && counter > MAX_COUNTER ==> r == KeystreamExhausted
    ensures data != [] && counter <= MAX_COUNTER && !(Sized(key, nonce12) && counter >= 0) ==> r == BadParameters
    ensures Sized(key, nonce12) && counter >= 0 ==>
              r == if Exhausts(counter, |data|) then KeystreamExhausted
                  else Output(XorStream(key, nonce12, counter, data))
  {
    hide Block, XorByte, XoredUpTo;
    var output := new Byte[|data|](i => 0);
    var position, current := 0, counter;
    ghost var sized := Sized(key, nonce12) && counter >= 0;
    if sized { NothingXored(key, nonce12, counter, data, output[..]); }
    while position < |data|
      invariant position <= |data| && (position % 64 == 0 || position == |data|)
      invariant position < |data| ==> current == counter + position / 64
      invariant position > 0 ==> sized
      invariant sized ==> !Exhausts(counter, position) && XoredUpTo(key, nonce12, counter, data, output[..], position)
    {
      if current > MAX_COUNTER {
        assert (|data| - 1) / 64 >= position / 64;
        return KeystreamExhausted;
      }
      var block := ComputeBlock(key, current, nonce12);
      if block.None? {
        return BadParameters;
      }
      var take := if |data| - position < 64 then |data| - position else 64;
      ghost var before := output[..];
      XorBlock(output, data, position, block.value, take);
      NextBlock(key, nonce12, counter, data, before, output[..], position, take);
      position := position + take;
      current := current + 1;
    }
    r := Output(output[..]);
    if sized { AllXored(key, nonce12, counter, data, output[..]); }
  }

  lemma NothingXored(key: Bytes, nonce12: Bytes, counter: nat, data: Bytes, output: Bytes)
    requires |key| == 32 && |nonce12| == 12 && |output| == |data|
    ensures XoredUpTo(key, nonce12, counter, data, output, 0)
  {
  }

  lemma AllXored(key: Bytes, nonce12: Bytes, counter: nat, data: Bytes, output: Bytes)
    requires |key| == 32 && |nonce12| == 12 && |output| == |data| && !Exhausts(counter, |data|)
    requires XoredUpTo(key, nonce12, counter, data, output, |data|)
    ensures output == XorStream(key, nonce12, counter, data)
  {
    hide Block, XorByte, KeyByte;
  }
}
