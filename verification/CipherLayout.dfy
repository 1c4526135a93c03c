/** The ciphers word by word and digit by digit: what the rounds, the blocks and the tag are made of. */
module CipherLayout {
  import opened Bytes
  import opened Integers
  import opened ChaCha
  import opened Poly1305

  // ---- A double round from its eight quarter rounds ----

  lemma Lane0(s: State, q: Quad)
    requires q == QuarterRound(Quad(s[0], s[4], s[8], s[12]))
    ensures OnLane(s, Lane(0, 4, 8, 12))
         == [q.a, s[1], s[2], s[3], q.b, s[5], s[6], s[7],
             q.c, s[9], s[10], s[11], q.d, s[13], s[14], s[15]]
  {
    hide QuarterRound;
  }

  lemma Lane1(s: State, q: Quad)
    requires q == QuarterRound(Quad(s[1], s[5], s[9], s[13]))
    ensures OnLane(s, Lane(1, 5, 9, 13))
         == [s[0], q.a, s[2], s[3], s[4], q.b, s[6], s[7],
             s[8], q.c, s[10], s[11], s[12], q.d, s[14], s[15]]
  {
    hide QuarterRound;
  }

  lemma Lane2(s: State, q: Quad)
    requires q == QuarterRound(Quad(s[2], s[6], s[10], s[14]))
    ensures OnLane(s, Lane(2, 6, 10, 14))
         == [s[0], s[1], q.a, s[3], s[4], s[5], q.b, s[7],
             s[8], s[9], q.c, s[11], s[12], s[13], q.d, s[15]]
  {
    hide QuarterRound;
  }

  lemma Lane3(s: State, q: Quad)
    requires q == QuarterRound(Quad(s[3], s[7], s[11], s[15]))
    ensures OnLane(s, Lane(3, 7, 11, 15))
         == [s[0], s[1], s[2], q.a, s[4], s[5], s[6], q.b,
             s[8], s[9], s[10], q.c, s[12], s[13], s[14], q.d]
  {
    hide QuarterRound;
  }

  lemma Lane4(s: State, q: Quad)
    requires q == QuarterRound(Quad(s[0], s[5], s[10], s[15]))
    ensures OnLane(s, Lane(0, 5, 10, 15))
         == [q.a, s[1], s[2], s[3], s[4], q.b, s[6], s[7],
             s[8], s[9], q.c, s[11], s[12], s[13], s[14], q.d]
  {
    hide QuarterRound;
  }

  lemma Lane5(s: State, q: Quad)
    requires q == QuarterRound(Quad(s[1], s[6], s[11], s[12]))
    ensures OnLane(s, Lane(1, 6, 11, 12))
         == [s[0], q.a, s[2], s[3], s[4], s[5], q.b, s[7],
             s[8], s[9], s[10], q.c, q.d, s[13], s[14], s[15]]
  {
    hide QuarterRound;
  }

  lemma Lane6(s: State, q: Quad)
    requires q == QuarterRound(Quad(s[2], s[7], s[8], s[13]))
    ensures OnLane(s, Lane(2, 7, 8, 13))
         == [s[0], s[1], q.a, s[3], s[4], s[5], s[6], q.b,
             q.c, s[9], s[10], s[11], s[12], q.d, s[14], s[15]]
  {
    hide QuarterRound;
  }

  lemma Lane7(s: State, q: Quad)
    requires q == QuarterRound(Quad(s[3], s[4], s[9], s[14]))
    ensures OnLane(s, Lane(3, 4, 9, 14))
         == [s[0], s[1], s[2], q.a, q.b, s[5], s[6], s[7],
             s[8], q.c, s[10], s[11], s[12], s[13], q.d, s[15]]
  {
    hide QuarterRound;
  }

  ghost function Columns(s: State): State {
    OnLane(OnLane(OnLane(OnLane(s, Lane(0, 4, 8, 12)), Lane(1, 5, 9, 13)), Lane(2, 6, 10, 14)), Lane(3, 7, 11, 15))
  }

  ghost function Diagonals(s: State): State {
    OnLane(OnLane(OnLane(OnLane(s, Lane(0, 5, 10, 15)), Lane(1, 6, 11, 12)), Lane(2, 7, 8, 13)), Lane(3, 4, 9, 14))
  }

  /** The four columns leave the results of their quarter rounds. */
  lemma ColumnsAre(s: State, c0: Quad, c1: Quad, c2: Quad, c3: Quad)
    requires c0 == QuarterRound(Quad(s[0], s[4], s[8], s[12])) && c1 == QuarterRound(Quad(s[1], s[5], s[9], s[13]))
    requires c2 == QuarterRound(Quad(s[2], s[6], s[10], s[14])) && c3 == QuarterRound(Quad(s[3], s[7], s[11], s[15]))
    ensures Columns(s)
         == [c0.a, c1.a, c2.a, c3.a, c0.b, c1.b, c2.b, c3.b,
             c0.c, c1.c, c2.c, c3.c, c0.d, c1.d, c2.d, c3.d]
  {
    hide QuarterRound, OnLane;
    var s1 := OnLane(s, Lane(0, 4, 8, 12));
    Lane0(s, c0);
    var s2 := OnLane(s1, Lane(1, 5, 9, 13));
    Lane1(s1, c1);
    var s3 := OnLane(s2, Lane(2, 6, 10, 14));
    Lane2(s2, c2);
    Lane3(s3, c3);
  }

  /** The four diagonals likewise. */
  lemma DiagonalsAre(s: State, d0: Quad, d1: Quad, d2: Quad, d3: Quad)
    requires d0 == QuarterRound(Quad(s[0], s[5], s[10], s[15])) && d1 == QuarterRound(Quad(s[1], s[6], s[11], s[12]))
    requires d2 == QuarterRound(Quad(s[2], s[7], s[8], s[13])) && d3 == QuarterRound(Quad(s[3], s[4], s[9], s[14]))
    ensures Diagonals(s)
         == [d0.a, d1.a, d2.a, d3.a, d3.b, d0.b, d1.b, d2.b,
             d2.c, d3.c, d0.c, d1.c, d1.d, d2.d, d3.d, d0.d]
  {
    hide QuarterRound, OnLane;
    var s1 := OnLane(s, Lane(0, 5, 10, 15));
    Lane4(s, d0);
    var s2 := OnLane(s1, Lane(1, 6, 11, 12));
    Lane5(s1, d1);
    var s3 := OnLane(s2, Lane(2, 7, 8, 13));
    Lane6(s2, d2);
    Lane7(s3, d3);
  }

  lemma EightLanes(s: State)
    ensures DoubleRound(s) == Diagonals(Columns(s))
  {
    hide OnLane, OnLanes;
    LanesAreValid();
    NoLanes(s);
    OneMoreLane(s, 0);
    OneMoreLane(s, 1);
    OneMoreLane(s, 2);
    OneMoreLane(s, 3);
    OneMoreLane(s, 4);
    OneMoreLane(s, 5);
    OneMoreLane(s, 6);
    OneMoreLane(s, 7);
    assert LANES[..8] == LANES;
  }

  lemma NoLanes(s: State)
    ensures LANES[..0] == [] && OnLanes(s, LANES[..0]) == s
  {
  }

  lemma OneMoreLane(s: State, n: nat)
    requires n < 8
    ensures LanesValid(LANES[..n]) && LanesValid(LANES[..n + 1])
    ensures OnLanes(s, LANES[..n + 1]) == OnLane(OnLanes(s, LANES[..n]), LANES[n])
  {
    hide OnLane;
    LanesAreValid();
    assert LANES[..n + 1][..n] == LANES[..n];
  }

  /** A double round mixes the columns and then the diagonals of what these leave. */
  lemma DoubleRoundIs(s: State, c0: Quad, c1: Quad, c2: Quad, c3: Quad, d0: Quad, d1: Quad, d2: Quad, d3: Quad)
    requires c0 == QuarterRound(Quad(s[0], s[4], s[8], s[12])) && c1 == QuarterRound(Quad(s[1], s[5], s[9], s[13]))
    requires c2 == QuarterRound(Quad(s[2], s[6], s[10], s[14])) && c3 == QuarterRound(Quad(s[3], s[7], s[11], s[15]))
    requires d0 == QuarterRound(Quad(c0.a, c1.b, c2.c, c3.d)) && d1 == QuarterRound(Quad(c1.a, c2.b, c3.c, c0.d))
    requires d2 == QuarterRound(Quad(c2.a, c3.b, c0.c, c1.d)) && d3 == QuarterRound(Quad(c3.a, c0.b, c1.c, c2.d))
    ensures DoubleRound(s)
         == [d0.a, d1.a, d2.a, d3.a, d3.b, d0.b, d1.b, d2.b,
             d2.c, d3.c, d0.c, d1.c, d1.d, d2.d, d3.d, d0.d]
  {
    hide QuarterRound, OnLane, DoubleRound;
    hide Columns, Diagonals;
    EightLanes(s);
    ColumnsAre(s, c0, c1, c2, c3);
    DiagonalsAre(Columns(s), d0, d1, d2, d3);
  }

  // ---- Words and bytes ----

  function WordFrom(a: Byte, b: Byte, c: Byte, d: Byte): Word {
    (a as Word) | ((b as Word) << 8) | ((c as Word) << 16) | ((d as Word) << 24)
  }

  lemma WordAtIs(b: Bytes, i: nat)
    requires 4 * i + 4 <= |b|
    ensures WordAt(b, i) == WordFrom(b[4 * i], b[4 * i + 1], b[4 * i + 2], b[4 * i + 3])
  {
  }

  /** The state of a block: four fixed words, the key, the counter and the nonce, all little-endian. */
  lemma StateLayout(key: Bytes, counter: nat, nonce12: Bytes)
    requires |key| == 32 && |nonce12| == 12 && counter <= 0xFFFFFFFF
    ensures var s := InitialState(key, counter, nonce12);
            && s[0] == 0x61707865 && s[1] == 0x3320646e && s[2] == 0x79622d32 && s[3] == 0x6b206574
            && (forall i :: 0 <= i < 8 ==> s[4 + i] == WordAt(key, i))
            && s[12] == counter as Word
            && (forall i :: 0 <= i < 3 ==> s[13 + i] == WordAt(nonce12, i))
  {
    hide WordAt;
    FixedWords();
  }

  lemma FixedWords()
    ensures Constants()[0] == 0x61707865 && Constants()[1] == 0x3320646e
    ensures Constants()[2] == 0x79622d32 && Constants()[3] == 0x6b206574
  {
    hide WordAt;
    FixedWord0();
    FixedWord1();
    FixedWord2();
    FixedWord3();
  }

  lemma FixedWord0()
    ensures WordAt(CONSTANT_BYTES, 0) == 0x61707865
  {
    hide WordAt, WordFrom;
    assert WordFrom(0x65, 0x78, 0x70, 0x61) == 0x61707865 by { FixedWordValue0(); }
    WordAtIs(CONSTANT_BYTES, 0);
  }

  lemma FixedWordValue0()
    ensures WordFrom(0x65, 0x78, 0x70, 0x61) == 0x61707865
  {
  }

  lemma FixedWord1()
    ensures WordAt(CONSTANT_BYTES, 1) == 0x3320646e
  {
    hide WordAt, WordFrom;
    assert WordFrom(0x6e, 0x64, 0x20, 0x33) == 0x3320646e by { FixedWordValue1(); }
    WordAtIs(CONSTANT_BYTES, 1);
  }

  lemma FixedWordValue1()
    ensures WordFrom(0x6e, 0x64, 0x20, 0x33) == 0x3320646e
  {
  }

  lemma FixedWord2()
    ensures WordAt(CONSTANT_BYTES, 2) == 0x79622d32
  {
    hide WordAt, WordFrom;
    assert WordFrom(0x32, 0x2d, 0x62, 0x79) == 0x79622d32 by { FixedWordValue2(); }
    WordAtIs(CONSTANT_BYTES, 2);
  }

  lemma FixedWordValue2()
    ensures WordFrom(0x32, 0x2d, 0x62, 0x79) == 0x79622d32
  {
  }

  lemma FixedWord3()
    ensures WordAt(CONSTANT_BYTES, 3) == 0x6b206574
  {
    hide WordAt, WordFrom;
    assert WordFrom(0x74, 0x65, 0x20, 0x6b) == 0x6b206574 by { FixedWordValue3(); }
    WordAtIs(CONSTANT_BYTES, 3);
  }

  lemma FixedWordValue3()
    ensures WordFrom(0x74, 0x65, 0x20, 0x6b) == 0x6b206574
  {
  }

  lemma {:induction false} PackedWord(ws: seq<Word>, i: nat)
    requires i < |ws|
    ensures Pack(ws)[4 * i..4 * i + 4] == WordBytes(ws[i])
  {
    hide WordBytes;
    var n := |ws| - 1;
    if i < n {
      PackedWord(ws[..n], i);
      assert Pack(ws)[4 * i..4 * i + 4] == Pack(ws[..n])[4 * i..4 * i + 4];
    }
  }

  /** Word i of a block is word i of the state after ten double rounds plus that of the state before. */
  lemma BlockWord(key: Bytes, counter: nat, nonce12: Bytes, i: nat)
    requires |key| == 32 && |nonce12| == 12 && counter <= 0xFFFFFFFF && i < 16
    ensures var s := InitialState(key, counter, nonce12);
            Block(key, counter, nonce12)[4 * i..4 * i + 4] == WordBytes(Add(Rounds(s, 10)[i], s[i]))
  {
    hide Rounds, InitialState, WordBytes, Pack, AddStates, Block, Add;
    var s := InitialState(key, counter, nonce12);
    var sum := AddStates(Rounds(s, 10), s);
    BlockIs(key, counter, nonce12);
    PackedWord(sum, i);
    SumAt(Rounds(s, 10), s, i);
  }

  lemma BlockIs(key: Bytes, counter: nat, nonce12: Bytes)
    requires |key| == 32 && |nonce12| == 12 && counter <= 0xFFFFFFFF
    ensures var s := InitialState(key, counter, nonce12);
            Block(key, counter, nonce12) == Pack(AddStates(Rounds(s, 10), s))
  {
    hide Rounds, Pack, AddStates, InitialState;
  }

  lemma SumAt(a: State, b: State, i: nat)
    requires i < 16
    ensures AddStates(a, b)[i] == Add(a[i], b[i])
  {
    hide Add;
  }

  /** The subkey is made of the first and the last four words after the rounds, with nothing added. */
  lemma SubkeyWord(key: Bytes, nonce16: Bytes, i: nat)
    requires |key| == 32 && |nonce16| == 16 && i < 8
    ensures var s := Constants() + Words(key) + Words(nonce16);
            HChaCha20(key, nonce16)[4 * i..4 * i + 4] == WordBytes(Rounds(s, 10)[if i < 4 then i else 8 + i])
    ensures var s: State := Constants() + Words(key) + Words(nonce16);
            && s[0] == 0x61707865 && s[1] == 0x3320646e && s[2] == 0x79622d32 && s[3] == 0x6b206574
            && (forall j :: 0 <= j < 8 ==> s[4 + j] == WordAt(key, j))
            && (forall j :: 0 <= j < 4 ==> s[12 + j] == WordAt(nonce16, j))
  {
    hide Rounds, WordBytes, Pack, WordAt, Constants;
    FixedWords();
    var w := Rounds(Constants() + Words(key) + Words(nonce16), 10);
    PackedWord([w[0], w[1], w[2], w[3], w[12], w[13], w[14], w[15]], i);
  }

  lemma ByteOrderExample()
    ensures WordAt([0x0d, 0x0c, 0x0b, 0x0a], 0) == 0x0a0b0c0d && WordBytes(0x0a0b0c0d) == [0x0d, 0x0c, 0x0b, 0x0a]
  {
  }

  // ---- Bits and digits ----

  function Bit(x: nat, i: nat): nat { x / Pow2(i) % 2 }

  /** The bits of an exclusive or. */
  lemma {:induction false} XorBit(x: nat, y: nat, k: nat, i: nat)
    requires x < Pow2(k) && y < Pow2(k) && i < k
    ensures Bit(XorBits(x, y, k), i) == if Bit(x, i) == Bit(y, i) then 0 else 1
  {
    hide XorBits, Pow2, Bit;
    XorHalves(x, y, k);
    var z := XorBits(x, y, k);
    if i == 0 {
      LowestBit(x);
      LowestBit(y);
      LowestBit(z);
      Parity(x, y, z);
    } else {
      XorBit(x / 2, y / 2, k - 1, i - 1);
      HigherBit(x, i);
      HigherBit(y, i);
      HigherBit(z, i);
    }
  }

  lemma Parity(x: nat, y: nat, z: nat)
    requires z % 2 == (x + y) % 2
    ensures z % 2 == if x % 2 == y % 2 then 0 else 1
  {
  }

  lemma LowestBit(x: nat)
    ensures Bit(x, 0) == x % 2
  {
  }

  lemma HigherBit(x: nat, i: nat)
    requires i > 0
    ensures Bit(x, i) == Bit(x / 2, i - 1)
  {
    QuotientTwice(x, 2, Pow2(i - 1));
  }

  lemma XorHalves(x: nat, y: nat, k: nat)
    requires k > 0 && x < Pow2(k) && y < Pow2(k)
    ensures x / 2 < Pow2(k - 1) && y / 2 < Pow2(k - 1)
    ensures XorBits(x, y, k) / 2 == XorBits(x / 2, y / 2, k - 1) && XorBits(x, y, k) % 2 == (x + y) % 2
  {
    hide XorBits, Pow2;
    Halves(x, k);
    Halves(y, k);
    XorUnfold(x, y, k);
    Digits(XorBits(x / 2, y / 2, k - 1), (x + y) % 2);
  }

  lemma QuotientTwice(x: nat, a: nat, b: nat)
    requires a > 0 && b > 0
    ensures a * b > 0 && x / (a * b) == x / a / b
  {
    var q, r := x / a, x % a;
    var s, t := q / b, q % b;
    Division(x, a);
    Division(q, b);
    TwoDigits(x, a, b, q, r, s, t);
    QuotientIs(x, a * b, s, t * a + r);
  }

  lemma Division(x: nat, a: nat)
    requires a > 0
    ensures x == x / a * a + x % a && x % a < a
  {
  }

  lemma TwoDigits(x: nat, a: nat, b: nat, q: nat, r: nat, s: nat, t: nat)
    requires x == q * a + r && q == s * b + t && r < a && t < b
    ensures a * b > 0 && t * a + r >= 0 && x == s * (a * b) + (t * a + r) && t * a + r < a * b
  {
    assert (s * b + t) * a == s * (a * b) + t * a;
    MultiplesApart(t, b, a);
    assert a * b == b * a;
  }

  lemma QuotientIs(x: nat, d: nat, q: nat, r: nat)
    requires d > 0 && x == q * d + r && r < d
    ensures x / d == q && x % d == r
  {
    ModUnique(x, q, r, d);
    assert x == x / d * d + x % d;
    MultiplesApart(q, x / d, d);
    MultiplesApart(x / d, q, d);
  }

  /** Byte i of a little-endian number is its digit i to the base 256. */
  lemma {:induction false} LittleDigit(b: Bytes, i: nat)
    requires i < |b|
    ensures LeInt(b) / Pow256(i) % 256 == b[i]
  {
    var n := LeInt(b);
    QuotientIs(n, 256, LeInt(b[1..]), b[0]);
    if i > 0 {
      LittleDigit(b[1..], i - 1);
      QuotientTwice(n, 256, Pow256(i - 1));
    }
  }

  /** Byte i of a big-endian number is the digit that as many bytes follow. */
  lemma {:induction false} BigDigit(b: Bytes, i: nat)
    requires i < |b|
    ensures BeInt(b) / Pow256(|b| - 1 - i) % 256 == b[i]
  {
    var n, last := BeInt(b), |b| - 1;
    QuotientIs(n, 256, BeInt(b[..last]), b[last]);
    if i < last {
      BigDigit(b[..last], i);
      QuotientTwice(n, 256, Pow256(last - 1 - i));
    }
  }

  // ---- The authenticator ----

  /** The sixteen bytes of r: the top four bits of every fourth byte and the low two bits of the byte after it are
      cleared. */
  lemma ClampedByte(r: Bytes, i: nat)
    requires |r| == 16 && i < 16
    ensures Clamped(r)[i] == if i in {3, 7, 11, 15} then r[i] % 16
                             else if i in {4, 8, 12} then r[i] - r[i] % 4 else r[i]
  {
    hide AndByte;
    MaskLow(r[i]);
    MaskHigh(r[i]);
    MaskAll(r[i]);
  }

  lemma AndStep(x: nat, y: nat, k: nat)
    requires k > 0 && x < Pow2(k) && y < Pow2(k)
    ensures x / 2 < Pow2(k - 1) && y / 2 < Pow2(k - 1)
    ensures AndBits(x, y, k) == 2 * AndBits(x / 2, y / 2, k - 1) + (if x % 2 == 1 && y % 2 == 1 then 1 else 0)
  {
  }

  lemma {:induction false} AndNothing(x: nat, k: nat)
    requires x < Pow2(k)
    ensures AndBits(x, 0, k) == 0
  {
    if k > 0 {
      AndStep(x, 0, k);
      AndNothing(x / 2, k - 1);
    }
  }

  lemma {:induction false} AndOnes(x: nat, k: nat)
    requires x < Pow2(k)
    ensures AndBits(x, Pow2(k) - 1, k) == x
  {
    if k > 0 {
      AndStep(x, Pow2(k) - 1, k);
      AndOnes(x / 2, k - 1);
    }
  }

  lemma Powers()
    ensures Pow2(4) == 16 && Pow2(5) == 32 && Pow2(6) == 64 && Pow2(7) == 128 && Pow2(8) == 256
  {
    assert Pow2(4) == 16;
  }

  lemma MaskLow(x: Byte)
    ensures AndByte(x, 0x0f) == x % 16
  {
    hide AndBits, Pow2;
    Powers();
    AndStep(x, 15, 8);
    AndStep(x / 2, 7, 7);
    AndStep(x / 2 / 2, 3, 6);
    AndStep(x / 2 / 2 / 2, 1, 5);
    AndNothing(x / 2 / 2 / 2 / 2, 4);
    FourBits(x);
  }

  lemma FourBits(x: nat)
    ensures x % 2 + 2 * (x / 2 % 2) + 4 * (x / 2 / 2 % 2) + 8 * (x / 2 / 2 / 2 % 2) == x % 16
  {
  }

  lemma MaskHigh(x: Byte)
    ensures AndByte(x, 0xfc) == x - x % 4
  {
    hide AndBits;
    Powers();
    AndStep(x, 252, 8);
    AndStep(x / 2, 126, 7);
    AndOnes(x / 2 / 2, 6);
  }

  lemma MaskAll(x: Byte)
    ensures AndByte(x, 0xff) == x
  {
    hide AndBits;
    Powers();
    AndOnes(x, 8);
  }

  /** Coefficient i is the number of the i-th sixteen bytes, with a one in the place after the last of them. */
  lemma CoefficientIs(message: Bytes, i: nat)
    requires 16 * i < |message|
    ensures var part := message[16 * i..if |message| - 16 * i < 16 then |message| else 16 * i + 16];
            && i < |Coefficients(message)|
            && Coefficients(message)[i] == LeInt(part) + Pow256(|part|)
  {
    hide LeInt;
    var part := message[16 * i..if |message| - 16 * i < 16 then |message| else 16 * i + 16];
    Marked(part);
  }

  lemma {:induction false} Marked(b: Bytes)
    ensures LeInt(b + [1]) == LeInt(b) + Pow256(|b|)
  {
    if b == [] {
      assert [1][1..] == [] && LeInt([]) == 0;
    } else {
      Marked(b[1..]);
      assert (b + [1])[1..] == b[1..] + [1];
    }
  }

  /** The tag as a number: the message polynomial at the clamped first half of the key, modulo 2^130 - 5, plus the
      second half, modulo 2^128. */
  lemma TagNumber(message: Bytes, key: Bytes)
    requires |key| == 32
    ensures var r, s := LeInt(Clamped(key[0..16])), LeInt(key[16..32]);
            LeInt(Tag(message, key))
              == (PowerSum(Coefficients(message), r, |Coefficients(message)|) % 0x3fffffffffffffffffffffffffffffffb + s)
                 % 0x1_0000_0000_0000_0000_0000_0000_0000_0000
    ensures |Coefficients(message)| == (|message| + 15) / 16
  {
    hide LeInt, Clamped, PowerSum, Coefficients;
    WidthOfTag();
    assert key[0..16] == key[..16] && key[16..32] == key[16..];
    var n := Polynomial(Coefficients(message), KeyR(key)) % PRIME + KeyS(key);
    LeIntOfBytes(n % Pow256(16), 16);
  }

  lemma WidthOfTag()
    ensures Pow256(16) == 0x1_0000_0000_0000_0000_0000_0000_0000_0000
  {
    PrimeValue();
  }
}
