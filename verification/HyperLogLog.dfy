/** The registers of the distinct-value sketch. */
module HyperLogLog {
  import opened Bytes

  /** A 64-bit digest of the text of a value; the digest function itself is a parameter. */
  type Digest = x: int | 0 <= x < 0x1_0000_0000_0000_0000

  function Index(digest: Digest, bits: nat): nat { digest % Pow2(bits) }

  function Quotient(n: nat, d: nat): nat
    requires d > 0
  {
    n / d
  }

  function Remainder(digest: Digest, bits: nat): nat { Quotient(digest, Pow2(bits)) }

  /** One more than the trailing zero bits, but at most `cap` (and never less than one). */
  function RankUpTo(remainder: nat, cap: int): (r: nat)
    ensures 1 <= r && (1 <= cap ==> r <= cap) && (cap < 1 ==> r == 1)
    decreases cap
  {
    if cap <= 1 || remainder % 2 == 1 then 1 else 1 + RankUpTo(remainder / 2, cap - 1)
  }

  function RankOf(digest: Digest, bits: nat): nat { RankUpTo(Remainder(digest, bits), 65 - bits) }

  ghost predicate Divides(p: nat, n: nat) { exists k: nat {:trigger Times(k, p)} :: n == Times(k, p) }

  function Times(k: nat, p: nat): nat { k * p }

  lemma HalvesDivide(n: nat, p: nat)
    ensures n % 2 == 0 && Divides(p, n / 2) <==> Divides(2 * p, n)
  {
    hide Times;
    if n % 2 == 0 && Divides(p, n / 2) {
      var k: nat :| n / 2 == Times(k, p);
      Doubled(k, p);
      assert n == Times(k, 2 * p);
    }
    if Divides(2 * p, n) {
      var k: nat :| n == Times(k, 2 * p);
      Doubled(k, p);
      assert n / 2 == Times(k, p);
    }
  }

  lemma Doubled(k: nat, p: nat)
    ensures Times(k, 2 * p) == 2 * Times(k, p)
  {
  }

  lemma OneDivides(n: nat)
    ensures Divides(1, n)
    ensures Divides(2, n) <==> n % 2 == 0
  {
    assert n == Times(n, 1);
    HalvesDivide(n, 1);
    if n % 2 == 0 { assert n / 2 == Times(n / 2, 1); }
  }

  /** The rank says which power of two divides the remainder: all below it do, and the next one does not unless the
      cap was hit. */
  lemma {:induction false} RankMeaning(n: nat, cap: int)
    requires cap >= 1
    ensures var r := RankUpTo(n, cap); 1 <= r <= cap && Divides(Pow2(r - 1), n) && (r < cap ==> !Divides(Pow2(r), n))
    decreases cap
  {
    hide Divides;
    if cap > 1 && n % 2 == 0 {
      var r := RankUpTo(n / 2, cap - 1);
      RankMeaning(n / 2, cap - 1);
      HalvesDivide(n, Pow2(r - 1));
      HalvesDivide(n, Pow2(r));
    } else {
      OneDivides(n);
      assert Pow2(0) == 1 && Pow2(1) == 2;
    }
  }

  /** What a register must hold when these values have been added: the largest rank of those that map to it. */
  ghost predicate Register(digest: string -> Digest, bits: nat, added: set<string>, j: nat, r: nat) {
    && (forall x :: x in added && Index(digest(x), bits) == j ==> RankOf(digest(x), bits) <= r)
    && (r == 0 || exists x :: x in added && Index(digest(x), bits) == j && RankOf(digest(x), bits) == r)
  }

  lemma RegisterLe(digest: string -> Digest, bits: nat, added: set<string>, j: nat, r: nat, s: nat)
    requires Register(digest, bits, added, j, r) && Register(digest, bits, added, j, s)
    ensures r <= s
  {
    hide RankOf, Index;
    if r != 0 {
      var x :| x in added && Index(digest(x), bits) == j && RankOf(digest(x), bits) == r;
    }
  }

  /** The contents of the registers are determined by the set of values added: neither order nor repetition matters. */
  lemma RegisterUnique(digest: string -> Digest, bits: nat, added: set<string>, j: nat, r: nat, s: nat)
    requires Register(digest, bits, added, j, r) && Register(digest, bits, added, j, s)
    ensures r == s
  {
    hide Register;
    RegisterLe(digest, bits, added, j, r, s);
    RegisterLe(digest, bits, added, j, s, r);
  }

  lemma RankBounded(digest: Digest, bits: nat)
    requires bits <= 64
    ensures 1 <= RankOf(digest, bits) <= 65 - bits
  {
  }

  lemma RegisterBounded(digest: string -> Digest, bits: nat, added: set<string>, j: nat, r: nat)
    requires Register(digest, bits, added, j, r) && bits <= 64
    ensures r <= 65 - bits
    ensures r > 0 <==> exists x :: x in added && Index(digest(x), bits) == j
  {
    hide RankOf, Index;
    if r != 0 {
      var x :| x in added && Index(digest(x), bits) == j && RankOf(digest(x), bits) == r;
      RankBounded(digest(x), bits);
    }
    forall x | x in added && Index(digest(x), bits) == j ensures r > 0 { RankBounded(digest(x), bits); }
  }

  class Registers {
    const digest: string -> Digest
    const bits: nat
    const values: array<nat>
    ghost var added: set<string>

    ghost predicate Valid()
      reads this, values
    {
      values.Length == Pow2(bits) && forall j :: 0 <= j < values.Length ==> Register(digest, bits, added, j, values[j])
    }

    /** `registers` is a power of two, as the routing policy demands. */
    constructor (digest: string -> Digest, bits: nat)
      ensures Valid() && added == {} && this.digest == digest && this.bits == bits && fresh(values)
    {
      this.digest, this.bits := digest, bits;
      values := new nat[Pow2(bits)](_ => 0);
      added := {};
    }

    method Add(text: string)
      requires Valid()
      modifies this`added, values
      ensures Valid() && added == old(added) + {text}
    {
      hide RankOf, Index;
      var d := digest(text);
      IndexInRange(d, bits);
      var index := Index(d, bits);
      var rank := ComputeRank(d, bits);
      if values[index] < rank {
        values[index] := rank;
      }
      added := added + {text};
      forall j | 0 <= j < values.Length ensures Register(digest, bits, added, j, values[j]) {
        AddKeepsRegister(digest, bits, old(added), text, j, old(values[j]), values[j]);
      }
    }
  }

  lemma IndexInRange(d: Digest, bits: nat)
    ensures Index(d, bits) < Pow2(bits)
  {
  }

  lemma AddKeepsRegister(digest: string -> Digest, bits: nat, added: set<string>, text: string, j: nat, r: nat, s: nat)
    requires Register(digest, bits, added, j, r)
    requires s == if Index(digest(text), bits) == j && r < RankOf(digest(text), bits) then RankOf(digest(text), bits)
        else r
    ensures Register(digest, bits, added + {text}, j, s)
  {
    hide RankOf, Index;
    if s == r && r != 0 {
      var x :| x in added && Index(digest(x), bits) == j && RankOf(digest(x), bits) == r;
      assert x in added + {text};
    } else if s != r {
      assert text in added + {text};
    }
  }

  /** The loop that counts trailing zeros. */
  method ComputeRank(d: Digest, bits: nat) returns (rank: nat)
    ensures rank == RankOf(d, bits)
  {
    var remainder := Remainder(d, bits);
    rank := 1;
    while rank <= 64 - bits && remainder % 2 == 0
      invariant 1 <= rank && rank - 1 + RankUpTo(remainder, 65 - bits - (rank - 1)) == RankOf(d, bits)
      decreases 65 - bits - rank
    {
      rank := rank + 1;
      remainder := remainder / 2;
    }
  }


  /** A digest of 64 bits splits into the register's number, its lowest bits, and the remainder; the rank is one more
      than the number of trailing zeros of the remainder, but at most 65 less the bits taken. */
  lemma DigestParts(digest: Digest, bits: nat) returns (remainder: nat)
    requires bits <= 64
    ensures Index(digest, bits) < Pow2(bits) && digest == remainder * Pow2(bits) + Index(digest, bits)
    ensures var r := RankOf(digest, bits);
            && 1 <= r <= 65 - bits && Divides(Pow2(r - 1), remainder)
            && (r < 65 - bits ==> !Divides(Pow2(r), remainder))
  {
    hide Divides, RankUpTo, Pow2;
    remainder := Remainder(digest, bits);
    RankMeaning(remainder, 65 - bits);
    Split(digest, Pow2(bits));
  }

  lemma Split(n: nat, d: nat)
    requires d > 0
    ensures n == Quotient(n, d) * d + n % d
  {
  }
}
