/**
 * The random generator of contrib/bloom: Park and Miller's "minimal standard" generator, computed
 * without leaving 32 bits, and the bit numbers drawn from it.
 */
module BloomRandom {

  const M: int := 0x7fff_ffff
  const A: int := 16807

  predicate IsInt32(x: int) { -0x8000_0000 <= x < 0x8000_0000 }

  /** C division and remainder: truncation toward zero. */
  function CDiv(a: int, b: int): int
    requires b > 0
  {
    if a >= 0 then a / b else -(-a / b)
  }

  function CRem(a: int, b: int): int
    requires b > 0
  {
    a - b * CDiv(a, b)
  }

  /** The new state of myRand. */
  function Advance(next: int): int {
    var x := A * CRem(next, 127773) - 2836 * CDiv(next, 127773);
    if x < 0 then x + M else x
  }

  /** The state mySrand leaves: the seed reinterpreted as int32, then reduced with C's remainder. */
  function Seeded(seed: nat): int
    requires seed < 0x1_0000_0000
  {
    CRem(if seed < 0x8000_0000 then seed else seed - 0x1_0000_0000, 0x7fff_fffe) + 1
  }

  lemma DivBounds(next: int)
    requires -M < next < M
    ensures var hi, lo := CDiv(next, 127773), CRem(next, 127773);
            && next == 127773 * hi + lo
            && (if next >= 0 then 0 <= lo < 127773 && 0 <= hi <= 16807 else -127773 < lo <= 0 && -16807 <= hi <= 0)
  {
  }

  /** A residue is determined by its range and a multiple of the modulus. */
  lemma ResidueUnique(x: int, r: int, k: int)
    requires 0 <= r < M && x == r + M * k
    ensures x % M == r
  {
  }

  /** A has an inverse modulo M, so it maps nothing but multiples of M to multiples of M. */
  lemma NoZeroDivisor(next: int, k: int)
    requires -M < next < M && A * next == M * k
    ensures next == 0
  {
    var inv, c := 1407677000, 11017;
    assert A * inv == 1 + M * c;
    assert inv * (A * next) == inv * (M * k);
    assert inv * (A * next) == (A * inv) * next == next + M * (c * next);
    assert inv * (M * k) == M * (inv * k);
    assert next == M * (inv * k - c * next);
  }

  /** Away from zero, myRand is one step of x := A x mod M, without overflow, and stays in [1, M - 1]. */
  lemma AdvanceIsLehmer(next: int)
    requires -M < next < M && next != 0
    ensures Advance(next) == A * next % M && 1 <= Advance(next) <= M - 1
    ensures var hi, lo := CDiv(next, 127773), CRem(next, 127773);
            IsInt32(A * lo) && IsInt32(2836 * hi) && IsInt32(A * lo - 2836 * hi)
  {
    DivBounds(next);
    var hi, lo := CDiv(next, 127773), CRem(next, 127773);
    var x := A * lo - 2836 * hi;
    assert A * next == x + M * hi;
    if x == 0 {
      NoZeroDivisor(next, hi);
    }
    if x < 0 {
      assert A * next == x + M + M * (hi - 1);
      ResidueUnique(A * next, x + M, hi - 1);
    } else {
      ResidueUnique(A * next, x, hi);
    }
  }

  /** mySrand stays within the generator's range but is zero for exactly two seeds. */
  lemma SeededRange(seed: nat)
    requires seed < 0x1_0000_0000
    ensures -M < Seeded(seed) < M
    ensures Seeded(seed) == 0 <==> seed == 0xffff_ffff || seed == 0x8000_0001
  {
  }

  /** What mySrand makes of a seed: small seeds count from one, those with the sign bit backwards from it. */
  lemma SeededExactly(seed: nat)
    requires seed < 0x1_0000_0000
    ensures seed < 0x8000_0000 ==> Seeded(seed) == seed % 0x7fff_fffe + 1
    ensures seed >= 0x8000_0000 ==> Seeded(seed) == 1 - (0x1_0000_0000 - seed) % 0x7fff_fffe
  {
  }

  /** The state after n calls of myRand. */
  function StateAfter(start: int, n: nat): int {
    if n == 0 then start else Advance(StateAfter(start, n - 1))
  }

  lemma {:induction false} StaysInRange(start: int, n: nat)
    requires -M < start < M && start != 0 && n > 0
    ensures 1 <= StateAfter(start, n) <= M - 1
  {
    if n > 1 { StaysInRange(start, n - 1); }
    AdvanceIsLehmer(StateAfter(start, n - 1));
  }

  lemma {:induction false} ZeroStaysZero(n: nat)
    ensures StateAfter(0, n) == 0
  {
    if n > 0 { ZeroStaysZero(n - 1); }
  }

  function Power(a: int, n: nat): int { if n == 0 then 1 else a * Power(a, n - 1) }

  lemma ModOfProduct(a: int, x: int)
    ensures a * (x % M) % M == a * x % M
  {
    var q, r := x / M, x % M;
    assert x == M * q + r;
    assert a * x == a * r + M * (a * q);
    SameResidue(a * x, a * r, a * q);
  }

  lemma SameResidue(x: int, y: int, k: int)
    requires x == y + M * k
    ensures x % M == y % M
  {
    var r := y % M;
    assert y == r + M * (y / M);
    assert x == r + M * (y / M + k);
    ResidueUnique(x, r, y / M + k);
    ResidueUnique(y, r, y / M);
  }

  /** After n calls the generator is at the n-th power of its multiplier times the start. */
  lemma {:induction false} StateIsPower(start: int, n: nat)
    requires -M < start < M && start != 0 && n > 0
    ensures StateAfter(start, n) == Power(A, n) * start % M
  {
    if n == 1 {
      assert StateAfter(start, 0) == start && Power(A, 1) == A * Power(A, 0) == A;
      AdvanceIsLehmer(start);
    } else {
      StateIsPower(start, n - 1);
      StaysInRange(start, n - 1);
      AdvanceIsLehmer(StateAfter(start, n - 1));
      ModOfProduct(A, Power(A, n - 1) * start);
      Regroup(A, Power(A, n - 1), start);
    }
  }

  lemma Regroup(a: int, x: int, y: int)
    ensures a * (x * y) == (a * x) * y
  {
  }

  /** The j-th bit number signValue draws for a seed, in a signature of the given number of bits. */
  function BitNumber(seed: nat, j: nat, nbits: nat): int
    requires seed < 0x1_0000_0000 && nbits > 0
  {
    CRem(StateAfter(Seeded(seed), j + 1) - 1, nbits)
  }

  lemma RemRange(a: int, b: int)
    requires b > 1
    ensures a >= 0 ==> 0 <= CRem(a, b) < b
    ensures CRem(-1, b) == -1
  {
  }

  lemma GoodSeedBit(seed: nat, j: nat, nbits: nat)
    requires seed < 0x1_0000_0000 && nbits > 1 && Seeded(seed) != 0
    ensures 0 <= BitNumber(seed, j, nbits) < nbits
  {
    SeededRange(seed);
    StaysInRange(Seeded(seed), j + 1);
    RemRange(StateAfter(Seeded(seed), j + 1) - 1, nbits);
  }

  /** The bit number drawn in terms of the seed alone. */
  lemma BitNumberExactly(seed: nat, j: nat, nbits: nat)
    requires seed < 0x1_0000_0000 && nbits > 1 && Seeded(seed) != 0
    ensures BitNumber(seed, j, nbits) == (Power(A, j + 1) * Seeded(seed) % M - 1) % nbits
  {
    SeededRange(seed);
    StaysInRange(Seeded(seed), j + 1);
    StateIsPower(Seeded(seed), j + 1);
    RemIsMod(StateAfter(Seeded(seed), j + 1) - 1, nbits);
  }

  lemma RemIsMod(a: nat, b: nat)
    requires b > 0
    ensures CRem(a, b) == a % b
  {
  }

  lemma ZeroSeedBit(seed: nat, j: nat, nbits: nat)
    requires seed < 0x1_0000_0000 && nbits > 1 && Seeded(seed) == 0
    ensures BitNumber(seed, j, nbits) == -1
  {
    ZeroStaysZero(j + 1);
    RemRange(0, nbits);
  }

  /** Every bit number drawn is a position of the signature, exactly unless the seed is one of the two. */
  lemma BitsInRangeExactly(seed: nat, nbits: nat)
    requires seed < 0x1_0000_0000 && nbits > 1
    ensures (forall j: nat :: 0 <= BitNumber(seed, j, nbits) < nbits)
            <==> seed != 0xffff_ffff && seed != 0x8000_0001
  {
    SeededRange(seed);
    if Seeded(seed) == 0 {
      ZeroSeedBit(seed, 0, nbits);
    } else {
      forall j: nat ensures 0 <= BitNumber(seed, j, nbits) < nbits {
        GoodSeedBit(seed, j, nbits);
      }
    }
  }

  /** The static variable next of blutils.c. */
  class Generator {
    var next: int

    constructor ()
      ensures next == 0
    {
      next := 0;
    }

    /** mySrand. */
    method Srand(seed: nat)
      requires seed < 0x1_0000_0000
      modifies this
      ensures next == Seeded(seed)
    {
      next := if seed < 0x8000_0000 then seed else seed - 0x1_0000_0000;
      next := CRem(next, 0x7fff_fffe) + 1;
    }

    /** myRand. */
    method Rand() returns (r: int)
      requires -M < next < M
      modifies this
      ensures next == A * old(next) % M && next == Advance(old(next)) && r == next - 1
      ensures if old(next) == 0 then next == 0 && r == -1 else 0 <= r <= 0x7fff_fffd
    {
      if next != 0 { AdvanceIsLehmer(next); }
      var hi := CDiv(next, 127773);
      var lo := CRem(next, 127773);
      var x := 16807 * lo - 2836 * hi;
      if x < 0 { x := x + 0x7fff_ffff; }
      next := x;
      return x - 1;
    }
  }
}
