/**
 * Bloom signatures: signValue sets the bits of a value, a row's signature is the union over its
 * columns, and a scan tests word by word that the query's bits are among the row's.
 */
module BloomSignature {
  import opened BloomPage
  import opened BloomRandom
  import opened Words
  import P = BloomProtocol

  const WORD_BITS: nat := 16

  /** INDEX_MAX_KEYS. */
  const MAX_COLUMNS: nat := 32

  /**
   * Signature length in words, and number of bits drawn for each column. The generator can stop and
   * draw the bit number -1 (see BitsInRangeExactly). SETBIT then shifts by -1, which C leaves
   * undefined: stray stands for what the compiler makes of it, any word but always the same.
   */
  datatype Options = Options(length: nat, bitSize: seq<nat>, stray: Word)

  predicate ValidOptions(o: Options) { 1 <= o.length <= MAX_WORDS && |o.bitSize| <= MAX_COLUMNS }

  function NBits(o: Options): nat { o.length * WORD_BITS }

  // ---------------------------------------------------------------------------------------------
  // Bits of a signature

  /** The set bits of a signature. */
  function BitsOf(sign: Signature): set<int> {
    set n | 0 <= n < |sign| * WORD_BITS && Bit(sign[n / WORD_BITS], n % WORD_BITS)
  }

  lemma WordWidth()
    ensures Pow2(16) == 0x1_0000
  {
    assert Pow2(4) == 16 && Pow2(8) == 256;
    assert Pow2(12) == 4096;
  }

  lemma {:induction false} Pow2Grows(k: nat, n: nat)
    requires k < n
    ensures Pow2(k) < Pow2(n)
    decreases n
  {
    if k < n - 1 { Pow2Grows(k, n - 1); }
  }

  function OneBit(k: nat): Word
    requires k < WORD_BITS
  {
    WordWidth();
    Pow2Grows(k, 16);
    Pow2(k)
  }

  /** Or-ing a mask into one word adds the bits of the mask, there. */
  lemma MaskAdded(sign: Signature, w: nat, mask: Word, after: Signature)
    requires w < |sign| && Or(sign[w], mask) < 0x1_0000 && after == sign[w := Or(sign[w], mask)]
    ensures forall n :: n in BitsOf(after) <==>
              n in BitsOf(sign) || (w * WORD_BITS <= n < (w + 1) * WORD_BITS && Bit(mask, n - w * WORD_BITS))
  {
    forall n | 0 <= n < |sign| * WORD_BITS
      ensures Bit(after[n / WORD_BITS], n % WORD_BITS) <==>
              Bit(sign[n / WORD_BITS], n % WORD_BITS) || (n / WORD_BITS == w && Bit(mask, n % WORD_BITS))
    {
      OrBit(sign[w], mask, n % WORD_BITS);
    }
  }

  /** The word-wise test of blgetbitmap is containment of the query's bits in the tuple's. */
  lemma MatchesIsContainment(sign: Signature, query: Signature)
    requires |sign| == |query|
    ensures P.Matches(sign, query) <==> BitsOf(query) <= BitsOf(sign)
  {
    forall i | 0 <= i < |sign| ensures And(sign[i], query[i]) == query[i] <==> Contains(sign[i], query[i]) {
      AndContains(sign[i], query[i]);
    }
    if P.Matches(sign, query) {
      forall n | n in BitsOf(query) ensures n in BitsOf(sign) {
        assert And(sign[n / WORD_BITS], query[n / WORD_BITS]) == query[n / WORD_BITS];
      }
    }
    if BitsOf(query) <= BitsOf(sign) {
      forall i | 0 <= i < |sign| ensures Contains(sign[i], query[i]) {
        forall k: nat | Bit(query[i], k) ensures Bit(sign[i], k) {
          WordWidth();
          if k >= WORD_BITS { HighBitsClear(query[i], 16, k); }
          var n := i * WORD_BITS + k;
          assert n / WORD_BITS == i && n % WORD_BITS == k;
          assert n in BitsOf(query);
        }
      }
    }
  }

  // ---------------------------------------------------------------------------------------------
  // Values, rows and scan keys

  type UInt32 = x: nat | x < 0x1_0000_0000

  /** The seed signValue settles on: the hash mixed with the first number drawn for the column. */
  function Seed(attno: nat, hash: UInt32): UInt32
    requires attno < MAX_COLUMNS
  {
    AdvanceIsLehmer(Seeded(attno));
    assert Pow2(8) == 256;
    assert Pow2(16) == 65536;
    assert Pow2(24) == 256 * 65536;
    assert Pow2(32) == 0x1_0000_0000;
    XorBound(hash, Advance(Seeded(attno)) - 1, 32);
    Xor(hash, Advance(Seeded(attno)) - 1)
  }

  /** The bits that SETBIT sets for a bit number. */
  function BitsFor(o: Options, n: int): set<int> { if n < 0 then BitsOf([o.stray]) else {n} }

  lemma BitNumberRange(seed: UInt32, j: nat, nbits: nat)
    requires nbits > 1
    ensures -1 <= BitNumber(seed, j, nbits) < nbits
    ensures BitNumber(seed, j, nbits) == -1 <==> Seeded(seed) == 0
  {
    if Seeded(seed) == 0 { ZeroSeedBit(seed, j, nbits); } else { GoodSeedBit(seed, j, nbits); }
  }

  lemma StrayAdded(o: Options, sign: Signature, after: Signature)
    requires sign != [] && Or(sign[0], o.stray) < 0x1_0000 && after == sign[0 := Or(sign[0], o.stray)]
    ensures BitsOf(after) == BitsOf(sign) + BitsOf([o.stray])
  {
    MaskAdded(sign, 0, o.stray, after);
  }

  lemma BitAdded(sign: Signature, n: nat, after: Signature)
    requires n < |sign| * WORD_BITS
    requires var w, k := n / WORD_BITS, n % WORD_BITS;
             Or(sign[w], Pow2(k)) < 0x1_0000 && after == sign[w := Or(sign[w], Pow2(k))]
    ensures BitsOf(after) == BitsOf(sign) + {n}
  {
    var w, k := n / WORD_BITS, n % WORD_BITS;
    MaskAdded(sign, w, OneBit(k), after);
    forall i: nat ensures Bit(OneBit(k), i) <==> i == k { Pow2Bit(k, i); }
  }

  /** The word that SETBIT shifts into place. */
  function Mask(o: Options, n: int): Word {
    var k := CRem(n, WORD_BITS);
    if k < 0 then o.stray else OneBit(k)
  }

  lemma MaskedWord(o: Options, sign: Signature, n: int)
    requires sign != [] && -1 <= n < |sign| * WORD_BITS
    ensures var w, mask := CDiv(n, WORD_BITS), Mask(o, n);
            && 0 <= w < |sign| && Or(sign[w], mask) < 0x1_0000
            && BitsOf(sign[w := Or(sign[w], mask)]) == BitsOf(sign) + BitsFor(o, n)
  {
    var w, mask := CDiv(n, WORD_BITS), Mask(o, n);
    WordWidth();
    OrBound(sign[w], mask, 16);
    var after := sign[w := Or(sign[w], mask)];
    if n < 0 { StrayAdded(o, sign, after); } else { BitAdded(sign, n, after); }
  }

  /** The SETBIT macro on a word array. */
  method SetBit(o: Options, sign: array<Word>, n: int)
    requires sign.Length > 0 && -1 <= n < sign.Length * WORD_BITS
    modifies sign
    ensures BitsOf(sign[..]) == old(BitsOf(sign[..])) + BitsFor(o, n)
  {
    MaskedWord(o, sign[..], n);
    var w := CDiv(n, WORD_BITS);
    ghost var after := sign[..][w := Or(sign[w], Mask(o, n))];
    sign[w] := Or(sign[w], Mask(o, n));
    assert sign[..] == after;
  }

  /** The generator is in the state it has after j draws from the seed. */
  ghost predicate Drawn(gen: Generator, seed: UInt32, j: nat)
    reads gen
  {
    gen.next == StateAfter(Seeded(seed), j) && -M < gen.next < M
  }

  /** One bit number: myRand() % nbits. */
  method Draw(gen: Generator, nbits: nat, ghost seed: UInt32, ghost j: nat) returns (nBit: int)
    requires nbits > 1 && Drawn(gen, seed, j)
    modifies gen
    ensures Drawn(gen, seed, j + 1)
    ensures nBit == BitNumber(seed, j, nbits) && -1 <= nBit < nbits
  {
    var r := gen.Rand();
    BitNumberRange(seed, j, nbits);
    nBit := CRem(r, nbits);
  }

  /** The bits of the first count bit numbers of a seed. */
  function DrawnBits(o: Options, seed: UInt32, count: nat): set<int>
    requires ValidOptions(o)
  {
    if count == 0 then {}
    else DrawnBits(o, seed, count - 1) + BitsFor(o, BitNumber(seed, count - 1, NBits(o)))
  }

  /** The bits signValue sets for a value with this hash. */
  function ValueBits(o: Options, attno: nat, hash: UInt32): set<int>
    requires ValidOptions(o) && attno < |o.bitSize|
  {
    DrawnBits(o, Seed(attno, hash), o.bitSize[attno])
  }

  /** signValue, on the words of a signature. */
  method SignValue(o: Options, gen: Generator, sign: array<Word>, attno: nat, hash: UInt32)
    requires ValidOptions(o) && attno < |o.bitSize| && sign.Length == o.length
    modifies gen, sign
    ensures BitsOf(sign[..]) == old(BitsOf(sign[..])) + ValueBits(o, attno, hash)
  {
    gen.Srand(attno);
    SeededRange(attno);
    var r := gen.Rand();
    ghost var seed := Seed(attno, hash);
    gen.Srand(Xor(hash, r));
    SeededRange(seed);
    ghost var was := BitsOf(sign[..]);
    for j := 0 to o.bitSize[attno]
      invariant Drawn(gen, seed, j)
      invariant BitsOf(sign[..]) == was + DrawnBits(o, seed, j)
    {
      var nBit := Draw(gen, NBits(o), seed, j);
      SetBit(o, sign, nBit);
    }
  }

  /** The seed has the bits in which the hash and the first number of the column's own sequence differ. */
  lemma SeedBits(attno: nat, hash: UInt32, k: nat)
    requires attno < MAX_COLUMNS
    ensures 16807 * (attno + 1) % 0x7fff_ffff >= 1
    ensures Bit(Seed(attno, hash), k) <==> Bit(hash, k) != Bit(16807 * (attno + 1) % 0x7fff_ffff - 1, k)
  {
    FirstDrawn(attno);
    XorBit(hash, Advance(Seeded(attno)) - 1, k);
  }

  lemma FirstDrawn(attno: nat)
    requires attno < MAX_COLUMNS
    ensures Advance(Seeded(attno)) == 16807 * (attno + 1) % 0x7fff_ffff >= 1
  {
    SeededExactly(attno);
    AdvanceIsLehmer(Seeded(attno));
  }

  /** Different hashes of a column have different seeds. */
  lemma SeedsDiffer(attno: nat, hash: UInt32, hash': UInt32)
    requires attno < MAX_COLUMNS && Seed(attno, hash) == Seed(attno, hash')
    ensures hash == hash'
  {
    forall k: nat ensures Bit(hash, k) == Bit(hash', k) {
      SeedBits(attno, hash, k);
      SeedBits(attno, hash', k);
    }
    SameBitsSameWord(hash, hash');
  }

  lemma {:induction false} DrawnBitsExactly(o: Options, seed: UInt32, count: nat, n: int)
    requires ValidOptions(o)
    ensures n in DrawnBits(o, seed, count) <==>
            exists j: nat :: j < count && n in BitsFor(o, BitNumber(seed, j, NBits(o)))
  {
    if count > 0 { DrawnBitsExactly(o, seed, count - 1, n); }
  }

  /** The j-th number that the generator draws from the seed of a value, as a position in the signature. */
  function DrawnAt(o: Options, seed: UInt32, j: nat): int
    requires ValidOptions(o)
  {
    (Power(A, j + 1) * Seeded(seed) % 0x7fff_ffff - 1) % (o.length * 16)
  }

  /** The bits of a value are the positions of the first numbers drawn from its seed. */
  lemma ValueBitsExactly(o: Options, attno: nat, hash: UInt32, n: int)
    requires ValidOptions(o) && attno < |o.bitSize| && Seeded(Seed(attno, hash)) != 0
    ensures n in ValueBits(o, attno, hash) <==>
            exists j: nat :: j < o.bitSize[attno] && n == DrawnAt(o, Seed(attno, hash), j)
  {
    var seed := Seed(attno, hash);
    DrawnBitsExactly(o, seed, o.bitSize[attno], n);
    forall j: nat ensures BitNumber(seed, j, NBits(o)) == DrawnAt(o, seed, j) && DrawnAt(o, seed, j) >= 0 {
      BitNumberExactly(seed, j, NBits(o));
    }
  }

  lemma SeedOfHashOne()
    ensures Seed(0, 1) == 16807
  {
    FirstDrawn(0);
    assert Xor(0, 8403) == 8403;
    assert Xor(1, 16806) == 16807;
  }

  lemma BitOfSeed16807()
    ensures BitNumber(16807, 0, 80) == 55
  {
    SeededExactly(16807);
    assert Power(A, 1) == A * Power(A, 0) == A;
    BitNumberExactly(16807, 0, 80);
  }

  lemma OneBitDrawn(o: Options, attno: nat, hash: UInt32, seed: UInt32, n: nat)
    requires ValidOptions(o) && attno < |o.bitSize| && o.bitSize[attno] == 1
    requires Seed(attno, hash) == seed && BitNumber(seed, 0, NBits(o)) == n
    ensures ValueBits(o, attno, hash) == {n}
  {
    assert DrawnBits(o, seed, 0) == {};
    assert DrawnBits(o, seed, 1) == DrawnBits(o, seed, 0) + BitsFor(o, n);
  }

  /** With one bit drawn for an 80-bit signature, hash 1 in the first column sets bit 55. */
  lemma HashOneSetsBit55(o: Options, hash: UInt32)
    requires o.length == 5 && o.bitSize == [1] && hash == 1
    ensures ValueBits(o, 0, hash) == {55}
  {
    SeedOfHashOne();
    BitOfSeed16807();
    OneBitDrawn(o, 0, hash, 16807, 55);
  }

  /** A column value; columns can be null. */
  datatype Column<D> = Null | Value(d: D)

  /** The hash support function of every column, as initBloomState collects them. */
  type HashFn<!D> = (nat, D) -> UInt32

  /** The bits of a row's non-null columns. */
  function RowBits<D>(o: Options, hash: HashFn<D>, row: seq<Column<D>>): set<int>
    requires ValidOptions(o) && |row| <= |o.bitSize|
  {
    if row == [] then {}
    else
      var n := |row| - 1;
      RowBits(o, hash, row[..n]) + if row[n].Null? then {} else ValueBits(o, n, hash(n, row[n].d))
  }

  /** A row's bits are those of its columns that are not null. */
  lemma {:induction false} RowBitsExactly<D>(o: Options, hash: HashFn<D>, row: seq<Column<D>>, n: int)
    requires ValidOptions(o) && |row| <= |o.bitSize|
    ensures n in RowBits(o, hash, row) <==>
            exists i :: 0 <= i < |row| && row[i].Value? && n in ValueBits(o, i, hash(i, row[i].d))
  {
    if row != [] {
      var m := |row| - 1;
      RowBitsExactly(o, hash, row[..m], n);
      if i :| 0 <= i < |row| && row[i].Value? && n in ValueBits(o, i, hash(i, row[i].d)) {
        assert i < m ==> row[..m][i] == row[i];
      }
    }
  }

  method NewSignature(o: Options) returns (sign: array<Word>)
    ensures fresh(sign) && sign.Length == o.length && BitsOf(sign[..]) == {}
  {
    sign := new Word[o.length](_ => 0);
    forall n | 0 <= n < o.length * WORD_BITS ensures !Bit(sign[..][n / WORD_BITS], n % WORD_BITS) {
      ZeroBit(n % WORD_BITS);
    }
  }

  /** BloomFormTuple. */
  method FormTuple<D>(o: Options, gen: Generator, hash: HashFn<D>, tid: nat, row: seq<Column<D>>) returns (t: Tuple)
    requires ValidOptions(o) && |row| <= |o.bitSize|
    modifies gen
    ensures t.tid == tid && |t.sign| == o.length && BitsOf(t.sign) == RowBits(o, hash, row)
  {
    var sign := NewSignature(o);
    for i := 0 to |row|
      invariant fresh(sign) && BitsOf(sign[..]) == RowBits(o, hash, row[..i])
    {
      assert row[..i + 1][..i] == row[..i];
      if row[i].Value? {
        SignValue(o, gen, sign, i, hash(i, row[i].d));
      }
    }
    assert row[..|row|] == row;
    t := Tuple(tid, sign[..]);
  }

  /** One scan key: an equality on a column (attno counts from zero here). */
  datatype ScanKey<D> = ScanKey(attno: nat, arg: Column<D>)

  predicate ValidKeys<D>(o: Options, keys: seq<ScanKey<D>>) {
    forall i :: 0 <= i < |keys| ==> keys[i].attno < |o.bitSize|
  }

  /** The bits of the keys that are not null. */
  function KeyBits<D>(o: Options, hash: HashFn<D>, keys: seq<ScanKey<D>>): set<int>
    requires ValidOptions(o) && ValidKeys(o, keys)
  {
    if keys == [] then {}
    else
      var n := |keys| - 1;
      var key := keys[n];
      KeyBits(o, hash, keys[..n]) + if key.arg.Null? then {} else ValueBits(o, key.attno, hash(key.attno, key.arg.d))
  }

  /** The keys' bits are those of their values. */
  lemma {:induction false} KeyBitsExactly<D>(o: Options, hash: HashFn<D>, keys: seq<ScanKey<D>>, n: int)
    requires ValidOptions(o) && ValidKeys(o, keys)
    ensures n in KeyBits(o, hash, keys) <==>
            exists i :: 0 <= i < |keys| && keys[i].arg.Value?
                        && n in ValueBits(o, keys[i].attno, hash(keys[i].attno, keys[i].arg.d))
  {
    if keys != [] {
      var m := |keys| - 1;
      KeyBitsExactly(o, hash, keys[..m], n);
      if i :| 0 <= i < |keys| && keys[i].arg.Value?
              && n in ValueBits(o, keys[i].attno, hash(keys[i].attno, keys[i].arg.d)) {
        assert i < m ==> keys[..m][i] == keys[i];
      }
    }
  }

  /** The start of blgetbitmap: the scan signature, or nothing to find when some key is null. */
  method FormQuery<D>(o: Options, gen: Generator, hash: HashFn<D>, keys: seq<ScanKey<D>>)
    returns (hopeless: bool, query: Signature)
    requires ValidOptions(o) && ValidKeys(o, keys)
    modifies gen
    ensures hopeless <==> exists i :: 0 <= i < |keys| && keys[i].arg.Null?
    ensures !hopeless ==> |query| == o.length && BitsOf(query) == KeyBits(o, hash, keys)
  {
    var sign := NewSignature(o);
    for i := 0 to |keys|
      invariant fresh(sign)
      invariant forall j :: 0 <= j < i ==> keys[j].arg.Value?
      invariant BitsOf(sign[..]) == KeyBits(o, hash, keys[..i])
    {
      if keys[i].arg.Null? { return true, []; }
      assert keys[..i + 1][..i] == keys[..i];
      SignValue(o, gen, sign, keys[i].attno, hash(keys[i].attno, keys[i].arg.d));
    }
    assert keys[..|keys|] == keys;
    return false, sign[..];
  }

  /** The inner loop of blgetbitmap. */
  method TestTuple(sign: Signature, query: Signature) returns (res: bool)
    requires |sign| == |query|
    ensures res == P.Matches(sign, query)
  {
    res := true;
    for i := 0 to |query|
      invariant forall j :: 0 <= j < i ==> And(sign[j], query[j]) == query[j]
    {
      if And(sign[i], query[i]) != query[i] { return false; }
    }
  }

  /** The row satisfies the keys under column equalities eq. */
  ghost predicate Satisfies<D(!new)>(eq: (nat, D, D) -> bool, row: seq<Column<D>>, keys: seq<ScanKey<D>>) {
    forall i :: 0 <= i < |keys| ==>
      && keys[i].attno < |row| && row[keys[i].attno].Value? && keys[i].arg.Value?
      && eq(keys[i].attno, row[keys[i].attno].d, keys[i].arg.d)
  }

  /** Equal values hash alike. */
  ghost predicate RespectsEquality<D(!new)>(eq: (nat, D, D) -> bool, hash: HashFn<D>) {
    forall a, x, y :: eq(a, x, y) ==> hash(a, x) == hash(a, y)
  }

  lemma {:induction false} ColumnBitsInRow<D>(o: Options, hash: HashFn<D>, row: seq<Column<D>>, a: nat)
    requires ValidOptions(o) && |row| <= |o.bitSize| && a < |row| && row[a].Value?
    ensures ValueBits(o, a, hash(a, row[a].d)) <= RowBits(o, hash, row)
  {
    var n := |row| - 1;
    if a < n { ColumnBitsInRow(o, hash, row[..n], a); }
  }

  lemma {:induction false} SatisfiedBits<D(!new)>(
    o: Options, eq: (nat, D, D) -> bool, hash: HashFn<D>, row: seq<Column<D>>, keys: seq<ScanKey<D>>)
    requires ValidOptions(o) && |row| <= |o.bitSize| && ValidKeys(o, keys)
    requires RespectsEquality(eq, hash) && Satisfies(eq, row, keys)
    ensures KeyBits(o, hash, keys) <= RowBits(o, hash, row)
  {
    if keys != [] {
      var n := |keys| - 1;
      var a := keys[n].attno;
      SatisfiedBits(o, eq, hash, row, keys[..n]);
      ColumnBitsInRow(o, hash, row, a);
      assert eq(a, row[a].d, keys[n].arg.d);
    }
  }

  /** No false negatives: a row that satisfies the keys passes the word-wise test of the scan. */
  lemma NoFalseNegatives<D(!new)>(
    o: Options, eq: (nat, D, D) -> bool, hash: HashFn<D>, row: seq<Column<D>>, keys: seq<ScanKey<D>>,
    sign: Signature, query: Signature)
    requires ValidOptions(o) && |row| <= |o.bitSize| && ValidKeys(o, keys)
    requires RespectsEquality(eq, hash) && Satisfies(eq, row, keys)
    requires |sign| == |query| == o.length
    requires BitsOf(sign) == RowBits(o, hash, row)
    requires BitsOf(query) == KeyBits(o, hash, keys)
    ensures P.Matches(sign, query)
  {
    SatisfiedBits(o, eq, hash, row, keys);
    MatchesIsContainment(sign, query);
  }
}
