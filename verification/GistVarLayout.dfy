/**
 * The stored form of btree_gist's variable-length keys: a varlena holding one varlena (a leaf key)
 * or two, the second int-aligned (an inner key). Which of the two it is can only be told from the
 * sizes.
 */
module GistVarLayout {
  import opened ByteStrings
  import K = GistVarKey

  const VARHDRSZ: nat := 4

  /** The size field of a 4-byte varlena header counts 30 bits. */
  const SIZE_LIMIT: nat := 0x4000_0000

  function IntAlign(n: nat): nat { (n + 3) / 4 * 4 }

  /** The low n bytes of v, least significant first. */
  function LittleEndian(v: nat, n: nat): (b: Bytes)
    ensures |b| == n
  {
    if n == 0 then [] else [v % 256] + LittleEndian(v / 256, n - 1)
  }

  function Value(b: Bytes): nat {
    if b == [] then 0 else b[0] as int + 256 * Value(b[1..])
  }

  function Pow256(n: nat): nat { if n == 0 then 1 else 256 * Pow256(n - 1) }

  lemma {:induction false} LittleEndianRoundTrip(v: nat, n: nat)
    requires v < Pow256(n)
    ensures Value(LittleEndian(v, n)) == v
  {
    if n > 0 {
      LittleEndianRoundTrip(v / 256, n - 1);
      assert LittleEndian(v, n)[1..] == LittleEndian(v / 256, n - 1);
    }
  }

  /** SET_VARSIZE on a little-endian machine: the size shifted left by two. */
  function Header(size: nat): (h: Bytes)
    requires size < SIZE_LIMIT
    ensures |h| == VARHDRSZ
  {
    LittleEndian(size * 4, VARHDRSZ)
  }

  /** VARSIZE of the varlena that starts at offset at. */
  function VarSize(buf: Bytes, at: nat): nat
    requires at + VARHDRSZ <= |buf|
  {
    Value(buf[at..at + VARHDRSZ]) / 4
  }

  function Varlena(x: Bytes): (v: Bytes)
    requires |x| + VARHDRSZ < SIZE_LIMIT
    ensures |v| == |x| + VARHDRSZ
  {
    Header(|x| + VARHDRSZ) + x
  }

  /** The least multiple of 4 that is not less. */
  lemma IntAlignLeast(n: nat, m: nat)
    ensures IntAlign(n) % 4 == 0 && n <= IntAlign(n) < n + 4
    ensures m % 4 == 0 && n <= m ==> IntAlign(n) <= m
  {
  }

  lemma IntAlignMonotone(a: nat, b: nat)
    requires a <= b
    ensures a <= IntAlign(a) <= IntAlign(b)
  {
  }

  function Zeros(n: nat): (z: Bytes)
    ensures |z| == n
  {
    seq(n, _ => 0)
  }

  predicate Fits(lower: Bytes, upper: Bytes) {
    2 * VARHDRSZ + IntAlign(|lower| + VARHDRSZ) + |upper| < SIZE_LIMIT
  }

  /** gbt_var_key_from_datum. */
  function KeyFromDatum(x: Bytes): Bytes
    requires |x| + 2 * VARHDRSZ < SIZE_LIMIT
  {
    Varlena(Varlena(x))
  }

  /** gbt_var_key_copy. */
  function KeyCopy(lower: Bytes, upper: Bytes): Bytes
    requires Fits(lower, upper)
  {
    var l := Varlena(lower);
    Varlena(l + Zeros(IntAlign(|l|) - |l|) + Varlena(upper))
  }

  /** The second varlena starts at the first multiple of 4, counted from the data, not before the end of the first. */
  lemma SecondStart(lower: Bytes, upper: Bytes)
    requires Fits(lower, upper)
    ensures var k := KeyCopy(lower, upper);
            var at := |k| - VARHDRSZ - |Varlena(upper)|;
            && at % 4 == 0 && |Varlena(lower)| <= at < |Varlena(lower)| + 4
            && k[VARHDRSZ..VARHDRSZ + |Varlena(lower)|] == Varlena(lower) && k[VARHDRSZ + at..] == Varlena(upper)
  {
    IntAlignLeast(|Varlena(lower)|, 0);
    var l := Varlena(lower);
    var data := l + Zeros(IntAlign(|l|) - |l|) + Varlena(upper);
    var k := KeyCopy(lower, upper);
    assert k[VARHDRSZ..] == data;
    assert data[..|l|] == l && data[IntAlign(|l|)..] == Varlena(upper);
    assert k[VARHDRSZ..VARHDRSZ + |l|] == data[..|l|];
    assert k[VARHDRSZ + IntAlign(|l|)..] == data[IntAlign(|l|)..];
  }

  /** A stored key that gbt_var_key_readable can take apart. */
  predicate Stored(k: Bytes) {
    && 2 * VARHDRSZ <= |k| && VarSize(k, 0) == |k|
    && var ls := VarSize(k, VARHDRSZ);
       && VARHDRSZ <= ls && VARHDRSZ + ls <= |k|
       && (|k| > VARHDRSZ + ls ==>
             var at := VARHDRSZ + IntAlign(ls);
             at + VARHDRSZ <= |k| && VARHDRSZ <= VarSize(k, at) && at + VarSize(k, at) == |k|)
  }

  datatype Readable = Readable(key: K.Key, isLeaf: bool)

  /** gbt_var_key_readable; isLeaf says that lower and upper are the same pointer. */
  function ReadKey(k: Bytes): Readable
    requires Stored(k)
  {
    var ls := VarSize(k, VARHDRSZ);
    var lower := k[2 * VARHDRSZ..VARHDRSZ + ls];
    if VarSize(k, 0) > VARHDRSZ + ls then
      var at := VARHDRSZ + IntAlign(ls);
      Readable(K.Key(lower, k[at + VARHDRSZ..at + VarSize(k, at)]), false)
    else
      Readable(K.Key(lower, lower), true)
  }

  /** The truncated key is small enough to be allocated. */
  predicate CutFits(r: K.Key, cpfLength: nat) {
    var t := K.Truncate(r, cpfLength);
    Fits(t.lower, t.upper)
  }

  /** gbt_var_node_truncate on the stored form. */
  function NodeTruncate(k: Bytes, cpfLength: nat): Bytes
    requires Stored(k) && CutFits(ReadKey(k).key, cpfLength)
  {
    TruncatedLayout(ReadKey(k).key, cpfLength)
  }

  function TruncatedLayout(r: K.Key, cpfLength: nat): Bytes
    requires CutFits(r, cpfLength)
  {
    var len1 := if |r.lower| < cpfLength + 1 then |r.lower| else cpfLength + 1;
    var len2 := if |r.upper| < cpfLength + 1 then |r.upper| else cpfLength + 1;
    var out1 := Header(len1 + VARHDRSZ) + r.lower[..len1];
    var out2 := Header(len2 + VARHDRSZ) + r.upper[..len2];
    Header(2 * VARHDRSZ + IntAlign(len1 + VARHDRSZ) + len2)
    + out1 + Zeros(IntAlign(len1 + VARHDRSZ) - (len1 + VARHDRSZ)) + out2
  }

  /** A size written by SET_VARSIZE is read back by VARSIZE, wherever the varlena lies. */
  lemma SizeRoundTrip(buf: Bytes, before: Bytes, x: Bytes, after: Bytes)
    requires |x| + VARHDRSZ < SIZE_LIMIT && buf == before + Varlena(x) + after
    ensures VarSize(buf, |before|) == |x| + VARHDRSZ
    ensures buf[|before| + VARHDRSZ..|before| + VARHDRSZ + |x|] == x
  {
    assert buf[|before|..|before| + VARHDRSZ] == Header(|x| + VARHDRSZ);
    assert Pow256(4) == 0x1_0000_0000;
    LittleEndianRoundTrip((|x| + VARHDRSZ) * 4, VARHDRSZ);
  }

  /** A leaf key reads back as its one value, and as a leaf. */
  lemma LeafKeyRoundTrip(x: Bytes)
    requires |x| + 2 * VARHDRSZ < SIZE_LIMIT
    ensures Stored(KeyFromDatum(x)) && ReadKey(KeyFromDatum(x)) == Readable(K.LeafKey(x), true)
  {
    var k := KeyFromDatum(x);
    assert k == [] + Varlena(Varlena(x)) + [];
    SizeRoundTrip(k, [], Varlena(x), []);
    assert k == Header(|x| + 2 * VARHDRSZ) + Varlena(x) + [];
    SizeRoundTrip(k, Header(|x| + 2 * VARHDRSZ), x, []);
  }

  /** Where the parts of an inner key lie. */
  lemma InnerKeyParts(h: Bytes, lower: Bytes, pad: Bytes, upper: Bytes, k: Bytes)
    requires |lower| + VARHDRSZ < SIZE_LIMIT && |upper| + VARHDRSZ < SIZE_LIMIT
    requires k == h + Varlena(lower) + pad + Varlena(upper) && |h| == VARHDRSZ
    ensures VarSize(k, VARHDRSZ) == |lower| + VARHDRSZ
    ensures k[2 * VARHDRSZ..2 * VARHDRSZ + |lower|] == lower
    ensures var at := 2 * VARHDRSZ + |lower| + |pad|;
            VarSize(k, at) == |upper| + VARHDRSZ && k[at + VARHDRSZ..at + VARHDRSZ + |upper|] == upper
  {
    assert k == h + Varlena(lower) + (pad + Varlena(upper));
    SizeRoundTrip(k, h, lower, pad + Varlena(upper));
    assert k == (h + Varlena(lower) + pad) + Varlena(upper) + [];
    SizeRoundTrip(k, h + Varlena(lower) + pad, upper, []);
  }

  /** An inner key reads back as its two bounds, and never as a leaf, even when the bounds are equal. */
  lemma KeyCopyRoundTrip(lower: Bytes, upper: Bytes)
    requires Fits(lower, upper)
    ensures Stored(KeyCopy(lower, upper))
    ensures ReadKey(KeyCopy(lower, upper)) == Readable(K.Key(lower, upper), false)
  {
    var size := |lower| + VARHDRSZ;
    ReadInnerKey(lower, Zeros(IntAlign(size) - size), upper);
  }

  lemma ReadInnerKey(lower: Bytes, pad: Bytes, upper: Bytes)
    requires Fits(lower, upper) && |lower| + VARHDRSZ + |pad| == IntAlign(|lower| + VARHDRSZ)
    ensures var k := Varlena(Varlena(lower) + pad + Varlena(upper));
            Stored(k) && ReadKey(k) == Readable(K.Key(lower, upper), false)
  {
    var body := Varlena(lower) + pad + Varlena(upper);
    var h, k := Header(|body| + VARHDRSZ), Varlena(body);
    WholeSize(body);
    Regroup(h, Varlena(lower), pad, Varlena(upper));
    InnerKeyParts(h, lower, pad, upper, k);
  }

  lemma WholeSize(body: Bytes)
    requires |body| + VARHDRSZ < SIZE_LIMIT
    ensures VarSize(Varlena(body), 0) == |Varlena(body)|
  {
    assert Varlena(body) == [] + Varlena(body) + [];
    SizeRoundTrip(Varlena(body), [], body, []);
  }

  lemma Regroup(a: Bytes, b: Bytes, c: Bytes, d: Bytes)
    ensures a + (b + c + d) == a + b + c + d
  {
  }

  /** Truncation of the stored form is truncation of the two bounds, and yields an inner key. */
  lemma NodeTruncateRefines(k: Bytes, cpfLength: nat)
    requires Stored(k) && CutFits(ReadKey(k).key, cpfLength)
    ensures Stored(NodeTruncate(k, cpfLength))
    ensures ReadKey(NodeTruncate(k, cpfLength)) == Readable(K.Truncate(ReadKey(k).key, cpfLength), false)
  {
    var r := ReadKey(k).key;
    TruncatedBytes(r, cpfLength);
    var t := K.Truncate(r, cpfLength);
    KeyCopyRoundTrip(t.lower, t.upper);
  }

  /** Header, first varlena, padding and second varlena, one after the other. */
  function InnerLayout(lower: Bytes, upper: Bytes): Bytes
    requires Fits(lower, upper)
  {
    var size := |lower| + VARHDRSZ;
    Header(2 * VARHDRSZ + IntAlign(size) + |upper|) + Varlena(lower) + Zeros(IntAlign(size) - size) + Varlena(upper)
  }

  lemma InnerLayoutIsKeyCopy(lower: Bytes, upper: Bytes)
    requires Fits(lower, upper)
    ensures InnerLayout(lower, upper) == KeyCopy(lower, upper)
  {
    var size := |lower| + VARHDRSZ;
    var pad := Zeros(IntAlign(size) - size);
    assert |Varlena(lower) + pad + Varlena(upper)| + VARHDRSZ == 2 * VARHDRSZ + IntAlign(size) + |upper|;
    Regroup(Header(2 * VARHDRSZ + IntAlign(size) + |upper|), Varlena(lower), pad, Varlena(upper));
  }

  /** The bytes gbt_var_node_truncate lays out are those of gbt_var_key_copy on the shorter bounds. */
  lemma TruncatedBytes(r: K.Key, cpfLength: nat)
    requires CutFits(r, cpfLength)
    ensures var t := K.Truncate(r, cpfLength);
            TruncatedLayout(r, cpfLength) == KeyCopy(t.lower, t.upper)
  {
    var t := K.Truncate(r, cpfLength);
    LayoutOfCut(r, cpfLength, t.lower, t.upper);
    InnerLayoutIsKeyCopy(t.lower, t.upper);
  }

  lemma LayoutOfCut(r: K.Key, cpfLength: nat, lower: Bytes, upper: Bytes)
    requires CutFits(r, cpfLength) && K.Truncate(r, cpfLength) == K.Key(lower, upper)
    ensures TruncatedLayout(r, cpfLength) == InnerLayout(lower, upper)
  {
    assert |r.lower| < cpfLength + 1 ==> r.lower[..|r.lower|] == r.lower;
    assert |r.upper| < cpfLength + 1 ==> r.upper[..|r.upper|] == r.upper;
  }

  lemma {:induction false} ValueBound(b: Bytes)
    ensures Value(b) < Pow256(|b|)
  {
    if b != [] { ValueBound(b[1..]); }
  }

  /** Truncating an inner key always fits; only a leaf key, whose value is doubled, can outgrow the limit. */
  lemma InnerCutFits(k: Bytes, cpfLength: nat)
    requires Stored(k) && !ReadKey(k).isLeaf
    ensures CutFits(ReadKey(k).key, cpfLength)
  {
    assert Pow256(4) == 0x1_0000_0000;
    ValueBound(k[0..VARHDRSZ]);
    var r := ReadKey(k).key;
    IntAlignMonotone(|K.Truncate(r, cpfLength).lower| + VARHDRSZ, |r.lower| + VARHDRSZ);
  }
}
