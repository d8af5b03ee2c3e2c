/**
 * Variable-length GiST keys of contrib/btree_gist for the bytea operator class: an inner key is
 * a (lower, upper) pair whose two bounds are cut to "common prefix + 2 bytes", and search makes up
 * for the cut with a prefix test.
 */
module GistVarKey {
  import opened ByteStrings

  /** What gbt_var_key_readable yields; a leaf key has lower == upper. */
  datatype Key = Key(lower: Bytes, upper: Bytes)

  function LeafKey(x: Bytes): Key { Key(x, x) }

  /** Common prefix length of the two bounds. */
  function CpLen(k: Key): nat { Lcp(k.lower, k.upper) }

  predicate Ordered(k: Key) { Le(k.lower, k.upper) }

  function Take(x: Bytes, n: nat): Bytes { if |x| <= n then x else x[..n] }

  /** gbt_var_node_truncate: both bounds keep at most cpfLength + 1 bytes. */
  function Truncate(k: Key, cpfLength: nat): Key {
    Key(Take(k.lower, cpfLength + 1), Take(k.upper, cpfLength + 1))
  }

  /** gbt_var_bin_union on two keys. */
  function BinUnion(u: Key, e: Key): Key {
    Key(if Cmp(u.lower, e.lower) > 0 then e.lower else u.lower,
        if Cmp(u.upper, e.upper) < 0 then e.upper else u.upper)
  }

  /** The fold of gbt_var_bin_union, left to right. */
  function UnionAll(es: seq<Key>): Key
    requires es != []
  {
    if |es| == 1 then es[0] else BinUnion(UnionAll(es[..|es| - 1]), es[|es| - 1])
  }

  /** gbt_var_union: fold, then cut to the common prefix plus two bytes. */
  function UnionKey(es: seq<Key>): Key
    requires es != []
  {
    var k := UnionAll(es);
    Truncate(k, CpLen(k) + 1)
  }

  datatype Strategy = Less | LessEqual | Equal | GreaterEqual | Greater | NotEqual

  /** The operator itself: row op query. */
  predicate Satisfies(x: Bytes, s: Strategy, q: Bytes) {
    match s
    case Less => Cmp(x, q) < 0
    case LessEqual => Cmp(x, q) <= 0
    case Equal => x == q
    case GreaterEqual => Cmp(x, q) >= 0
    case Greater => Cmp(x, q) > 0
    case NotEqual => x != q
  }

  /** gbt_bytea_pf_match is Dafny's prefix test; this is gbt_var_node_pf_match. */
  predicate PrefixMatch(k: Key, q: Bytes) { k.lower <= q || k.upper <= q }

  /** gbt_var_consistent; the query is always the first operand of the comparisons. */
  predicate Consistent(k: Key, s: Strategy, q: Bytes, isLeaf: bool) {
    match s
    case LessEqual => if isLeaf then Cmp(q, k.lower) >= 0 else Cmp(q, k.lower) >= 0 || PrefixMatch(k, q)
    case Less => if isLeaf then Cmp(q, k.lower) > 0 else Cmp(q, k.lower) >= 0 || PrefixMatch(k, q)
    case Equal =>
      if isLeaf then q == k.lower
      else (Cmp(k.lower, q) <= 0 && Cmp(q, k.upper) <= 0) || PrefixMatch(k, q)
    case Greater => if isLeaf then Cmp(q, k.upper) < 0 else Cmp(q, k.upper) <= 0 || PrefixMatch(k, q)
    case GreaterEqual => if isLeaf then Cmp(q, k.upper) <= 0 else Cmp(q, k.upper) <= 0 || PrefixMatch(k, q)
    case NotEqual => !(q == k.lower && q == k.upper)
  }

  /** On a leaf entry the test is the operator. */
  lemma LeafTestIsExact(x: Bytes, s: Strategy, q: Bytes)
    ensures Consistent(LeafKey(x), s, q, true) <==> Satisfies(x, s, q)
  {
    CmpAntisymmetric(x, q);
  }

  // ---------------------------------------------------------------------------------------------
  // Which rows an inner key can stand above without losing them

  /** The row x is found below k whenever it satisfies the query. */
  ghost predicate NeverLost(k: Key, x: Bytes) {
    forall s: Strategy, q: Bytes :: Satisfies(x, s, q) ==> Consistent(k, s, q, false)
  }

  /** The same, decided on the bounds. */
  predicate PruneSafe(k: Key, x: Bytes) {
    Le(k.lower, x) && (Le(x, k.upper) || (k.lower != k.upper && PrefixMatch(k, x)))
  }

  lemma PruneSafeOne(k: Key, x: Bytes, s: Strategy, q: Bytes)
    requires Ordered(k) && PruneSafe(k, x) && Satisfies(x, s, q)
    ensures Consistent(k, s, q, false)
  {
    CmpAntisymmetric(x, q);
    CmpAntisymmetric(q, k.lower);
    CmpAntisymmetric(q, k.upper);
    CmpAntisymmetric(x, k.lower);
    match s
    case Less | LessEqual => Sandwich(k.lower, x, q);
    case Greater | GreaterEqual =>
      if !Le(q, k.upper) {
        Sandwich(k.lower, k.upper, q);
        if Le(x, k.upper) {
          Sandwich(q, x, k.upper);
        }
        if k.lower <= x { PrefixBetween(k.lower, q, x); }
        if k.upper <= x { PrefixBetween(k.upper, q, x); }
      }
    case Equal =>
    case NotEqual =>
  }

  /** Queries an inner key is followed for although no row that it can stand above satisfies them. */
  predicate Idle(k: Key, s: Strategy, q: Bytes) {
    || (s.Less? && q == k.lower)
    || (k.lower == k.upper && ((s.Greater? && k.lower <= q) || ((s.Equal? || s.GreaterEqual?) && k.lower < q)))
  }

  /** A row that the key can stand above and that satisfies the query, if the test accepts for a reason. */
  function Reason(k: Key, s: Strategy, q: Bytes): Bytes {
    match s
    case Less | LessEqual => k.lower
    case Equal => q
    case GreaterEqual => if Le(q, k.upper) then k.upper else q
    case Greater => if Cmp(q, k.upper) < 0 then k.upper else q + [0]
    case NotEqual => if k.lower != q then k.lower else k.upper
  }

  lemma ReasonHolds(k: Key, s: Strategy, q: Bytes)
    requires Ordered(k) && Consistent(k, s, q, false) && !Idle(k, s, q)
    ensures PruneSafe(k, Reason(k, s, q)) && Satisfies(Reason(k, s, q), s, q)
  {
    CmpAntisymmetric(q, k.lower);
    CmpAntisymmetric(q, k.upper);
    if k.lower <= q { PrefixLe(k.lower, q); }
    if k.upper <= q {
      PrefixLe(k.upper, q);
      Sandwich(k.lower, k.upper, q);
    }
    if s.Greater? || s.GreaterEqual? {
      if Le(q, k.upper) { LeItself(k.upper); } else { Sandwich(k.lower, k.upper, q); }
    }
    if s.Greater? && Cmp(q, k.upper) >= 0 { ReasonBeyond(k, q); }
  }

  lemma LeItself(x: Bytes)
    ensures Le(x, x)
  {
    LcpUnique(x, x, |x|);
  }

  /** One byte more is a row above the query. */
  lemma ReasonBeyond(k: Key, q: Bytes)
    requires Ordered(k) && Le(k.upper, q) && k.lower != k.upper && PrefixMatch(k, q)
    ensures PruneSafe(k, q + [0]) && Cmp(q + [0], q) > 0
  {
    var x := q + [0];
    PrefixLe(q, x);
    CmpAntisymmetric(q, x);
    Sandwich(k.lower, k.upper, q);
    Sandwich(k.lower, q, x);
    assert k.lower <= q ==> k.lower <= x;
    assert k.upper <= q ==> k.upper <= x;
  }

  /** When the test on an inner key accepts, and so when it rejects: exactly if some row asks for it, or idly. */
  lemma AcceptsExactly(k: Key, s: Strategy, q: Bytes)
    requires Ordered(k)
    ensures Consistent(k, s, q, false) <==> Idle(k, s, q) || exists x :: PruneSafe(k, x) && Satisfies(x, s, q)
  {
    if Consistent(k, s, q, false) && !Idle(k, s, q) { ReasonHolds(k, s, q); }
    if x :| PruneSafe(k, x) && Satisfies(x, s, q) { PruneSafeOne(k, x, s, q); }
    if Idle(k, s, q) {
      LeItself(q);
      if k.lower <= q { PrefixLe(k.lower, q); }
    }
  }

  /** Pruning on k loses no query that x satisfies exactly when x is PruneSafe. */
  lemma NeverLostExactly(k: Key, x: Bytes)
    requires Ordered(k)
    ensures NeverLost(k, x) <==> PruneSafe(k, x)
  {
    if PruneSafe(k, x) {
      forall s: Strategy, q: Bytes | Satisfies(x, s, q)
        ensures Consistent(k, s, q, false)
      {
        PruneSafeOne(k, x, s, q);
      }
    }
    if NeverLost(k, x) {
      assert Consistent(k, Equal, x, false) by { assert Satisfies(x, Equal, x); }
      if k.lower <= x { PrefixLe(k.lower, x); }
      if k.upper <= x {
        PrefixLe(k.upper, x);
        Sandwich(k.lower, k.upper, x);
      }
      if x != k.lower {
        assert Consistent(k, NotEqual, k.lower, false) by { assert Satisfies(x, NotEqual, k.lower); }
      }
    }
  }

  // ---------------------------------------------------------------------------------------------
  // The invariant that truncation keeps

  /** x lies between the bounds, or extends an upper bound that reaches two bytes past the prefix. */
  predicate Admits(k: Key, x: Bytes) {
    Le(k.lower, x) && (Le(x, k.upper) || (|k.upper| >= CpLen(k) + 2 && k.upper <= x))
  }

  /** Weaker form that a fold keeps before it is cut: only the first two bytes past the prefix count. */
  predicate Covers(k: Key, x: Bytes) {
    Le(k.lower, x)
    && (Le(x, k.upper) || (|k.upper| >= CpLen(k) + 2 && k.upper[..CpLen(k) + 2] <= x))
  }

  lemma AdmitsIsPruneSafe(k: Key, x: Bytes)
    requires Admits(k, x)
    ensures Covers(k, x) && PruneSafe(k, x)
  {
  }

  /** Widening a key keeps the rows it covers. */
  lemma WidenCovers(k: Key, w: Key, x: Bytes)
    requires Ordered(k) && Le(w.lower, k.lower) && Le(k.upper, w.upper)
    requires Covers(k, x)
    ensures Ordered(w) && Covers(w, x)
  {
    Sandwich(w.lower, k.lower, k.upper);
    Sandwich(w.lower, k.upper, w.upper);
    Sandwich(w.lower, k.lower, x);
    if Le(x, k.upper) {
      Sandwich(x, k.upper, w.upper);
    } else if !Le(x, w.upper) {
      CmpAntisymmetric(x, w.upper);
      WidenPastUpper(k, w, x);
    }
  }

  /** u bounds k. */
  predicate Spans(u: Key, k: Key) { Le(u.lower, k.lower) && Le(k.upper, u.upper) }

  /** A string between an upper bound and an extension of the bound's head starts with that head. */
  lemma HeadKept(head: Bytes, y: Bytes, z: Bytes, x: Bytes)
    requires head <= y && Le(y, z) && Le(z, x) && head <= x
    ensures head <= z
  {
    PrefixLe(head, y);
    Sandwich(head, y, z);
    PrefixBetween(head, z, x);
  }

  /** The lower bound parts from both upper bounds at the same place, so a wider key parts no later. */
  lemma WiderPartsEarlier(k: Key, w: Key)
    requires Ordered(k) && Spans(w, k) && CpLen(k) < |k.upper|
    requires k.upper[..CpLen(k) + 1] <= w.upper
    ensures CpLen(w) <= CpLen(k)
  {
    var p := CpLen(k);
    assert w.upper[..p] == w.upper[..p + 1][..p] == k.upper[..p];
    assert w.upper[p] == w.upper[..p + 1][p] == k.upper[p];
    LcpUnique(k.lower, w.upper, p);
    Sandwich(k.lower, k.upper, w.upper);
    Sandwich(w.lower, k.lower, w.upper);
  }

  lemma WidenPastUpper(k: Key, w: Key, x: Bytes)
    requires Ordered(k) && Spans(w, k) && Le(w.upper, x)
    requires |k.upper| >= CpLen(k) + 2 && k.upper[..CpLen(k) + 2] <= x
    ensures |w.upper| >= CpLen(w) + 2 && w.upper[..CpLen(w) + 2] <= x
  {
    var p := CpLen(k);
    HeadKept(k.upper[..p + 2], k.upper, w.upper, x);
    HeadKept(k.upper[..p + 1], k.upper, w.upper, x);
    WiderPartsEarlier(k, w);
  }

  /** Cutting at or beyond two bytes past the common prefix keeps order, prefix and rows. */
  lemma TruncateCovers(k: Key, n: nat, x: Bytes)
    requires Ordered(k) && n >= CpLen(k) + 1 && Covers(k, x)
    ensures Ordered(Truncate(k, n)) && CpLen(Truncate(k, n)) == CpLen(k) && Covers(Truncate(k, n), x)
    ensures Le(x, k.upper) ==> Admits(Truncate(k, n), x)
    ensures n == CpLen(k) + 1 ==> Admits(Truncate(k, n), x)
  {
    var t := Truncate(k, n);
    TruncateOrdered(k, n);
    PrefixLe(t.lower, k.lower);
    Sandwich(t.lower, k.lower, x);
    if Le(x, k.upper) { BelowOrBeyondPrefix(t.upper, k.upper, x); }
  }

  /** What is not above a string is not above its prefix, or extends it. */
  lemma BelowOrBeyondPrefix(u: Bytes, y: Bytes, x: Bytes)
    requires u <= y && Le(x, y)
    ensures Le(x, u) || u <= x
  {
    CmpAntisymmetric(x, u);
    if !Le(x, u) { PrefixBetween(u, x, y); }
  }

  lemma TruncateOrdered(k: Key, n: nat)
    requires Ordered(k) && n >= CpLen(k) + 1
    ensures Ordered(Truncate(k, n)) && CpLen(Truncate(k, n)) == CpLen(k)
    ensures Truncate(k, n).lower <= k.lower && Truncate(k, n).upper <= k.upper
  {
    var t, p := Truncate(k, n), CpLen(k);
    assert t.lower[..p] == k.lower[..p] && t.upper[..p] == k.upper[..p];
    LcpUnique(t.lower, t.upper, p);
  }

  lemma BinUnionBounds(u: Key, e: Key)
    requires Ordered(u) && Ordered(e)
    ensures Ordered(BinUnion(u, e))
    ensures Le(BinUnion(u, e).lower, u.lower) && Le(u.upper, BinUnion(u, e).upper)
    ensures Le(BinUnion(u, e).lower, e.lower) && Le(e.upper, BinUnion(u, e).upper)
  {
    var b := BinUnion(u, e);
    CmpAntisymmetric(u.lower, e.lower);
    CmpAntisymmetric(u.upper, e.upper);
    Sandwich(b.lower, u.lower, u.upper);
    Sandwich(b.lower, u.upper, b.upper);
  }

  lemma BinUnionSpans(u: Key, e: Key, k: Key)
    requires Ordered(u) && Ordered(e) && (Spans(u, k) || k == e)
    ensures Ordered(BinUnion(u, e)) && Spans(BinUnion(u, e), k)
  {
    var b := BinUnion(u, e);
    BinUnionBounds(u, e);
    if k != e {
      Sandwich(b.lower, u.lower, k.lower);
      Sandwich(k.upper, u.upper, b.upper);
    }
  }

  /** The fold bounds every key it was made from. */
  lemma {:induction false} UnionAllBounds(es: seq<Key>, i: nat)
    requires i < |es| && forall j :: 0 <= j < |es| ==> Ordered(es[j])
    ensures Ordered(UnionAll(es)) && Spans(UnionAll(es), es[i])
  {
    if |es| == 1 {
      SpansItself(es[0]);
    } else {
      var n := |es| - 1;
      UnionAllBounds(es[..n], if i < n then i else 0);
      BinUnionSpans(UnionAll(es[..n]), es[n], es[i]);
    }
  }

  lemma SpansItself(k: Key)
    ensures Spans(k, k)
  {
  }

  /** ... and is no wider: each of its bounds is a bound of one of them. */
  lemma {:induction false} UnionAllAttained(es: seq<Key>) returns (i: nat, j: nat)
    requires es != []
    ensures i < |es| && j < |es| && UnionAll(es) == Key(es[i].lower, es[j].upper)
  {
    i, j := 0, 0;
    if |es| > 1 {
      var n := |es| - 1;
      i, j := UnionAllAttained(es[..n]);
      var u := UnionAll(es[..n]);
      if Cmp(u.lower, es[n].lower) > 0 { i := n; }
      if Cmp(u.upper, es[n].upper) < 0 { j := n; }
    }
  }

  /** gbt_var_union never loses a row: whatever an operand admits, the truncated union admits. */
  lemma UnionAdmits(es: seq<Key>, i: nat, x: Bytes)
    requires i < |es| && (forall j :: 0 <= j < |es| ==> Ordered(es[j])) && Admits(es[i], x)
    ensures Ordered(UnionKey(es)) && Admits(UnionKey(es), x)
  {
    UnionAllBounds(es, i);
    AdmitsIsPruneSafe(es[i], x);
    WidenCovers(es[i], UnionAll(es), x);
    TruncateCovers(UnionAll(es), CpLen(UnionAll(es)) + 1, x);
  }

  /** The union keeps its bounds up to two bytes past their common prefix: no fewer, if there are any, and no more. */
  lemma UnionKeyExactly(es: seq<Key>)
    requires es != []
    ensures var u, k := UnionAll(es), UnionKey(es);
            && k.lower <= u.lower && (k.lower == u.lower || |k.lower| == CpLen(u) + 2) && |k.lower| <= CpLen(u) + 2
            && k.upper <= u.upper && (k.upper == u.upper || |k.upper| == CpLen(u) + 2) && |k.upper| <= CpLen(u) + 2
  {
  }
}
