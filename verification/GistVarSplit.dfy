/**
 * gbt_var_union and gbt_var_picksplit of contrib/btree_gist, and exactly when a page split keeps
 * every row reachable. A split cuts both halves to the longer of the two common prefixes, so a
 * half can keep an upper bound that a shorter, earlier-cut bound was standing in for.
 */
module GistVarSplit {
  import opened ByteStrings
  import opened GistVarKey

  /** gbt_var_node_cp_len for a single-byte encoding. */
  method CommonPrefixLength(k: Key) returns (n: nat)
    ensures n == CpLen(k)
  {
    var ml := if |k.lower| < |k.upper| then |k.lower| else |k.upper|;
    if ml == 0 { return 0; }
    n := 0;
    while n < ml
      invariant n <= ml && k.lower[..n] == k.upper[..n]
    {
      if k.lower[n] != k.upper[n] {
        LcpUnique(k.lower, k.upper, n);
        return;
      }
      n := n + 1;
    }
    LcpUnique(k.lower, k.upper, n);
  }

  /** The gbt_var_bin_union loop that gbt_var_union and each side of gbt_var_picksplit run. */
  method FoldKeys(es: seq<Key>) returns (out: Key)
    requires es != []
    ensures out == UnionAll(es)
  {
    out := es[0];
    for i := 1 to |es|
      invariant out == UnionAll(es[..i])
    {
      assert es[..i + 1][..i] == es[..i];
      out := BinUnion(out, es[i]);
    }
    assert es[..|es|] == es;
  }

  /** gbt_var_union over a non-empty entry vector. */
  method Union(es: seq<Key>) returns (out: Key)
    requires es != []
    ensures out == UnionKey(es)
  {
    out := FoldKeys(es);
    var plen := CommonPrefixLength(out);
    out := Truncate(out, plen + 1);
  }

  // ---------------------------------------------------------------------------------------------
  // Splits

  /** gbt_vsrt_cmp: lower bounds first, then upper bounds. */
  predicate SortLe(a: Key, b: Key) {
    Cmp(a.lower, b.lower) < 0 || (a.lower == b.lower && Cmp(a.upper, b.upper) <= 0)
  }

  predicate Sorted(ks: seq<Key>) {
    |ks| <= 1 || (SortLe(ks[|ks| - 2], ks[|ks| - 1]) && Sorted(ks[..|ks| - 1]))
  }

  /** What qsort_arg leaves in arr[1..]: the offsets 1..maxoff, each once, with their keys. */
  ghost predicate Arranged(entries: seq<Key>, order: seq<nat>, ks: seq<Key>) {
    && |entries| == |order| + 1 && |ks| == |order|
    && (forall i :: 0 <= i < |order| ==> 1 <= order[i] < |entries| && ks[i] == entries[order[i]])
    && (forall i, j :: 0 <= i < j < |order| ==> order[i] != order[j])
  }

  /** One side of a split that cuts at cpfLength. */
  function SideKey(es: seq<Key>, cpfLength: nat): Key
    requires es != []
  {
    Truncate(UnionAll(es), cpfLength)
  }

  /** The cut both sides of a split share: the longer of the two common prefixes, plus one. */
  function SplitCut(l: Key, r: Key): (n: nat)
    ensures n > CpLen(l) && n > CpLen(r) && (n == CpLen(l) + 1 || n == CpLen(r) + 1)
  {
    (if CpLen(l) > CpLen(r) then CpLen(l) else CpLen(r)) + 1
  }

  /** The loop over the sorted offsets: the first half goes left, the rest right. */
  method DealOut(order: seq<nat>) returns (left: seq<nat>, right: seq<nat>)
    ensures left == order[..|order| / 2] && right == order[|order| / 2..]
  {
    var maxoff := |order|;
    left, right := [], [];
    for i := 1 to maxoff + 1
      invariant left == order[..if i - 1 <= maxoff / 2 then i - 1 else maxoff / 2]
      invariant right == order[|left|..i - 1]
    {
      if i <= maxoff / 2 {
        left := left + [order[i - 1]];
      } else {
        right := right + [order[i - 1]];
      }
    }
  }

  /** gbt_var_picksplit; entries[0] is the unused slot of the vector, (order, ks) what the sort yields. */
  method PickSplit(entries: seq<Key>, order: seq<nat>, ks: seq<Key>)
    returns (left: seq<nat>, right: seq<nat>, ldatum: Key, rdatum: Key)
    requires |entries| >= 3 && Arranged(entries, order, ks) && Sorted(ks)
    ensures var m := |order| / 2;
            && left == order[..m] && right == order[m..] && left != [] && right != []
            && ldatum == SideKey(ks[..m], SplitCut(UnionAll(ks[..m]), UnionAll(ks[m..])))
            && rdatum == SideKey(ks[m..], SplitCut(UnionAll(ks[..m]), UnionAll(ks[m..])))
  {
    left, right := DealOut(order);
    var l := FoldKeys(ks[..|left|]);
    var r := FoldKeys(ks[|left|..]);
    ldatum, rdatum := TruncateBoth(l, r);
  }

  /** The last part of gbt_var_picksplit: both datums are cut at the longer common prefix. */
  method TruncateBoth(l: Key, r: Key) returns (dl: Key, dr: Key)
    ensures dl == Truncate(l, SplitCut(l, r)) && dr == Truncate(r, SplitCut(l, r))
  {
    var ll := CommonPrefixLength(l);
    var lr := CommonPrefixLength(r);
    ll := if ll > lr then ll else lr;
    ll := ll + 1;
    dl, dr := Truncate(l, ll), Truncate(r, ll);
  }

  // ---------------------------------------------------------------------------------------------
  // When a split loses rows

  /**
   * The entry's upper bound was long enough to stand for its extensions, the side's upper bound
   * extends it further, and some extension of the former is neither below nor past the latter.
   */
  ghost predicate Shadowed(e: Key, side: Key) {
    && |e.upper| >= CpLen(e) + 2
    && e.upper < side.upper
    && exists i :: |e.upper| <= i < |side.upper| && side.upper[i] < 255
  }

  /** Shadowed, and the side's lower bound does not match every extension by luck. */
  ghost predicate Leaky(e: Key, side: Key) {
    Shadowed(e, side) && !(side.lower <= e.upper)
  }

  lemma UnshadowedAdmits(es: seq<Key>, n: nat, i: nat, x: Bytes)
    requires i < |es| && forall j :: 0 <= j < |es| ==> Ordered(es[j])
    requires n > CpLen(UnionAll(es)) && Admits(es[i], x)
    ensures Admits(SideKey(es, n), x) || (Shadowed(es[i], SideKey(es, n)) && es[i].upper <= x)
  {
    var big, e := UnionAll(es), es[i];
    UnionAllBounds(es, i);
    AdmitsIsPruneSafe(e, x);
    WidenCovers(e, big, x);
    TruncateCovers(big, n, x);
    if !Le(x, big.upper) {
      CmpAntisymmetric(x, big.upper);
      if Le(x, e.upper) { Sandwich(x, e.upper, big.upper); }
      PastTheUnion(e, big, n, x);
    }
  }

  lemma PastTheUnion(e: Key, big: Key, n: nat, x: Bytes)
    requires Ordered(big) && n > CpLen(big) && Le(e.upper, big.upper) && Le(big.upper, x)
    requires |e.upper| >= CpLen(e) + 2 && e.upper <= x
    requires Covers(Truncate(big, n), x)
    ensures Admits(Truncate(big, n), x) || Shadowed(e, Truncate(big, n))
  {
    var side := Truncate(big, n);
    PrefixBetween(e.upper, big.upper, x);
    if |side.upper| <= |e.upper| {
      assert side.upper == big.upper[..|side.upper|] == e.upper[..|side.upper|];
    } else if !Shadowed(e, side) && !Le(x, side.upper) {
      assert side.upper[..|e.upper|] == e.upper;
      AboveLargest(side.upper, x, |e.upper|);
    }
  }

  /** A row that a leaky entry admits and no equality search below the side would find. */
  function LostRow(side: Key, i: nat): Bytes
    requires i < |side.upper| && side.upper[i] < 255
  {
    side.upper[..i] + [side.upper[i] + 1]
  }

  lemma LeakyLoses(es: seq<Key>, n: nat, j: nat, i: nat)
    requires j < |es| && forall m :: 0 <= m < |es| ==> Ordered(es[m])
    requires n > CpLen(UnionAll(es)) && Leaky(es[j], SideKey(es, n))
    requires |es[j].upper| <= i < |SideKey(es, n).upper| && SideKey(es, n).upper[i] < 255
    ensures var x := LostRow(SideKey(es, n), i);
            Admits(es[j], x) && !PruneSafe(SideKey(es, n), x)
  {
    var side, e := SideKey(es, n), es[j];
    var x := LostRow(side, i);
    assert side.upper[..i] == x[..i];
    LcpUnique(x, side.upper, i);
    assert e.upper <= x by { assert x[..|e.upper|] == side.upper[..|e.upper|]; }
    PrefixLe(e.upper, x);
    Sandwich(e.lower, e.upper, x);
    UnionAllBounds(es, j);
    TruncateOrdered(UnionAll(es), n);
    PrefixLe(side.lower, UnionAll(es).lower);
    Sandwich(side.lower, UnionAll(es).lower, e.lower);
    Sandwich(side.lower, e.lower, e.upper);
    if side.lower <= x {
      PrefixBetween(side.lower, e.upper, x);
    }
  }

  lemma TightSplitKeepsRow(es: seq<Key>, n: nat, j: nat, x: Bytes)
    requires j < |es| && (forall m :: 0 <= m < |es| ==> Ordered(es[m])) && n > CpLen(UnionAll(es))
    requires !Leaky(es[j], SideKey(es, n)) && Admits(es[j], x)
    ensures PruneSafe(SideKey(es, n), x)
  {
    var side, e := SideKey(es, n), es[j];
    UnshadowedAdmits(es, n, j, x);
    if !Admits(side, x) {
      assert side.lower <= e.upper < side.upper;
      PrefixLe(side.lower, x);
    }
  }

  /**
   * Exactly when one side of a split keeps every row that its entries could hold: no entry is
   * Leaky, a condition on the entries' keys alone.
   */
  lemma SplitKeepsRowsExactly(es: seq<Key>, n: nat)
    requires es != [] && (forall j :: 0 <= j < |es| ==> Ordered(es[j])) && n > CpLen(UnionAll(es))
    ensures (forall j, x :: 0 <= j < |es| && Admits(es[j], x) ==> NeverLost(SideKey(es, n), x))
            <==> (forall j :: 0 <= j < |es| ==> !Leaky(es[j], SideKey(es, n)))
  {
    var side := SideKey(es, n);
    UnionAllBounds(es, 0);
    TruncateOrdered(UnionAll(es), n);
    forall j, x | 0 <= j < |es| && Admits(es[j], x) && !Leaky(es[j], side)
      ensures NeverLost(side, x)
    {
      TightSplitKeepsRow(es, n, j, x);
      NeverLostExactly(side, x);
    }
    forall j | 0 <= j < |es| && Leaky(es[j], side)
      ensures exists x :: Admits(es[j], x) && !NeverLost(side, x)
    {
      var i :| |es[j].upper| <= i < |side.upper| && side.upper[i] < 255;
      LeakyLoses(es, n, j, i);
      NeverLostExactly(side, LostRow(side, i));
    }
  }

  /** Leaf entries are never shadowed, so splitting a leaf page is always safe. */
  lemma LeafSplitIsSafe(rows: seq<Bytes>, n: nat, x: Bytes)
    requires x in rows
    requires n > CpLen(UnionAll(LeafKeys(rows)))
    ensures Ordered(SideKey(LeafKeys(rows), n)) && Admits(SideKey(LeafKeys(rows), n), x)
  {
    var es := LeafKeys(rows);
    var i :| 0 <= i < |rows| && rows[i] == x;
    LcpUnique(x, x, |x|);
    UnionAllBounds(es, i);
    TruncateOrdered(UnionAll(es), n);
    UnshadowedAdmits(es, n, i, x);
  }

  function LeafKeys(rows: seq<Bytes>): (ks: seq<Key>)
    ensures |ks| == |rows|
    ensures forall i :: 0 <= i < |ks| ==> ks[i] == LeafKey(rows[i]) && Ordered(ks[i])
  {
    seq(|rows|, i requires 0 <= i < |rows| => LeafKey(rows[i]))
  }

  /** The union of two keys whose outer bounds part after p bytes, the first one being the smaller. */
  lemma UnionOfTwo(a: Key, b: Key, p: nat)
    requires CpLen(Key(a.lower, b.upper)) == p && Le(a.lower, b.lower) && !Le(b.upper, a.upper)
    ensures UnionAll([a, b]) == Key(a.lower, b.upper)
    ensures UnionKey([a, b]) == Key(Take(a.lower, p + 2), Take(b.upper, p + 2))
  {
    assert [a, b][..1] == [a];
    CmpAntisymmetric(a.upper, b.upper);
  }

  lemma UnionOfRows(x: Bytes, y: Bytes, p: nat)
    requires p < |x| && p < |y| && x[..p] == y[..p] && x[p] < y[p]
    ensures UnionKey([LeafKey(x), LeafKey(y)]) == Key(Take(x, p + 2), Take(y, p + 2))
  {
    LcpUnique(x, y, p);
    LcpUnique(y, x, p);
    UnionOfTwo(LeafKey(x), LeafKey(y), p);
  }

  /**
   * Splitting an inner page can lose a row. The left side holds an inner key over the rows 00 and
   * 010109, whose upper bound was cut to 0101, and one over 010102 and 010103. The right side's
   * common prefix moves the cut from 2 bytes to 3, so the left side ends at 010103 and an equality
   * search for 010109 no longer descends there.
   */
  lemma InnerSplitCanLoseARow()
    ensures var k1, k2, k3, k4 := Key([0], [1, 1]), Key([1, 1, 2], [1, 1, 3]), Key([2, 0], [2, 1]), Key([2, 2], [2, 3]);
            && SortLe(k1, k2) && SortLe(k2, k3) && SortLe(k3, k4)
            && Admits(k1, [1, 1, 9])
            && !Consistent(SideKey([k1, k2], SplitCut(UnionAll([k1, k2]), UnionAll([k3, k4]))), Equal, [1, 1, 9], false)
  {
    var k1, k2, k3, k4 := Key([0], [1, 1]), Key([1, 1, 2], [1, 1, 3]), Key([2, 0], [2, 1]), Key([2, 2], [2, 3]);
    LcpUnique([0], [1, 1, 2], 0);
    LcpUnique([0], [1, 1, 3], 0);
    LcpUnique([1, 1, 3], [1, 1], 2);
    UnionOfTwo(k1, k2, 0);
    LcpUnique([2, 0], [2, 2], 1);
    LcpUnique([2, 0], [2, 3], 1);
    LcpUnique([2, 3], [2, 1], 1);
    UnionOfTwo(k3, k4, 1);
    LcpUnique([1, 1, 2], [2, 0], 0);
    LcpUnique([0], [1, 1], 0);
    LcpUnique([0], [1, 1, 9], 0);
    LcpUnique([1, 1, 9], [1, 1], 2);
    LcpUnique([1, 1, 9], [1, 1, 3], 2);
  }

  /** The four keys of InnerSplitCanLoseARow are unions of the rows named there. */
  lemma WitnessKeysAreUnions()
    ensures UnionKey([LeafKey([0]), LeafKey([1, 1, 9])]) == Key([0], [1, 1])
    ensures UnionKey([LeafKey([1, 1, 2]), LeafKey([1, 1, 3])]) == Key([1, 1, 2], [1, 1, 3])
    ensures UnionKey([LeafKey([2, 0]), LeafKey([2, 1])]) == Key([2, 0], [2, 1])
    ensures UnionKey([LeafKey([2, 2]), LeafKey([2, 3])]) == Key([2, 2], [2, 3])
  {
    UnionOfRows([0], [1, 1, 9], 0);
    UnionOfRows([1, 1, 2], [1, 1, 3], 2);
    UnionOfRows([2, 0], [2, 1], 1);
    UnionOfRows([2, 2], [2, 3], 1);
  }
}
