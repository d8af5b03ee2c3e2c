/**
 * The uniqueness check of bt_target_page_check on a leaf page and the first item to its right: a single
 * pass that remembers the last visible entry and puts off looking at the heap, against the plain
 * definition of a duplicate.
 */
module NbtUnique {
  import opened NbtPages
  import opened NbtOrder

  /** Whether a heap TID is visible to the snapshot. */
  type Snapshot = int -> bool

  /** Two distinct entries, visible both, with equal keys that contain no null. */
  ghost predicate Clash(items: seq<Item>, vis: Snapshot, i: int, u: int, j: int, v: int) {
    && 0 <= i <= j < |items| && 0 <= u < |items[i].tids| && 0 <= v < |items[j].tids| && (i < j || u < v)
    && vis(items[i].tids[u]) && vis(items[j].tids[v])
    && items[i].atts == items[j].atts && !items[i].anyNull
  }

  ghost predicate Duplicate(items: seq<Item>, vis: Snapshot) {
    exists i, u, j, v :: Clash(items, vis, i, u, j, v)
  }

  /** Whether a key contains a null is a matter of the key. */
  ghost predicate NullsByKey(items: seq<Item>) {
    forall i, j :: 0 <= i < j < |items| && items[i].atts == items[j].atts ==> items[i].anyNull == items[j].anyNull
  }

  /** The data items of a leaf page in order: full keys, equal keys adjacent, nulls a matter of the key. */
  ghost predicate Grouped(items: seq<Item>) {
    && NullsByKey(items)
    && (forall i, j, k :: 0 <= i < j < k < |items| && items[i].atts == items[k].atts ==> items[j].atts == items[k].atts)
    && (forall i, j :: 0 <= i < |items| && 0 <= j < |items| ==> |items[i].atts| == |items[j].atts|)
  }

  /** Some entry of items[..n] is visible and has the non-null key of items[m]. */
  ghost predicate SeenBefore(items: seq<Item>, vis: Snapshot, n: nat, m: nat)
    requires n <= |items| && m < |items|
  {
    !items[m].anyNull && exists i, u :: Seen(items, vis, i, u, n, m)
  }

  ghost predicate Seen(items: seq<Item>, vis: Snapshot, i: int, u: int, n: nat, m: nat)
    requires n <= |items| && m < |items|
  {
    0 <= i < n && 0 <= u < |items[i].tids| && vis(items[i].tids[u]) && items[i].atts == items[m].atts
  }

  ghost predicate VisibleIn(t: Item, vis: Snapshot) { exists u :: 0 <= u < |t.tids| && vis(t.tids[u]) }

  ghost predicate TwoVisible(t: Item, vis: Snapshot) {
    exists u, v :: 0 <= u < v < |t.tids| && vis(t.tids[u]) && vis(t.tids[v])
  }

  /** bt_entry_unique_check: last says whether a visible entry with this key was seen already. */
  method EntryUniqueCheck(t: Item, vis: Snapshot, last: bool) returns (raised: bool, last': bool)
    ensures raised <==> TwoVisible(t, vis) || (last && VisibleIn(t, vis))
    ensures !raised ==> (last' <==> last || VisibleIn(t, vis))
  {
    last' := last;
    for i := 0 to |t.tids|
      invariant last' <==> last || exists u :: 0 <= u < i && vis(t.tids[u])
      invariant !(last && exists u :: 0 <= u < i && vis(t.tids[u]))
      invariant !exists u, v :: 0 <= u < v < i && vis(t.tids[u]) && vis(t.tids[v])
    {
      if vis(t.tids[i]) {
        if last' { return true, last'; }
        last' := true;
      }
    }
    return false, last';
  }

  /** Equal key attributes, as _bt_compare finds them when the scan key's TID is taken out. */
  predicate SameKey(a: Item, b: Item) { Compare(ScanKey(a.atts, []), b) == 0 }

  lemma {:induction false} ZeroMeansEqual(a: seq<int>, b: seq<int>)
    requires |a| == |b|
    ensures CompareAtts(a, b) == 0 <==> a == b
  {
    if a != [] {
      ZeroMeansEqual(a[1..], b[1..]);
      assert a == [a[0]] + a[1..] && b == [b[0]] + b[1..];
    }
  }

  /** What the next item adds: duplicates within it, or with an entry seen before. */
  lemma DuplicateStep(items: seq<Item>, vis: Snapshot, n: nat)
    requires n < |items| && Grouped(items)
    ensures Duplicate(items[..n + 1], vis)
            <==> Duplicate(items[..n], vis)
                 || (!items[n].anyNull && TwoVisible(items[n], vis))
                 || (SeenBefore(items, vis, n, n) && VisibleIn(items[n], vis))
  {
    var a, b := items[..n + 1], items[..n];
    forall i, u, j, v | Clash(a, vis, i, u, j, v)
      ensures Clash(b, vis, i, u, j, v) || (i == j == n) || (j == n && Seen(items, vis, i, u, n, n))
    {
    }
    forall i, u, j, v | Clash(b, vis, i, u, j, v) ensures Clash(a, vis, i, u, j, v) {
    }
    if !items[n].anyNull && TwoVisible(items[n], vis) {
      var u, v :| 0 <= u < v < |items[n].tids| && vis(items[n].tids[u]) && vis(items[n].tids[v]);
      assert Clash(a, vis, n, u, n, v);
    }
    if SeenBefore(items, vis, n, n) && VisibleIn(items[n], vis) {
      var i, u :| Seen(items, vis, i, u, n, n);
      var v :| 0 <= v < |items[n].tids| && vis(items[n].tids[v]);
      assert Clash(a, vis, i, u, n, v);
    }
  }

  /** What the next item makes known to the one after it. */
  lemma SeenStep(items: seq<Item>, vis: Snapshot, n: nat)
    requires n + 1 < |items| && Grouped(items)
    ensures SeenBefore(items, vis, n + 1, n + 1)
            <==> items[n].atts == items[n + 1].atts && !items[n].anyNull
                 && (SeenBefore(items, vis, n, n) || VisibleIn(items[n], vis))
  {
    if SeenBefore(items, vis, n + 1, n + 1) {
      var i, u :| Seen(items, vis, i, u, n + 1, n + 1);
      assert i < n ==> Seen(items, vis, i, u, n, n);
    }
    if items[n].atts == items[n + 1].atts && !items[n].anyNull {
      if SeenBefore(items, vis, n, n) {
        var i, u :| Seen(items, vis, i, u, n, n);
        assert Seen(items, vis, i, u, n + 1, n + 1);
      }
      if VisibleIn(items[n], vis) {
        var u :| 0 <= u < |items[n].tids| && vis(items[n].tids[u]);
        assert Seen(items, vis, n, u, n + 1, n + 1);
      }
    }
  }

  /** The first item of the right sibling, if it has the key of the last item here and no null. */
  function Shared(items: seq<Item>, right: seq<Item>): seq<Item> {
    if items != [] && right != [] && SameKey(right[0], items[|items| - 1]) && !right[0].anyNull then right else []
  }

  /** The page and the first item to the right of it are a fit input for the pass. */
  ghost predicate Passable(items: seq<Item>, right: seq<Item>) {
    |right| <= 1 && Grouped(items + right) && forall i :: 0 <= i < |items| ==> items[i].tids != []
  }

  /** What last stands for after the item at n was looked at, or put off. */
  ghost predicate Standing(items: seq<Item>, vis: Snapshot, n: nat, last: bool, checked: bool)
    requires n < |items|
  {
    if checked then last <==> SeenBefore(items, vis, n, n) || VisibleIn(items[n], vis)
    else (last <==> SeenBefore(items, vis, n, n)) && (items[n].anyNull || (|items[n].tids| <= 1 && !last))
  }

  /** Look at posting lists and repeated keys at once, put off first appearances. */
  method CheckItem(items: seq<Item>, vis: Snapshot, n: nat, last: bool)
    returns (raised: bool, last': bool, checked: bool)
    requires n < |items| && Grouped(items) && (last <==> SeenBefore(items, vis, n, n)) && !Duplicate(items[..n], vis)
    ensures raised <==> Duplicate(items[..n + 1], vis)
    ensures !raised ==> Standing(items, vis, n, last', checked)
  {
    var t := items[n];
    DuplicateStep(items, vis, n);
    if t.anyNull || (|t.tids| <= 1 && !last) { return false, last, false; }
    raised, last' := EntryUniqueCheck(t, vis, last);
    checked := true;
  }

  /** Compare with the next item, and forget or catch up. */
  method MoveOn(items: seq<Item>, vis: Snapshot, n: nat, last: bool, checked: bool) returns (last': bool)
    requires n + 1 < |items| && Grouped(items) && Standing(items, vis, n, last, checked)
    ensures last' <==> SeenBefore(items, vis, n + 1, n + 1)
  {
    var t := items[n];
    SeenStep(items, vis, n);
    ZeroMeansEqual(t.atts, items[n + 1].atts);
    if !SameKey(t, items[n + 1]) || t.anyNull { return false; }
    last' := last;
    if !checked {
      var raised;
      raised, last' := EntryUniqueCheck(t, vis, last);
    }
  }

  /** The check of the item to the right of the last one. */
  method CrossCheck(items: seq<Item>, vis: Snapshot, right: seq<Item>, last: bool, checked: bool)
    returns (raised: bool)
    requires items != [] && Passable(items, right) && !Duplicate(items, vis)
    requires Standing(items, vis, |items| - 1, last, checked)
    ensures raised <==> Duplicate(items + Shared(items, right), vis)
  {
    var n := |items| - 1;
    ghost var all := items + right;
    assert items + [] == items;
    if right == [] { return false; }
    assert all[..n + 1] == items && all[..n + 2] == all && all[n] == items[n] && all[n + 1] == right[0];
    ZeroMeansEqual(right[0].atts, items[n].atts);
    SeenInPage(items, right, vis, n);
    SeenStep(all, vis, n);
    DuplicateStep(all, vis, n + 1);
    if !SameKey(right[0], items[n]) || right[0].anyNull { return false; }
    var last' := last;
    if !checked { raised, last' := EntryUniqueCheck(items[n], vis, last); }
    raised, last' := EntryUniqueCheck(right[0], vis, last');
  }

  lemma SeenInPage(items: seq<Item>, right: seq<Item>, vis: Snapshot, n: nat)
    requires n < |items|
    ensures SeenBefore(items, vis, n, n) <==> SeenBefore(items + right, vis, n, n)
  {
    var all := items + right;
    forall i, u | 0 <= i < n ensures Seen(items, vis, i, u, n, n) <==> Seen(all, vis, i, u, n, n) {
      assert all[i] == items[i];
    }
    if SeenBefore(items, vis, n, n) {
      var i, u :| Seen(items, vis, i, u, n, n);
      assert Seen(all, vis, i, u, n, n);
    }
  }

  lemma GroupedPrefix(items: seq<Item>, right: seq<Item>)
    requires Grouped(items + right)
    ensures Grouped(items)
  {
    var all := items + right;
    assert forall i :: 0 <= i < |items| ==> all[i] == items[i];
  }

  lemma DuplicateGrows(items: seq<Item>, vis: Snapshot, part: seq<Item>)
    requires part <= items && Duplicate(part, vis)
    ensures Duplicate(items, vis)
  {
    var i, u, j, v :| Clash(part, vis, i, u, j, v);
    assert Clash(items, vis, i, u, j, v);
  }

  lemma FoundEarly(items: seq<Item>, right: seq<Item>, vis: Snapshot, n: nat)
    requires n <= |items| && Duplicate(items[..n], vis)
    ensures Duplicate(items + Shared(items, right), vis)
  {
    DuplicateGrows(items + Shared(items, right), vis, items[..n]);
  }

  /** The pass has come to offset n without raising an error. */
  ghost predicate Passed(items: seq<Item>, right: seq<Item>, vis: Snapshot, n: nat, last: bool)
    requires n <= |items|
  {
    && !Duplicate(items[..n], vis)
    && if n < |items| then last <==> SeenBefore(items, vis, n, n) else !Duplicate(items + Shared(items, right), vis)
  }

  /** One turn of the loop. */
  method PassItem(items: seq<Item>, vis: Snapshot, right: seq<Item>, n: nat, last: bool)
    returns (raised: bool, last': bool)
    requires n < |items| && Passable(items, right) && Passed(items, right, vis, n, last)
    ensures raised ==> Duplicate(items + Shared(items, right), vis)
    ensures !raised ==> Passed(items, right, vis, n + 1, last')
  {
    GroupedPrefix(items, right);
    var checked;
    raised, last', checked := CheckItem(items, vis, n, last);
    if raised {
      FoundEarly(items, right, vis, n + 1);
    } else if n + 1 < |items| {
      last' := MoveOn(items, vis, n, last', checked);
    } else {
      assert items[..n + 1] == items;
      raised := CrossCheck(items, vis, right, last', checked);
    }
  }

  /** The lazy pass raises an error exactly if there is a duplicate on the page, with that item if it counts. */
  method UniquePass(items: seq<Item>, vis: Snapshot, right: seq<Item>) returns (raised: bool)
    requires Passable(items, right)
    ensures raised <==> Duplicate(items + Shared(items, right), vis)
  {
    var last := false;
    for offset := 0 to |items|
      invariant Passed(items, right, vis, offset, last)
    {
      raised, last := PassItem(items, vis, right, offset, last);
      if raised { return; }
    }
    return false;
  }

  /** Between two items with the same full key lie only items with that key. */
  lemma SandwichedKey(a: Item, b: Item, c: Item)
    requires |a.atts| == |b.atts| == |c.atts| && a.atts == c.atts
    requires LexLess(Key(a), Key(b)) && LexLess(Key(b), Key(c))
    ensures b.atts == c.atts
  {
    CompareAttsIsLex(a.atts, KeyOf(a).tid, b.atts, KeyOf(b).tid);
    CompareAttsIsLex(b.atts, KeyOf(b).tid, c.atts, KeyOf(c).tid);
    CompareAttsSwap(a.atts, b.atts);
    ZeroMeansEqual(a.atts, b.atts);
  }

  lemma SortedIsGrouped(nkey: nat, items: seq<Item>)
    requires forall i :: 0 <= i < |items| ==> |items[i].atts| == nkey
    requires forall i, j :: 0 <= i < j < |items| ==> LexLess(Key(items[i]), Key(items[j]))
    requires NullsByKey(items)
    ensures Grouped(items)
  {
    forall i, j, k | 0 <= i < j < k < |items| && items[i].atts == items[k].atts
      ensures items[j].atts == items[k].atts
    {
      SandwichedKey(items[i], items[j], items[k]);
    }
  }

  lemma AcceptedPair(nkey: nat, store: Store, b: nat, fuel: nat, i: nat, j: nat)
    requires PageOk(nkey, store, b, fuel) && store[b].leaf
    requires FirstReal(store[b]) <= i < j < |store[b].items|
    ensures LexLess(Key(store[b].items[i]), Key(store[b].items[j]))
  {
    var p, f := store[b], FirstReal(store[b]);
    RealKeysSorted(nkey, p);
    StepSortedIsSorted(RealKeys(p), i - f, j - f);
    assert RealKeys(p)[i - f] == Key(p.items[f + (i - f)]) && RealKeys(p)[j - f] == Key(p.items[f + (j - f)]);
  }

  /** A leaf page that passed the order checks is a fit input for the pass. */
  lemma AcceptedPageIsGrouped(nkey: nat, store: Store, b: nat, fuel: nat, items: seq<Item>)
    requires PageOk(nkey, store, b, fuel) && store[b].leaf && FirstReal(store[b]) <= |store[b].items|
    requires items == store[b].items[FirstReal(store[b])..]
    requires NullsByKey(items)
    ensures Grouped(items) && forall i :: 0 <= i < |items| ==> items[i].tids != []
  {
    var p, f := store[b], FirstReal(store[b]);
    forall i | 0 <= i < |items| ensures |items[i].atts| == nkey && items[i].tids != [] {
      assert items[i] == p.items[f + i] && NattsAt(nkey, p, f + i);
    }
    forall i, j | 0 <= i < j < |items| ensures LexLess(Key(items[i]), Key(items[j])) {
      AcceptedPair(nkey, store, b, fuel, f + i, f + j);
    }
    SortedIsGrouped(nkey, items);
  }
}
