/**
 * Uniqueness along a whole leaf level. Each page is compared with the first item of its right sibling
 * only, so duplicates across pages can escape: exactly those the sibling's first item does not reveal.
 */
module NbtUniqueLevel {
  import opened NbtPages
  import opened NbtOrder
  import opened NbtUnique
  import W = NbtWalk

  // ---------------------------------------------------------------------------------------------
  // One page

  function DataItems(p: Page): seq<Item> { if |p.items| > FirstReal(p) then p.items[FirstReal(p)..] else [] }

  function FirstOf(items: seq<Item>): seq<Item> { if items == [] then [] else [items[0]] }

  /** The right sibling that the cross-page check reads; an ignorable one is not looked at. */
  predicate HasSibling(store: Store, p: Page) {
    !p.Rightmost() && Readable(store, p.next) && !store[p.next].Ignorable()
  }

  function SiblingItem(store: Store, p: Page): seq<Item> {
    if HasSibling(store, p) && store[p.next].leaf then FirstOf(DataItems(store[p.next])) else []
  }

  /** The sibling is an internal page, and its first separator has the key of the last item here. */
  predicate StrangeSibling(store: Store, p: Page) {
    && HasSibling(store, p) && !store[p.next].leaf
    && Shared(DataItems(p), FirstOf(DataItems(store[p.next]))) != []
  }

  /** The page passes: no duplicate on it or with the first item of its right sibling. */
  ghost predicate PageUnique(store: Store, p: Page, vis: Snapshot) {
    !Duplicate(DataItems(p) + Shared(DataItems(p), SiblingItem(store, p)), vis)
  }

  /** The uniqueness part of bt_target_page_check for a leaf page, given the scan key of the first item to the right. */
  method LeafUniqueCheck(store: Store, p: Page, vis: Snapshot, fuel: nat) returns (raised: bool)
    requires Passable(DataItems(p), SiblingItem(store, p)) && RightFirst(store, p, fuel) != Failed
    ensures raised <==> !PageUnique(store, p, vis) || StrangeSibling(store, p)
  {
    var right, strange := [], false;
    if !p.Rightmost() {
      var r := StepRight(store, p.next, fuel);
      var q := store[r.block];
      if |q.items| > FirstReal(q) && !store[p.next].Ignorable() {
        if q.leaf {
          right := [q.items[FirstReal(q)]];
        } else {
          strange := Shared(DataItems(p), [q.items[FirstReal(q)]]) != [];
        }
      }
    }
    assert right == SiblingItem(store, p);
    raised := UniquePass(DataItems(p), vis, right);
    raised := raised || strange;
  }

  // ---------------------------------------------------------------------------------------------
  // A level

  /** The items of a live page. */
  function ItemsAt(store: Store, b: nat): seq<Item> {
    if b < |store| && !store[b].halfDead then DataItems(store[b]) else []
  }

  /** The data items of the live pages, left to right. */
  function LevelItems(store: Store, trail: seq<nat>): seq<Item> {
    if trail == [] then [] else ItemsAt(store, trail[0]) + LevelItems(store, trail[1..])
  }

  ghost predicate LevelUnique(store: Store, trail: seq<nat>, vis: Snapshot) {
    trail == [] || ((LiveAt(store, trail[0]) ==> PageUnique(store, store[trail[0]], vis))
                    && LevelUnique(store, trail[1..], vis))
  }

  /** One entry in a, one in b, both visible, with equal keys that contain no null. */
  ghost predicate AcrossAt(a: seq<Item>, b: seq<Item>, vis: Snapshot, i: int, u: int, j: int, v: int) {
    && 0 <= i < |a| && 0 <= u < |a[i].tids| && 0 <= j < |b| && 0 <= v < |b[j].tids|
    && vis(a[i].tids[u]) && vis(b[j].tids[v]) && a[i].atts == b[j].atts && !a[i].anyNull
  }

  ghost predicate Across(a: seq<Item>, b: seq<Item>, vis: Snapshot) {
    exists i, u, j, v :: AcrossAt(a, b, vis, i, u, j, v)
  }

  /** The page's right sibling is looked at and its first item has a visible entry. */
  ghost predicate Revealing(store: Store, p: Page, vis: Snapshot) {
    SiblingItem(store, p) != [] && VisibleIn(SiblingItem(store, p)[0], vis)
  }

  /** A duplicate across the right border of some page whose sibling reveals nothing. */
  ghost predicate Hidden(store: Store, trail: seq<nat>, vis: Snapshot) {
    trail != [] && (HiddenAt(store, trail, vis) || Hidden(store, trail[1..], vis))
  }

  ghost predicate HiddenAt(store: Store, trail: seq<nat>, vis: Snapshot)
    requires trail != []
  {
    && LiveAt(store, trail[0]) && !Revealing(store, store[trail[0]], vis)
    && Across(ItemsAt(store, trail[0]), LevelItems(store, trail[1..]), vis)
  }

  lemma DuplicateOfConcat(a: seq<Item>, b: seq<Item>, vis: Snapshot)
    ensures Duplicate(a + b, vis) <==> Duplicate(a, vis) || Duplicate(b, vis) || Across(a, b, vis)
  {
    var all, n := a + b, |a|;
    forall i, u, j, v | Clash(all, vis, i, u, j, v)
      ensures Duplicate(a, vis) || Duplicate(b, vis) || Across(a, b, vis)
    {
      if j < n {
        assert Clash(a, vis, i, u, j, v);
      } else if i >= n {
        assert Clash(b, vis, i - n, u, j - n, v);
      } else {
        assert AcrossAt(a, b, vis, i, u, j - n, v);
      }
    }
    forall i, u, j, v | Clash(a, vis, i, u, j, v) ensures Clash(all, vis, i, u, j, v) {
    }
    forall i, u, j, v | Clash(b, vis, i, u, j, v) ensures Clash(all, vis, i + n, u, j + n, v) {
    }
    forall i, u, j, v | AcrossAt(a, b, vis, i, u, j, v) ensures Clash(all, vis, i, u, j + n, v) {
    }
  }

  /** What shares a key across a border shares it with the two items at the border. */
  lemma SharedAtBorder(a: seq<Item>, b: seq<Item>, i: nat, j: nat)
    requires Grouped(a + b) && i < |a| && j < |b| && a[i].atts == b[j].atts
    ensures a[|a| - 1].atts == b[0].atts == a[i].atts && a[|a| - 1].anyNull == b[0].anyNull == a[i].anyNull
  {
    var all, n := a + b, |a|;
    assert all[i] == a[i] && all[n - 1] == a[n - 1] && all[n] == b[0] && all[n + j] == b[j];
    assert i < n - 1 ==> all[n - 1].atts == all[n + j].atts;
    assert j > 0 ==> all[n].atts == all[n + j].atts;
  }

  /** If the first item after the border is visible, nothing crosses a border that was checked. */
  lemma RevealedBorder(a: seq<Item>, b: seq<Item>, vis: Snapshot)
    requires Grouped(a + b) && b != [] && VisibleIn(b[0], vis) && !Duplicate(a + Shared(a, [b[0]]), vis)
    ensures !Across(a, b, vis)
  {
    forall i, u, j, v | AcrossAt(a, b, vis, i, u, j, v) ensures false {
      SharedAtBorder(a, b, i, j);
      ZeroMeansEqual(b[0].atts, a[|a| - 1].atts);
      var w :| 0 <= w < |b[0].tids| && vis(b[0].tids[w]);
      assert AcrossAt(a, [b[0]], vis, i, u, 0, w);
      DuplicateOfConcat(a, [b[0]], vis);
    }
  }

  lemma GroupedSuffix(a: seq<Item>, b: seq<Item>)
    requires Grouped(a + b)
    ensures Grouped(b)
  {
    var all, n := a + b, |a|;
    assert all[n..] == b;
    SuffixGrouped(all, n);
  }

  lemma SuffixGrouped(all: seq<Item>, n: nat)
    requires Grouped(all) && n <= |all|
    ensures Grouped(all[n..])
  {
    var b := all[n..];
    forall i, j, k | 0 <= i < j < k < |b| && b[i].atts == b[k].atts ensures b[j].atts == b[k].atts {
      assert all[n + i].atts == all[n + k].atts;
    }
  }

  /** The sibling's first item is the first one of the rest of the level. */
  lemma SiblingComesNext(store: Store, nkey: nat, fuel: nat, trail: seq<nat>)
    requires Trail(store, 0, nkey, fuel, trail) && LiveAt(store, trail[0])
    ensures var s := SiblingItem(store, store[trail[0]]);
            s != [] ==> LevelItems(store, trail[1..]) != [] && LevelItems(store, trail[1..])[0] == s[0]
  {
    if |trail| > 1 {
      assert LevelItems(store, trail[1..]) == ItemsAt(store, trail[1]) + LevelItems(store, trail[1..][1..]);
    }
  }

  /** One page in front of the others. */
  lemma BorderExactly(store: Store, nkey: nat, fuel: nat, trail: seq<nat>, vis: Snapshot)
    requires Trail(store, 0, nkey, fuel, trail) && Grouped(LevelItems(store, trail))
    requires LiveAt(store, trail[0]) ==> PageUnique(store, store[trail[0]], vis)
    ensures Duplicate(LevelItems(store, trail), vis) <==>
            Duplicate(LevelItems(store, trail[1..]), vis) || HiddenAt(store, trail, vis)
  {
    var a, b := ItemsAt(store, trail[0]), LevelItems(store, trail[1..]);
    DuplicateOfConcat(a, b, vis);
    if LiveAt(store, trail[0]) {
      var s := SiblingItem(store, store[trail[0]]);
      DuplicateOfConcat(a, Shared(a, s), vis);
      SiblingComesNext(store, nkey, fuel, trail);
      if Revealing(store, store[trail[0]], vis) { RevealedBorder(a, b, vis); }
    }
  }

  /** What passes page by page has a duplicate exactly if one is hidden. */
  lemma {:induction false} DuplicateIsHidden(store: Store, nkey: nat, fuel: nat, trail: seq<nat>, vis: Snapshot)
    requires Trail(store, 0, nkey, fuel, trail) && Grouped(LevelItems(store, trail)) && LevelUnique(store, trail, vis)
    ensures Duplicate(LevelItems(store, trail), vis) <==> Hidden(store, trail, vis)
  {
    BorderExactly(store, nkey, fuel, trail, vis);
    if |trail| > 1 {
      GroupedSuffix(ItemsAt(store, trail[0]), LevelItems(store, trail[1..]));
      DuplicateIsHidden(store, nkey, fuel, trail[1..], vis);
    }
  }

  /** No false alarm: without duplicates every page passes. */
  lemma {:induction false} NoFalseAlarm(store: Store, nkey: nat, fuel: nat, trail: seq<nat>, vis: Snapshot)
    requires Trail(store, 0, nkey, fuel, trail) && !Duplicate(LevelItems(store, trail), vis)
    ensures LevelUnique(store, trail, vis)
  {
    var a, b := ItemsAt(store, trail[0]), LevelItems(store, trail[1..]);
    DuplicateOfConcat(a, b, vis);
    if LiveAt(store, trail[0]) {
      var s := Shared(a, SiblingItem(store, store[trail[0]]));
      SiblingComesNext(store, nkey, fuel, trail);
      if Duplicate(a + s, vis) { DuplicateGrows(a + b, vis, a + s); }
    }
    if |trail| > 1 { NoFalseAlarm(store, nkey, fuel, trail[1..], vis); }
  }

  /** At every border with a shared key, the page to the right is looked at and starts with a visible entry. */
  ghost predicate Anchored(store: Store, trail: seq<nat>, vis: Snapshot) {
    trail == [] || (AnchoredAt(store, trail, vis) && Anchored(store, trail[1..], vis))
  }

  ghost predicate AnchoredAt(store: Store, trail: seq<nat>, vis: Snapshot)
    requires trail != []
  {
    var a, b := ItemsAt(store, trail[0]), LevelItems(store, trail[1..]);
    a != [] && b != [] && a[|a| - 1].atts == b[0].atts && !b[0].anyNull ==> Revealing(store, store[trail[0]], vis)
  }

  lemma {:induction false} AnchoredHidesNothing(store: Store, trail: seq<nat>, vis: Snapshot)
    requires Grouped(LevelItems(store, trail)) && Anchored(store, trail, vis)
    ensures !Hidden(store, trail, vis)
  {
    if trail != [] {
      var a, b := ItemsAt(store, trail[0]), LevelItems(store, trail[1..]);
      forall i, u, j, v | AcrossAt(a, b, vis, i, u, j, v) ensures Revealing(store, store[trail[0]], vis) {
        SharedAtBorder(a, b, i, j);
      }
      GroupedSuffix(a, b);
      AnchoredHidesNothing(store, trail[1..], vis);
    }
  }

  // ---------------------------------------------------------------------------------------------
  // A level that passed the order checks

  /** The items have full keys, and ks is their places in the order. */
  ghost predicate Keyed(nkey: nat, ks: seq<seq<int>>, items: seq<Item>) {
    |ks| == |items| && forall i :: 0 <= i < |ks| ==> ks[i] == Key(items[i]) && |items[i].atts| == nkey
  }

  lemma KeyedConcat(nkey: nat, ks: seq<seq<int>>, items: seq<Item>, ks': seq<seq<int>>, items': seq<Item>)
    requires Keyed(nkey, ks, items) && Keyed(nkey, ks', items')
    ensures Keyed(nkey, ks + ks', items + items')
  {
  }

  lemma PageKeyed(nkey: nat, store: Store, b: nat, fuel: nat)
    requires PageOk(nkey, store, b, fuel) && store[b].leaf
    ensures Keyed(nkey, RealKeys(store[b]), DataItems(store[b]))
  {
    var p, f := store[b], FirstReal(store[b]);
    forall i | 0 <= i < |DataItems(p)|
      ensures RealKeys(p)[i] == Key(DataItems(p)[i]) && |DataItems(p)[i].atts| == nkey
    {
      assert NattsAt(nkey, p, f + i);
    }
  }

  lemma {:induction false} LevelKeyed(store: Store, nkey: nat, fuel: nat, trail: seq<nat>)
    requires Trail(store, 0, nkey, fuel, trail)
    ensures Keyed(nkey, LevelKeys(store, trail), LevelItems(store, trail))
  {
    var p, rest := store[trail[0]], trail[1..];
    if rest != [] { LevelKeyed(store, nkey, fuel, rest); }
    if !p.halfDead {
      PageKeyed(nkey, store, trail[0], fuel);
      KeyedConcat(nkey, RealKeys(p), DataItems(p), LevelKeys(store, rest), LevelItems(store, rest));
    }
  }

  /** On such a level LeafUniqueCheck may be called for every live page, and raises an error exactly for duplicates. */
  lemma PassableOnLevel(store: Store, nkey: nat, fuel: nat, trail: seq<nat>)
    requires Trail(store, 0, nkey, fuel, trail) && Grouped(LevelItems(store, trail)) && LiveAt(store, trail[0])
    ensures var p := store[trail[0]];
            Passable(DataItems(p), SiblingItem(store, p)) && !StrangeSibling(store, p)
  {
    var p := store[trail[0]];
    var a, b, s := DataItems(p), LevelItems(store, trail[1..]), SiblingItem(store, p);
    HaveTids(nkey, store, trail[0], fuel);
    SiblingComesNext(store, nkey, fuel, trail);
    GroupedWithFirst(a, b, s);
  }

  lemma HaveTids(nkey: nat, store: Store, b: nat, fuel: nat)
    requires PageOk(nkey, store, b, fuel) && store[b].leaf
    ensures forall i :: 0 <= i < |DataItems(store[b])| ==> DataItems(store[b])[i].tids != []
  {
    var p, f := store[b], FirstReal(store[b]);
    forall i | 0 <= i < |DataItems(p)| ensures DataItems(p)[i].tids != [] { assert NattsAt(nkey, p, f + i); }
  }

  lemma GroupedWithFirst(a: seq<Item>, b: seq<Item>, s: seq<Item>)
    requires Grouped(a + b) && |s| <= 1 && (s != [] ==> b != [] && b[0] == s[0])
    ensures Grouped(a + s)
  {
    var rest := b[|s|..];
    assert b == s + rest;
    assert a + b == (a + s) + rest;
    GroupedPrefix(a + s, rest);
  }

  /**
   * Uniqueness of a leaf level that passed the order checks and is sorted. If every page passes the lazy
   * check, two visible entries of the level share a key exactly if they do so across a border whose
   * right side reveals nothing. Where every border is anchored, the check is the property itself.
   */
  lemma UniqueLevelExactly(store: Store, lv: W.Level, nkey: nat, fuel: nat, trail: seq<nat>, vis: Snapshot)
    requires W.Completed(store, lv, trail) && lv.level == 0
    requires forall b: nat :: lv.pageOk(b) ==> PageOk(nkey, store, b, fuel)
    requires Increasing(LevelKeys(store, trail)) && NullsByKey(LevelItems(store, trail))
    ensures LevelUnique(store, trail, vis) ==>
              (Duplicate(LevelItems(store, trail), vis) <==> Hidden(store, trail, vis))
    ensures Anchored(store, trail, vis) ==>
              (LevelUnique(store, trail, vis) <==> !Duplicate(LevelItems(store, trail), vis))
  {
    var items := LevelItems(store, trail);
    WalkIsTrail(store, lv, nkey, fuel, trail, 0);
    assert trail[0..] == trail;
    LevelKeyed(store, nkey, fuel, trail);
    SortedIsGrouped(nkey, items);
    if LevelUnique(store, trail, vis) { DuplicateIsHidden(store, nkey, fuel, trail, vis); }
    if Anchored(store, trail, vis) { AnchoredHidesNothing(store, trail, vis); }
    if !Duplicate(items, vis) { NoFalseAlarm(store, nkey, fuel, trail, vis); }
  }

  /**
   * Two root leaf pages of an incomplete split. Entries 1 and 3 of key 5 are visible, entry 2 between them
   * is not, and it comes first on the right page.
   */
  function MaskedStore(): Store {
    [LeafPage(0, 0, false, []),
     LeafPage(0, 2, true, [Item([5], [1], false, 0), Item([5], [1], false, 0)]),
     LeafPage(1, 0, false, [Item([5], [2], false, 0), Item([5], [3], false, 0)])]
  }

  const MASKED: Snapshot := (tid: int) => tid != 2

  lemma MaskedPages()
    ensures var store := MaskedStore();
            && DataItems(store[1]) == [Item([5], [1], false, 0)] && DataItems(store[2]) == store[2].items
            && PageOk(1, store, 1, 0) && PageOk(1, store, 2, 0)
  {
    var store := MaskedStore();
    assert ItemOk(store[1], 1) && SkipIgnorable(store, 2, 0) == Landed(2);
    assert ItemOk(store[2], 0) && ItemOk(store[2], 1);
  }

  lemma MaskedUnique()
    ensures LevelUnique(MaskedStore(), [1, 2], MASKED)
  {
    var store := MaskedStore();
    MaskedPages();
    assert SiblingItem(store, store[1]) == [store[2].items[0]] && SiblingItem(store, store[2]) == [];
    assert PageUnique(store, store[1], MASKED) && PageUnique(store, store[2], MASKED);
    assert [1, 2][1..] == [2] && [2][1..] == [];
    assert LevelUnique(store, [2], MASKED);
  }

  /** A level that is accepted in full, uniqueness included, with two visible entries of the same key. */
  lemma InvisibleEntryHidesDuplicate()
    ensures var store := MaskedStore();
            var lv := W.Level(1, 0, true, (b: nat) => PageOk(1, store, b, 0));
            && W.Completed(store, lv, [1, 2]) && LevelUnique(store, [1, 2], MASKED)
            && Duplicate(LevelItems(store, [1, 2]), MASKED)
  {
    var store := MaskedStore();
    var lv := W.Level(1, 0, true, (b: nat) => PageOk(1, store, b, 0));
    MaskedPages();
    MaskedUnique();
    assert W.LinkedBack(store, 1, []) && W.Reached(store, 1, []) == P_NONE;
    assert W.WalkAt(store, lv, 1) == W.At(W.Place(1, 2, true));
    assert W.IsRun(store, lv, [1, 2]);
    assert [1, 2][1..] == [2] && [2][1..] == [];
    assert LevelItems(store, [2]) == DataItems(store[2]) + [];
    assert LevelItems(store, [1, 2]) == DataItems(store[1]) + LevelItems(store, [2]);
    assert Clash(LevelItems(store, [1, 2]), MASKED, 0, 0, 2, 0);
  }
}
