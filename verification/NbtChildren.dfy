/**
 * Keys across two levels: bt_child_check holds the items of a child above its downlink's key, the lockstep holds
 * its high key to the next key, and so the children of one parent page are in order whatever lies between them.
 */
module NbtChildren {
  import opened NbtPages
  import opened NbtWalk
  import opened NbtLockstep
  import opened NbtOrder
  import opened NbtLevels

  // ---------------------------------------------------------------------------------------------
  // bt_child_check

  /** Every real item of the page is strictly above the separator. */
  predicate AboveSeparator(sep: Item, p: Page) {
    !p.deleted && forall i :: FirstReal(p) <= i < |p.items| ==> InvariantL(KeyOf(sep), p.items[i])
  }

  /** bt_child_check, apart from the lockstep: block 0 is not a page that can be checked. */
  method ChildCheck(store: Store, sep: Item, b: nat) returns (ok: bool)
    ensures ok <==> Readable(store, b) && AboveSeparator(sep, store[b])
  {
    if !Readable(store, b) { return false; }
    var p := store[b];
    if p.deleted { return false; }
    var i := p.FirstData();
    while i < |p.items|
      invariant p.FirstData() <= i
      invariant forall j :: FirstReal(p) <= j < i && j < |p.items| ==> InvariantL(KeyOf(sep), p.items[j])
    {
      if !p.NegativeInfinity(i) && !InvariantL(KeyOf(sep), p.items[i]) { return false; }
      i := i + 1;
    }
    return true;
  }

  /** All downlinks of a page but the first passed it. */
  ghost predicate ChildrenChecked(store: Store, t: Page) {
    forall i :: FirstReal(t) <= i < |t.items| ==>
      Readable(store, t.items[i].downlink) && AboveSeparator(t.items[i], store[t.items[i].downlink])
  }

  // ---------------------------------------------------------------------------------------------
  // Order with ties

  predicate LexLe(a: seq<int>, b: seq<int>) { !LexLess(b, a) }

  lemma {:induction false} LexTotal(a: seq<int>, b: seq<int>)
    ensures LexLess(a, b) || a == b || LexLess(b, a)
    ensures !(LexLess(a, b) && LexLess(b, a)) && !LexLess(a, a)
  {
    if a != [] && b != [] {
      LexTotal(a[1..], b[1..]);
      assert a == [a[0]] + a[1..] && b == [b[0]] + b[1..];
    }
    if a != [] { LexIrreflexive(a); }
  }

  lemma {:induction false} LexIrreflexive(a: seq<int>)
    ensures !LexLess(a, a)
  {
    if a != [] { LexIrreflexive(a[1..]); }
  }

  lemma LexLeLess(a: seq<int>, b: seq<int>, c: seq<int>)
    requires LexLe(a, b) && LexLess(b, c)
    ensures LexLess(a, c)
  {
    LexTotal(a, b);
    if LexLess(a, b) { LexTransitive(a, b, c); }
  }

  lemma {:induction false} PrefixOrder(p: seq<int>, x: int, y: int)
    requires x <= y
    ensures LexLe(p + [x], p + [y])
  {
    if p == [] {
      assert [x][1..] == [y][1..] == [];
    } else {
      assert (p + [x])[1..] == p[1..] + [x] && (p + [y])[1..] == p[1..] + [y];
      PrefixOrder(p[1..], x, y);
    }
  }

  // ---------------------------------------------------------------------------------------------
  // The items of one child

  /** The item with its last heap TID only. */
  function Last(t: Item): Item { if t.tids == [] then t else t.(tids := [t.tids[|t.tids| - 1]]) }

  /** The high key check bounds the item's key, on leaf and internal pages alike. */
  lemma HighKeyBounds(nkey: nat, p: Page, i: nat)
    requires !p.Rightmost() && FirstReal(p) <= i < |p.items| && ItemOk(p, i)
    requires NattsAt(nkey, p, 0) && NattsAt(nkey, p, i)
    ensures LexLe(Key(p.items[i]), Key(p.items[0]))
  {
    var x, h := p.items[i], p.items[0];
    LastIsLater(x);
    if p.leaf {
      InvariantGIsOrder(nkey, Last(x), h);
      assert LexLe(Key(Last(x)), Key(h));
      LexTotal(Key(x), Key(Last(x)));
      if LexLess(Key(h), Key(x)) && LexLess(Key(x), Key(Last(x))) { LexTransitive(Key(h), Key(x), Key(Last(x))); }
    } else {
      InvariantLIsOrder(nkey, Last(x), h);
      LexLeLess(Key(x), Key(Last(x)), Key(h));
      LexTotal(Key(x), Key(h));
    }
  }

  lemma LastIsLater(x: Item)
    requires PostingSorted(x)
    ensures LexLe(Key(x), Key(Last(x)))
  {
    if x.tids == [] {
      LexIrreflexive(Key(x));
    } else {
      assert |x.tids| > 1 ==> x.tids[0] < x.tids[|x.tids| - 1];
      PrefixOrder(x.atts, x.tids[0], x.tids[|x.tids| - 1]);
    }
  }

  /** The k-th real item of a page. */
  predicate IsReal(p: Page, i: nat) { FirstReal(p) <= i < |p.items| }

  /**
   * Every real item of a child lies strictly above its downlink's key and, where the child's high key counts,
   * at or below the next one.
   */
  lemma ChildWithinSeparators(nkey: nat, store: Store, t: nat, lowKey: Separator, i: nat, fuel: nat, x: nat)
    requires PageOk(nkey, store, t, fuel) && store[t].FirstData() <= i < |store[t].items|
    requires var c := store[t].items[i].downlink;
             && PageOk(nkey, store, c, fuel) && HighKeyMatches(store[c], LinkAt(store[t], lowKey, i).after)
             && IsReal(store[c], x)
    ensures var c := store[t].items[i].downlink;
            && (IsReal(store[t], i) && AboveSeparator(store[t].items[i], store[c]) ==>
                  LexLess(Key(store[t].items[i]), Key(store[c].items[x])))
            && (HighKeyCounts(store[c]) && LinkAt(store[t], lowKey, i).after.Some? ==>
                  LexLe(Key(store[c].items[x]), Key(LinkAt(store[t], lowKey, i).after.item)))
  {
    var p, c := store[t], store[t].items[i].downlink;
    var q := store[c];
    assert NattsAt(nkey, q, x) && ItemOk(q, x) && NattsAt(nkey, q, 0) && NattsAt(nkey, p, i);
    if IsReal(p, i) { InvariantLIsOrder(nkey, p.items[i], q.items[x]); }
    if HighKeyCounts(q) { HighKeyBounds(nkey, q, x); }
  }

  /** The keys of one internal page ascend. */
  lemma SeparatorsAscend(nkey: nat, store: Store, t: nat, fuel: nat, i: nat, j: nat)
    requires PageOk(nkey, store, t, fuel) && !store[t].leaf && FirstReal(store[t]) <= i <= j < |store[t].items|
    ensures LexLe(Key(store[t].items[i]), Key(store[t].items[j]))
  {
    var p, f := store[t], FirstReal(store[t]);
    LexIrreflexive(Key(p.items[i]));
    if i < j {
      RealKeysSorted(nkey, p);
      StepSortedIsSorted(RealKeys(p), i - f, j - f);
      LexTotal(Key(p.items[i]), Key(p.items[j]));
    }
  }

  /** Two children of one parent page, with nothing said about what lies between them: all items are in order. */
  lemma SiblingsOrdered(nkey: nat, store: Store, t: nat, lowKey: Separator, i: nat, j: nat, fuel: nat, x: nat, y: nat)
    requires PageOk(nkey, store, t, fuel) && !store[t].leaf && ChildrenChecked(store, store[t])
    requires store[t].FirstData() <= i < j < |store[t].items|
    requires var c := store[t].items[i].downlink;
             && PageOk(nkey, store, c, fuel) && HighKeyMatches(store[c], LinkAt(store[t], lowKey, i).after)
             && HighKeyCounts(store[c]) && IsReal(store[c], x)
    requires var d := store[t].items[j].downlink;
             && PageOk(nkey, store, d, fuel) && HighKeyMatches(store[d], LinkAt(store[t], lowKey, j).after)
             && IsReal(store[d], y)
    ensures LexLess(Key(store[store[t].items[i].downlink].items[x]), Key(store[store[t].items[j].downlink].items[y]))
  {
    var p := store[t];
    var kx, ky := Key(store[p.items[i].downlink].items[x]), Key(store[p.items[j].downlink].items[y]);
    var next, mine := Key(p.items[i + 1]), Key(p.items[j]);
    ChildWithinSeparators(nkey, store, t, lowKey, i, fuel, x);
    ChildWithinSeparators(nkey, store, t, lowKey, j, fuel, y);
    SeparatorsAscend(nkey, store, t, fuel, i + 1, j);
    assert LexLe(kx, next) && LexLe(next, mine) && LexLess(mine, ky);
    LexLeLess(next, mine, ky);
    LexLeLess(kx, next, ky);
  }

  // ---------------------------------------------------------------------------------------------
  // A whole child level

  /** A level of internal pages that passed the order checks and the checks of their children. */
  ghost predicate ParentsOk(nkey: nat, store: Store, blocks: seq<nat>, fuel: nat) {
    forall m :: 0 <= m < |blocks| ==>
      PageOk(nkey, store, blocks[m], fuel) && !store[blocks[m]].leaf && ChildrenChecked(store, store[blocks[m]])
  }

  function PagesAt(store: Store, blocks: seq<nat>): (ps: seq<Page>)
    requires forall m :: 0 <= m < |blocks| ==> blocks[m] < |store|
    ensures |ps| == |blocks| && forall m :: 0 <= m < |ps| ==> ps[m] == store[blocks[m]]
  {
    seq(|blocks|, m requires 0 <= m < |blocks| => store[blocks[m]])
  }

  /** The two blocks are named by the items i < j of one parent page. */
  predicate Siblings(store: Store, t: nat, i: nat, j: nat, a: nat, c: nat) {
    && t < |store| && store[t].FirstData() <= i < j < |store[t].items|
    && store[t].items[i].downlink == a && store[t].items[j].downlink == c
  }

  /** Where the high key of a child counts, it is the separator after the downlink. */
  lemma ChildHighKey(store: Store, level: nat, targets: seq<Page>, trail: seq<nat>, marks: seq<nat>, m: nat, i: nat)
    requires InLockstep(store, level, LevelLinks(targets, |targets|), trail, marks)
    requires m < |targets| && targets[m].FirstData() <= i < |targets[m].items|
    ensures var c := targets[m].items[i].downlink;
            Readable(store, c) && HighKeyMatches(store[c], LinkAt(targets[m], LowKey(targets, m), i).after)
  {
    var links := LevelLinks(targets, |targets|);
    LinkInLevel(targets, m, i);
    var k := |LevelLinks(targets, m) + PageLinks(targets[m], LowKey(targets, m), i)|;
    assert links[k] == LinkAt(targets[m], LowKey(targets, m), i);
    assert MarkOk(store, links, trail, marks, k);
  }

  /**
   * A level and the level below it: the blocks of the upper one, the walk of the lockstep with its marks and
   * its tail behind the last downlink, and the walk of the lower level itself.
   */
  datatype TwoLevels = TwoLevels(
    nkey: nat, store: Store, fuel: nat, level: nat, blocks: seq<nat>, trail: seq<nat>, marks: seq<nat>,
    tail: seq<nat>, lv: Level, walk: seq<nat>)

  /** Everything the check established about the two levels. */
  ghost predicate BothAccepted(x: TwoLevels) {
    && |x.store| <= INVALID_BLOCK && ParentsOk(x.nkey, x.store, x.blocks, x.fuel)
    && (forall b: nat :: x.lv.pageOk(b) ==> PageOk(x.nkey, x.store, b, x.fuel)) && Completed(x.store, x.lv, x.walk)
    && var links := LevelLinks(PagesAt(x.store, x.blocks), |x.blocks|);
       links != [] && x.lv.leftmost == links[0].down
       && LockstepBy(x.store, x.level, links, x.trail, x.marks, x.tail)
  }

  /** How it gets to be established. */
  lemma AcceptedBoth(nkey: nat, store: Store, fuel: nat, level: nat, blocks: seq<nat>, links: seq<Link>, lv: Level,
                     walk: seq<nat>) returns (x: TwoLevels)
    requires |store| <= INVALID_BLOCK && ParentsOk(nkey, store, blocks, fuel) && Completed(store, lv, walk)
    requires forall b: nat :: lv.pageOk(b) ==> PageOk(nkey, store, b, fuel)
    requires links == LevelLinks(PagesAt(store, blocks), |blocks|) && links != [] && lv.leftmost == links[0].down
    requires Walked(store, level, links) && NoZeroDownlink(links)
    ensures BothAccepted(x) && x.store == store && x.blocks == blocks && x.walk == walk
  {
    LockstepExactly(store, level, links);
    var trail, marks, tail :| LockstepBy(store, level, links, trail, marks, tail);
    x := TwoLevels(nkey, store, fuel, level, blocks, trail, marks, tail, lv, walk);
  }

  /** Two live children of one page, the first one not in the middle of a split: the boundary is in order. */
  lemma SiblingBoundary(x: TwoLevels, a: nat, c: nat, m: nat, i: nat, j: nat)
    requires BothAccepted(x) && a < c < |x.walk| && RealAt(x.store, x.walk[a]) && RealAt(x.store, x.walk[c])
    requires m < |x.blocks| && Siblings(x.store, x.blocks[m], i, j, x.walk[a], x.walk[c])
    requires !x.store[x.walk[a]].incompleteSplit
    ensures LexLess(FinalKey(x.store[x.walk[a]]), FirstKey(x.store[x.walk[c]]))
  {
    var targets, t := PagesAt(x.store, x.blocks), x.blocks[m];
    ChildHighKey(x.store, x.level, targets, x.trail, x.marks, m, i);
    ChildHighKey(x.store, x.level, targets, x.trail, x.marks, m, j);
    CompletedPage(x.store, x.lv, x.walk, a);
    CompletedPage(x.store, x.lv, x.walk, c);
    SiblingsOrdered(x.nkey, x.store, t, LowKey(targets, m), i, j, x.fuel,
                    |x.store[x.walk[a]].items| - 1, FirstReal(x.store[x.walk[c]]));
  }

  /** Real pages with nothing but empty live pages, at least one, between them. */
  ghost predicate GapAt(store: Store, walk: seq<nat>, a: nat, c: nat) {
    && a < c < |walk| && RealAt(store, walk[a]) && RealAt(store, walk[c])
    && (forall b :: a < b < c ==> !RealAt(store, walk[b])) && (exists b :: a < b < c && LiveAt(store, walk[b]))
  }

  /** The two sides hang under one page of the upper level, and no split is under way on the left. */
  ghost predicate Closed(x: TwoLevels, a: nat, c: nat)
    requires a < |x.walk| && c < |x.walk| && x.walk[a] < |x.store|
  {
    && !x.store[x.walk[a]].incompleteSplit
    && exists m: nat, i: nat, j: nat :: m < |x.blocks| && Siblings(x.store, x.blocks[m], i, j, x.walk[a], x.walk[c])
  }

  /** The keys on the two sides of a gap are in order. */
  ghost predicate GapInOrder(store: Store, walk: seq<nat>, a: nat, c: nat)
    requires GapAt(store, walk, a, c)
  {
    LexLess(FinalKey(store[walk[a]]), FirstKey(store[walk[c]]))
  }

  /** ... wherever the upper level does not see to it. */
  ghost predicate OpenGapsOrdered(x: TwoLevels) {
    forall a: nat, c: nat :: GapAt(x.store, x.walk, a, c) ==> Closed(x, a, c) || GapInOrder(x.store, x.walk, a, c)
  }

  /** The first key after a page is that of the first real page. */
  lemma {:induction false} FirstRealPage(store: Store, trail: seq<nat>) returns (c: nat)
    requires LevelKeys(store, trail) != []
    ensures c < |trail| && RealAt(store, trail[c]) && LevelKeys(store, trail)[0] == FirstKey(store[trail[c]])
    ensures forall b :: 0 <= b < c ==> !RealAt(store, trail[b])
  {
    c := 0;
    if !RealAt(store, trail[0]) {
      var d := FirstRealPage(store, trail[1..]);
      c := d + 1;
      assert LevelKeys(store, trail) == LevelKeys(store, trail[1..]);
      forall b | 0 <= b < c ensures !RealAt(store, trail[b]) { if b > 0 { assert trail[1..][b - 1] == trail[b]; } }
    }
  }

  /** Where the next live page is empty and a key follows, there is a gap up to that key's page. */
  lemma FindGap(nkey: nat, store: Store, fuel: nat, lv: Level, walk: seq<nat>, a: nat) returns (c: nat)
    requires Completed(store, lv, walk) && forall b: nat :: lv.pageOk(b) ==> PageOk(nkey, store, b, fuel)
    requires a + 1 < |walk| && RealAt(store, walk[a])
    requires !RealAt(store, walk[a + 1..][NextLive(store, walk[a + 1..])]) && LevelKeys(store, walk[a + 1..]) != []
    ensures GapAt(store, walk, a, c) && LevelKeys(store, walk[a + 1..])[0] == FirstKey(store[walk[c]])
  {
    var rest := walk[a + 1..];
    var d := FirstRealPage(store, rest);
    var b := NextLive(store, rest);
    c := a + 1 + d;
    WalkIsTrail(store, lv, nkey, fuel, walk, a + 1);
    NextLiveIsFirst(store, lv.level, nkey, fuel, rest);
    assert rest[d] == walk[c] && rest[b] == walk[a + 1 + b] && b < d;
    forall e | a < e < c ensures !RealAt(store, walk[e]) { assert rest[e - (a + 1)] == walk[e]; }
    assert LiveAt(store, walk[a + 1 + b]);
  }

  lemma ClosedGapIsOrdered(x: TwoLevels, a: nat, c: nat)
    requires BothAccepted(x) && GapAt(x.store, x.walk, a, c) && Closed(x, a, c)
    ensures GapInOrder(x.store, x.walk, a, c)
  {
    var m: nat, i: nat, j: nat :| m < |x.blocks| && Siblings(x.store, x.blocks[m], i, j, x.walk[a], x.walk[c]);
    SiblingBoundary(x, a, c, m, i, j);
  }

  /** A page, an empty live page next, and a key later on: that key comes after. */
  lemma GapKeyIsLater(x: TwoLevels, a: nat)
    requires BothAccepted(x) && OpenGapsOrdered(x) && a + 1 < |x.walk| && RealAt(x.store, x.walk[a])
    requires !RealAt(x.store, x.walk[a + 1..][NextLive(x.store, x.walk[a + 1..])])
    requires LevelKeys(x.store, x.walk[a + 1..]) != []
    ensures LexLess(FinalKey(x.store[x.walk[a]]), LevelKeys(x.store, x.walk[a + 1..])[0])
  {
    var c := FindGap(x.nkey, x.store, x.fuel, x.lv, x.walk, a);
    if Closed(x, a, c) { ClosedGapIsOrdered(x, a, c); }
    assert GapInOrder(x.store, x.walk, a, c);
  }

  /** Every gap is ordered, so every suffix of the walk is. */
  lemma {:induction false} SuffixOrdered(x: TwoLevels, a: nat)
    requires BothAccepted(x) && OpenGapsOrdered(x) && a <= |x.walk|
    ensures GapsOrdered(x.store, x.walk[a..])
    decreases |x.walk| - a
  {
    if a < |x.walk| {
      SuffixOrdered(x, a + 1);
      var rest := x.walk[a + 1..];
      assert x.walk[a..][1..] == rest;
      if RealAt(x.store, x.walk[a]) && rest != []
         && !RealAt(x.store, rest[NextLive(x.store, rest)]) && LevelKeys(x.store, rest) != [] {
        GapKeyIsLater(x, a);
      }
    }
  }

  lemma {:induction false} SuffixOfOrdered(store: Store, walk: seq<nat>, a: nat)
    requires GapsOrdered(store, walk) && a <= |walk|
    ensures GapsOrdered(store, walk[a..])
    decreases a
  {
    if a == 0 {
      assert walk[0..] == walk;
    } else {
      SuffixOfOrdered(store, walk, a - 1);
      assert walk[a - 1..][1..] == walk[a..];
    }
  }

  /** The keys of a walk start with those of its first real page. */
  lemma {:induction false} KeysStartAt(store: Store, trail: seq<nat>, d: nat)
    requires d < |trail| && RealAt(store, trail[d]) && forall b :: 0 <= b < d ==> !RealAt(store, trail[b])
    ensures LevelKeys(store, trail) != [] && LevelKeys(store, trail)[0] == FirstKey(store[trail[d]])
  {
    if d > 0 {
      assert forall b :: 0 <= b < d - 1 ==> trail[1..][b] == trail[b + 1];
      KeysStartAt(store, trail[1..], d - 1);
      assert !RealAt(store, trail[0]);
    }
  }

  lemma GapFirstKey(store: Store, walk: seq<nat>, a: nat, c: nat)
    requires GapAt(store, walk, a, c)
    ensures var rest := walk[a + 1..];
            LevelKeys(store, rest) != [] && LevelKeys(store, rest)[0] == FirstKey(store[walk[c]])
  {
    var rest, d := walk[a + 1..], c - (a + 1);
    assert rest[d] == walk[c];
    forall b | 0 <= b < d ensures !RealAt(store, rest[b]) { assert rest[b] == walk[a + 1 + b]; }
    KeysStartAt(store, rest, d);
  }

  lemma GapNextEmpty(nkey: nat, store: Store, fuel: nat, lv: Level, walk: seq<nat>, a: nat, c: nat)
    requires Completed(store, lv, walk) && (forall b: nat :: lv.pageOk(b) ==> PageOk(nkey, store, b, fuel))
    requires GapAt(store, walk, a, c)
    ensures var rest := walk[a + 1..]; !RealAt(store, rest[NextLive(store, rest)])
  {
    var rest := walk[a + 1..];
    WalkIsTrail(store, lv, nkey, fuel, walk, a + 1);
    NextLiveIsFirst(store, lv.level, nkey, fuel, rest);
    var e :| a < e < c && LiveAt(store, walk[e]);
    assert rest[e - (a + 1)] == walk[e];
    var b := NextLive(store, rest);
    assert rest[b] == walk[a + 1 + b];
  }

  /** In an ordered walk every gap is in order. */
  lemma OrderedGap(nkey: nat, store: Store, fuel: nat, lv: Level, walk: seq<nat>, a: nat, c: nat)
    requires Completed(store, lv, walk) && (forall b: nat :: lv.pageOk(b) ==> PageOk(nkey, store, b, fuel))
    requires GapsOrdered(store, walk) && GapAt(store, walk, a, c)
    ensures GapInOrder(store, walk, a, c)
  {
    SuffixOfOrdered(store, walk, a);
    assert walk[a..][1..] == walk[a + 1..];
    GapFirstKey(store, walk, a, c);
    GapNextEmpty(nkey, store, fuel, lv, walk, a, c);
    assert GapOk(store, walk[a..]);
  }

  /**
   * When a level and the level below it were accepted, the real items of the lower level are strictly
   * increasing exactly if they are so across every gap that the upper level leaves open: those whose two sides
   * do not hang under one page, or whose left side is in the middle of a split.
   */
  lemma ChildLevelSorted(x: TwoLevels)
    requires BothAccepted(x)
    ensures Increasing(LevelKeys(x.store, x.walk)) <==> OpenGapsOrdered(x)
  {
    AcceptedLevelIsSorted(x.store, x.lv, x.nkey, x.fuel, x.walk);
    if OpenGapsOrdered(x) {
      SuffixOrdered(x, 0);
      assert x.walk[0..] == x.walk;
    }
    if GapsOrdered(x.store, x.walk) {
      forall a: nat, c: nat | GapAt(x.store, x.walk, a, c) ensures GapInOrder(x.store, x.walk, a, c) {
        OrderedGap(x.nkey, x.store, x.fuel, x.lv, x.walk, a, c);
      }
    }
  }

  // ---------------------------------------------------------------------------------------------
  // Below a single page

  lemma {:induction false} PageLinkAt(t: Page, lowKey: Separator, n: nat, k: nat)
    requires t.FirstData() <= n <= |t.items| && k < n - t.FirstData()
    ensures |PageLinks(t, lowKey, n)| == n - t.FirstData()
    ensures PageLinks(t, lowKey, n)[k] == LinkAt(t, lowKey, t.FirstData() + k)
    decreases n
  {
    if n - 1 > t.FirstData() { PageLinkAt(t, lowKey, n - 1, if k < n - 1 - t.FirstData() then k else 0); }
  }

  predicate Alive(store: Store, b: nat) { b < |store| && !store[b].Ignorable() }

  /** A page without an incomplete split and, if it is live, without any other excuse. */
  ghost predicate Settled(store: Store, b: nat) {
    && Readable(store, b) && !store[b].incompleteSplit
    && (!store[b].Ignorable() ==>
          !store[b].root && forall chain: seq<nat> :: !DeletionChain(store, b, chain))
  }

  /** Without excuses, every live page of the child level is named by a downlink. */
  lemma LiveIsLinked(store: Store, level: nat, links: seq<Link>, trail: seq<nat>, marks: seq<nat>, tail: seq<nat>,
                     walk: seq<nat>, a: nat)
    requires LockstepBy(store, level, links, trail, marks, tail) && links != [] && walk == trail + tail
    requires forall b :: 0 <= b < |walk| ==> Settled(store, walk[b])
    requires a < |walk| && Alive(store, walk[a])
    ensures a < |trail| && a in marks
  {
    assert Settled(store, walk[a]) && (a > 0 ==> Settled(store, walk[a - 1]));
    if a < |trail| {
      assert TrailOk(store, level, trail, marks, a);
    } else {
      var j := a - |trail|;
      PassedPage(store, level, LastBlock(trail), FINAL, tail, j);
      if j > 0 { PassedPage(store, level, LastBlock(trail), FINAL, tail, j - 1); }
    }
  }

  /** Below a single page, any two live children hang under that page. */
  lemma UnderOnePage(store: Store, level: nat, t: nat, trail: seq<nat>, marks: seq<nat>, tail: seq<nat>,
                     walk: seq<nat>, a: nat, c: nat) returns (i: nat, j: nat)
    requires t < |store| && PageLinks(store[t], None, |store[t].items|) != []
    requires LockstepBy(store, level, PageLinks(store[t], None, |store[t].items|), trail, marks, tail)
    requires walk == trail + tail && forall b :: 0 <= b < |walk| ==> Settled(store, walk[b])
    requires a < c < |walk| && Alive(store, walk[a]) && Alive(store, walk[c])
    ensures Siblings(store, t, i, j, walk[a], walk[c])
  {
    var p, links := store[t], PageLinks(store[t], None, |store[t].items|);
    LiveIsLinked(store, level, links, trail, marks, tail, walk, a);
    LiveIsLinked(store, level, links, trail, marks, tail, walk, c);
    var k :| 0 <= k < |marks| && marks[k] == a;
    var l :| 0 <= l < |marks| && marks[l] == c;
    assert MarkOk(store, links, trail, marks, k) && MarkOk(store, links, trail, marks, l);
    assert k < l;
    PageLinkAt(p, None, |p.items|, 0);
    PageLinkAt(p, None, |p.items|, k);
    PageLinkAt(p, None, |p.items|, l);
    i, j := p.FirstData() + k, p.FirstData() + l;
  }

  /**
   * Below a level of one page, such as the root: if no page has an excuse to lack a downlink, the accepted
   * child level is sorted, empty pages or not.
   */
  lemma SortedBelowOnePage(x: TwoLevels, t: nat)
    requires BothAccepted(x) && x.blocks == [t] && forall b :: 0 <= b < |x.walk| ==> Settled(x.store, x.walk[b])
    ensures Increasing(LevelKeys(x.store, x.walk))
  {
    var targets := PagesAt(x.store, x.blocks);
    var links := LevelLinks(targets, 1);
    assert targets == [x.store[t]] && LevelLinks(targets, 0) == [];
    assert links == PageLinks(x.store[t], None, |x.store[t].items|);
    LockstepIsChildWalk(x.store, x.level, links, x.trail, x.marks, x.tail, x.lv, x.walk);
    forall a: nat, c: nat | GapAt(x.store, x.walk, a, c) ensures Closed(x, a, c) {
      assert Settled(x.store, x.walk[a]);
      CompletedPage(x.store, x.lv, x.walk, a);
      CompletedPage(x.store, x.lv, x.walk, c);
      var i, j := UnderOnePage(x.store, x.level, t, x.trail, x.marks, x.tail, x.walk, a, c);
      assert 0 < |x.blocks| && Siblings(x.store, x.blocks[0], i, j, x.walk[a], x.walk[c]);
    }
    ChildLevelSorted(x);
  }
}
