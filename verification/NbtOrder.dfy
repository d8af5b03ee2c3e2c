/**
 * Key order on a B-tree level: bt_target_page_check compares neighbours only, on a page and across
 * to the next live page, and that is enough for the whole level to be strictly sorted.
 */
module NbtOrder {
  import opened NbtPages
  import opened NbtWalk

  // ---------------------------------------------------------------------------------------------
  // Keys

  /** Lexicographic order in which a missing attribute is minus infinity. */
  predicate LexLess(a: seq<int>, b: seq<int>) {
    b != [] && (a == [] || a[0] < b[0] || (a[0] == b[0] && LexLess(a[1..], b[1..])))
  }

  lemma {:induction false} LexTransitive(a: seq<int>, b: seq<int>, c: seq<int>)
    requires LexLess(a, b) && LexLess(b, c)
    ensures LexLess(a, c)
  {
    if a != [] && a[0] == b[0] == c[0] { LexTransitive(a[1..], b[1..], c[1..]); }
  }

  /** An item's place in the order: key attributes, then the first heap TID. */
  function Key(t: Item): seq<int> { t.atts + if t.tids == [] then [] else [t.tids[0]] }

  /** ... and the place of its last heap TID. */
  function LastKey(t: Item): seq<int> { t.atts + if t.tids == [] then [] else [t.tids[|t.tids| - 1]] }

  /** An insertion scan key made from a tuple: the attributes it has, and a heap TID if it has one. */
  datatype ScanKey = ScanKey(atts: seq<int>, tid: seq<int>)

  function KeyOf(t: Item): ScanKey { ScanKey(t.atts, if t.tids == [] then [] else [t.tids[0]]) }

  /** The same with the highest TID of a posting list, as the high key check sets it. */
  function LastKeyOf(t: Item): ScanKey { ScanKey(t.atts, if t.tids == [] then [] else [t.tids[|t.tids| - 1]]) }

  /** The sign of the first difference among the attributes both have. */
  function CompareAtts(a: seq<int>, b: seq<int>): int {
    if a == [] || b == [] then 0
    else if a[0] != b[0] then a[0] - b[0]
    else CompareAtts(a[1..], b[1..])
  }

  /** _bt_compare for a backward scan key, on an item that is not negative infinity. */
  function Compare(k: ScanKey, t: Item): int {
    var c := CompareAtts(k.atts, t.atts);
    if c != 0 then c
    else if |k.atts| > |t.atts| then 1
    else if k.tid == [] then 0
    else if t.tids == [] then 1
    else if k.tid[0] <= t.tids[0] || |t.tids| == 1 then k.tid[0] - t.tids[0]
    else if k.tid[0] > t.tids[|t.tids| - 1] then 1
    else 0
  }

  /** invariant_l_offset of a heapkeyspace index. */
  predicate InvariantL(k: ScanKey, t: Item) {
    var cmp := Compare(k, t);
    if cmp == 0 then
      if |k.atts| == |t.atts| then k.tid == [] && t.tids != [] else |k.atts| < |t.atts|
    else cmp < 0
  }

  predicate InvariantLeq(k: ScanKey, t: Item) { Compare(k, t) <= 0 }

  predicate InvariantG(k: ScanKey, t: Item) { Compare(k, t) > 0 }

  /** A heap TID comes only after all key attributes, as _bt_check_natts demands. */
  predicate NattsOk(nkey: nat, t: Item) { |t.atts| <= nkey && (t.tids != [] ==> |t.atts| == nkey) }

  lemma {:induction false} CompareAttsIsLex(a: seq<int>, x: seq<int>, b: seq<int>, y: seq<int>)
    requires CompareAtts(a, b) != 0 || |a| == |b| || (|a| < |b| && x == []) || (|a| > |b| && y == [])
    ensures CompareAtts(a, b) != 0 ==> (LexLess(a + x, b + y) <==> CompareAtts(a, b) < 0)
    ensures CompareAtts(a, b) == 0 && |a| == |b| ==> (LexLess(a + x, b + y) <==> LexLess(x, y))
    ensures CompareAtts(a, b) == 0 && |a| != |b| ==> (LexLess(a + x, b + y) <==> |a| < |b|)
  {
    if a != [] && b != [] {
      assert (a + x)[1..] == a[1..] + x && (b + y)[1..] == b[1..] + y;
      if a[0] == b[0] { CompareAttsIsLex(a[1..], x, b[1..], y); }
    } else {
      assert a == [] ==> a + x == x;
      assert b == [] ==> b + y == y;
    }
  }

  lemma {:induction false} CompareAttsSwap(a: seq<int>, b: seq<int>)
    ensures CompareAtts(a, b) == -CompareAtts(b, a)
  {
    if a != [] && b != [] && a[0] == b[0] { CompareAttsSwap(a[1..], b[1..]); }
  }

  /** The strict test of two neighbours is the order, truncated attributes and all. */
  lemma InvariantLIsOrder(nkey: nat, a: Item, b: Item)
    requires NattsOk(nkey, a) && NattsOk(nkey, b)
    ensures InvariantL(KeyOf(a), b) <==> LexLess(Key(a), Key(b))
  {
    CompareAttsIsLex(a.atts, KeyOf(a).tid, b.atts, KeyOf(b).tid);
  }

  /** The test across pages is stronger: the left item's last TID also precedes the right item. */
  lemma InvariantGIsOrder(nkey: nat, r: Item, t: Item)
    requires NattsOk(nkey, r) && NattsOk(nkey, t)
    requires forall i, j :: 0 <= i < j < |t.tids| ==> t.tids[i] < t.tids[j]
    ensures InvariantG(KeyOf(r), t) <==> LexLess(LastKey(t), Key(r))
    ensures InvariantG(KeyOf(r), t) ==> LexLess(Key(t), Key(r))
  {
    CompareAttsSwap(r.atts, t.atts);
    CompareAttsIsLex(t.atts, LastKeyOf(t).tid, r.atts, KeyOf(r).tid);
    CompareAttsIsLex(t.atts, KeyOf(t).tid, r.atts, KeyOf(r).tid);
  }

  // ---------------------------------------------------------------------------------------------
  // The order checks of bt_target_page_check

  /** Index of the first real item: after the high key, and after negative infinity on an internal page. */
  function FirstReal(p: Page): nat { if p.leaf then p.FirstData() else p.FirstData() + 1 }

  /** _bt_check_natts for the item at index i of a heapkeyspace index. */
  predicate NattsAt(nkey: nat, p: Page, i: nat)
    requires i < |p.items|
  {
    var t := p.items[i];
    if p.leaf && i >= p.FirstData() then |t.atts| == nkey && t.tids != []
    else if p.NegativeInfinity(i) then t.atts == [] && t.tids == []
    else NattsOk(nkey, t) && t.atts != [] && |t.tids| <= 1
  }

  predicate PostingSorted(t: Item) { forall i, j :: 0 <= i < j < |t.tids| ==> t.tids[i] < t.tids[j] }

  /** High key check and item order check for the real item at index i. */
  predicate ItemOk(p: Page, i: nat)
    requires i < |p.items|
  {
    && PostingSorted(p.items[i])
    && (!p.Rightmost() ==>
          if p.leaf then InvariantLeq(LastKeyOf(p.items[i]), p.items[0])
          else InvariantL(LastKeyOf(p.items[i]), p.items[0]))
    && (i + 1 < |p.items| ==> InvariantL(KeyOf(p.items[i]), p.items[i + 1]))
  }

  /** An item whose only heap TID is the last one of a posting list. */
  function LastOnly(t: Item): Item { t.(tids := if t.tids == [] then [] else [t.tids[|t.tids| - 1]]) }

  /** The test against the high key of a leaf page: the item's last TID is not beyond it. */
  lemma InvariantLeqIsOrder(nkey: nat, t: Item, hikey: Item)
    requires NattsOk(nkey, t) && NattsOk(nkey, hikey) && |hikey.tids| <= 1
    ensures InvariantLeq(LastKeyOf(t), hikey) <==> !LexLess(Key(hikey), LastKey(t))
  {
    assert KeyOf(LastOnly(t)) == LastKeyOf(t) && Key(LastOnly(t)) == LastKey(t);
    InvariantGIsOrder(nkey, LastOnly(t), hikey);
  }

  /** What is asked of a real item, in terms of the order: where it may lie, and what comes next. */
  lemma ItemOkExactly(nkey: nat, p: Page, i: nat)
    requires FirstReal(p) <= i < |p.items| && forall j :: 0 <= j < |p.items| ==> NattsAt(nkey, p, j)
    ensures ItemOk(p, i) <==>
            && PostingSorted(p.items[i])
            && (!p.Rightmost() && p.leaf ==> !LexLess(Key(p.items[0]), LastKey(p.items[i])))
            && (!p.Rightmost() && !p.leaf ==> LexLess(LastKey(p.items[i]), Key(p.items[0])))
            && (i + 1 < |p.items| ==> LexLess(Key(p.items[i]), Key(p.items[i + 1])))
  {
    assert NattsAt(nkey, p, i);
    if !p.Rightmost() {
      assert NattsAt(nkey, p, 0);
      InvariantLeqIsOrder(nkey, p.items[i], p.items[0]);
      if !p.leaf {
        assert LastKeyOf(p.items[i]) == KeyOf(p.items[i]);
        InvariantLIsOrder(nkey, p.items[i], p.items[0]);
      }
    }
    if i + 1 < |p.items| {
      assert NattsAt(nkey, p, i + 1);
      InvariantLIsOrder(nkey, p.items[i], p.items[i + 1]);
    }
  }

  datatype Landing = Interrupted | Unreadable | Landed(block: nat)

  /** The loop of bt_right_page_check_scankey over ignorable pages, for so many steps before an interrupt. */
  function SkipIgnorable(store: Store, b: nat, fuel: nat): (r: Landing)
    ensures r.Landed? ==> Readable(store, r.block)
    decreases fuel
  {
    if !Readable(store, b) then Unreadable
    else if !store[b].Ignorable() || store[b].Rightmost() then Landed(b)
    else if fuel == 0 then Interrupted
    else SkipIgnorable(store, store[b].next, fuel - 1)
  }

  datatype RightKey = Failed | NoKey | RightKey(item: Item)

  /** bt_right_page_check_scankey: the first real item to the right, if there is one. */
  function RightFirst(store: Store, p: Page, fuel: nat): RightKey {
    if p.Rightmost() then NoKey
    else
      match SkipIgnorable(store, p.next, fuel)
      case Landed(r) =>
        var q := store[r];
        if |q.items| > FirstReal(q) then RightKey(q.items[FirstReal(q)]) else NoKey
      case _ => Failed
  }

  /** Last item check. */
  predicate LastItemOk(store: Store, p: Page, fuel: nat) {
    |p.items| > FirstReal(p) ==>
      match RightFirst(store, p, fuel)
      case Failed => false
      case NoKey => true
      case RightKey(t) => InvariantG(KeyOf(t), p.items[|p.items| - 1])
  }

  predicate PageOk(nkey: nat, store: Store, b: nat, fuel: nat) {
    && Readable(store, b)
    && var p := store[b];
       && (forall i :: 0 <= i < |p.items| ==> NattsAt(nkey, p, i))
       && (forall i :: FirstReal(p) <= i < |p.items| ==> ItemOk(p, i))
       && LastItemOk(store, p, fuel)
  }

  /** The loop that lands on the first page to the right that is not ignorable. */
  method StepRight(store: Store, b: nat, fuel: nat) returns (r: Landing)
    ensures r == SkipIgnorable(store, b, fuel)
  {
    var target, left: nat := b, fuel;
    while true
      invariant left <= fuel && SkipIgnorable(store, target, left) == SkipIgnorable(store, b, fuel)
      decreases left
    {
      if !Readable(store, target) { return Unreadable; }
      if !store[target].Ignorable() || store[target].Rightmost() { return Landed(target); }
      if left == 0 { return Interrupted; }
      target, left := store[target].next, left - 1;
    }
  }

  /** The comparison of the last item with the first one to the right. */
  method LastItemCheck(store: Store, p: Page, fuel: nat) returns (ok: bool)
    requires |p.items| > FirstReal(p)
    ensures ok == LastItemOk(store, p, fuel)
  {
    if p.Rightmost() { return true; }
    var r := StepRight(store, p.next, fuel);
    if !r.Landed? { return false; }
    var q := store[r.block];
    return |q.items| > FirstReal(q) ==> InvariantG(KeyOf(q.items[FirstReal(q)]), p.items[|p.items| - 1]);
  }

  /** The order part of bt_target_page_check: false where the source raises an error. */
  method TargetPageCheck(nkey: nat, store: Store, b: nat, fuel: nat) returns (ok: bool)
    requires Readable(store, b)
    ensures ok == PageOk(nkey, store, b, fuel)
  {
    var p := store[b];
    if !p.Rightmost() && |p.items| > 0 && !NattsAt(nkey, p, 0) { return false; }
    var offset := p.FirstData();
    while offset < |p.items|
      invariant p.FirstData() <= offset
      invariant forall i :: 0 <= i < offset && i < |p.items| ==> NattsAt(nkey, p, i)
      invariant forall i :: FirstReal(p) <= i < offset && i < |p.items| ==> ItemOk(p, i)
      invariant offset >= |p.items| ==> LastItemOk(store, p, fuel)
    {
      if !NattsAt(nkey, p, offset) { return false; }
      if !p.NegativeInfinity(offset) {
        if !ItemOk(p, offset) { return false; }
        if offset == |p.items| - 1 {
          var last := LastItemCheck(store, p, fuel);
          if !last { return false; }
        }
      }
      offset := offset + 1;
    }
    return true;
  }

  // ---------------------------------------------------------------------------------------------
  // A level that was accepted

  /** What the order needs of one page of an accepted walk. */
  ghost predicate OnTrail(store: Store, level: nat, nkey: nat, fuel: nat, b: nat) {
    && Readable(store, b) && !store[b].deleted
    && (!store[b].halfDead ==>
          store[b].level == level && PageOk(nkey, store, b, fuel))
  }

  /** The blocks of an accepted walk; the last page is live. */
  ghost predicate Trail(store: Store, level: nat, nkey: nat, fuel: nat, trail: seq<nat>) {
    && trail != [] && OnTrail(store, level, nkey, fuel, trail[0])
    && var p := store[trail[0]];
       if |trail| == 1 then p.Rightmost() && !p.halfDead
       else !p.Rightmost() && p.next == trail[1] && Trail(store, level, nkey, fuel, trail[1..])
  }

  /** The keys of the real items of the live pages, left to right. */
  ghost function LevelKeys(store: Store, trail: seq<nat>): seq<seq<int>> {
    if trail == [] then []
    else
      (if trail[0] >= |store| || store[trail[0]].halfDead then [] else RealKeys(store[trail[0]]))
      + LevelKeys(store, trail[1..])
  }

  function RealKeys(p: Page): (ks: seq<seq<int>>)
    ensures |ks| == if |p.items| > FirstReal(p) then |p.items| - FirstReal(p) else 0
    ensures forall i :: 0 <= i < |ks| ==> ks[i] == Key(p.items[FirstReal(p) + i])
  {
    seq(if |p.items| > FirstReal(p) then |p.items| - FirstReal(p) else 0,
        i requires 0 <= i && FirstReal(p) + i < |p.items| => Key(p.items[FirstReal(p) + i]))
  }

  ghost predicate StepSorted(ks: seq<seq<int>>) { forall i :: 0 <= i < |ks| - 1 ==> LexLess(ks[i], ks[i + 1]) }

  lemma {:induction false} StepSortedIsSorted(ks: seq<seq<int>>, i: nat, j: nat)
    requires StepSorted(ks) && i < j < |ks|
    ensures LexLess(ks[i], ks[j])
    decreases j
  {
    if i + 1 < j {
      StepSortedIsSorted(ks, i, j - 1);
      LexTransitive(ks[i], ks[j - 1], ks[j]);
    }
  }

  lemma RealKeysSorted(nkey: nat, p: Page)
    requires forall i :: 0 <= i < |p.items| ==> NattsAt(nkey, p, i)
    requires forall i :: FirstReal(p) <= i < |p.items| ==> ItemOk(p, i)
    ensures StepSorted(RealKeys(p))
  {
    var f := FirstReal(p);
    forall i | 0 <= i < |RealKeys(p)| - 1 ensures LexLess(RealKeys(p)[i], RealKeys(p)[i + 1]) {
      assert ItemOk(p, f + i) && NattsAt(nkey, p, f + i) && NattsAt(nkey, p, f + i + 1);
      InvariantLIsOrder(nkey, p.items[f + i], p.items[f + i + 1]);
    }
  }

  ghost predicate LiveAt(store: Store, b: nat) { b < |store| && !store[b].halfDead }

  /** A live page with an item other than a high key and negative infinity. */
  ghost predicate RealAt(store: Store, b: nat) { LiveAt(store, b) && |store[b].items| > FirstReal(store[b]) }

  /** No live page without real items lies between two that have some. */
  ghost predicate Gapless(store: Store, trail: seq<nat>) {
    forall a, b, c :: 0 <= a < b < c < |trail| ==>
      RealAt(store, trail[a]) && LiveAt(store, trail[b]) && RealAt(store, trail[c]) ==> RealAt(store, trail[b])
  }

  lemma {:induction false} SomeRealPage(store: Store, trail: seq<nat>) returns (c: nat)
    requires LevelKeys(store, trail) != []
    ensures c < |trail| && RealAt(store, trail[c])
  {
    c := 0;
    if !RealAt(store, trail[0]) {
      assert LevelKeys(store, trail) == LevelKeys(store, trail[1..]);
      var d := SomeRealPage(store, trail[1..]);
      c := d + 1;
      assert trail[1..][d] == trail[c];
    }
  }

  /** The first live page of a trail. */
  ghost function NextLive(store: Store, trail: seq<nat>): (b: nat)
    requires trail != []
    ensures b < |trail|
  {
    if LiveAt(store, trail[0]) || |trail| == 1 then 0 else 1 + NextLive(store, trail[1..])
  }

  lemma {:induction false} NextLiveIsFirst(store: Store, level: nat, nkey: nat, fuel: nat, trail: seq<nat>)
    requires Trail(store, level, nkey, fuel, trail)
    ensures var b := NextLive(store, trail);
            && LiveAt(store, trail[b]) && OnTrail(store, level, nkey, fuel, trail[b])
            && (forall a :: 0 <= a < b ==> !LiveAt(store, trail[a]))
  {
    if !LiveAt(store, trail[0]) {
      NextLiveIsFirst(store, level, nkey, fuel, trail[1..]);
      assert trail[1..][NextLive(store, trail[1..])] == trail[NextLive(store, trail)];
    }
  }

  lemma {:induction false} KeysStartAtNextLive(store: Store, trail: seq<nat>)
    requires trail != [] && RealAt(store, trail[NextLive(store, trail)])
    ensures LevelKeys(store, trail) != []
    ensures LevelKeys(store, trail)[0] == FirstKey(store[trail[NextLive(store, trail)]])
  {
    if !LiveAt(store, trail[0]) && |trail| > 1 { KeysStartAtNextLive(store, trail[1..]); }
  }

  /** Skipping ignorable pages from a block of the trail lands on its next live page. */
  lemma {:induction false} LandsOnNextLive(
    store: Store, level: nat, nkey: nat, fuel0: nat, trail: seq<nat>, fuel: nat)
    requires Trail(store, level, nkey, fuel0, trail)
    ensures var r := SkipIgnorable(store, trail[0], fuel);
            r.Interrupted? || r == Landed(trail[NextLive(store, trail)])
    decreases |trail|
  {
    if !LiveAt(store, trail[0]) && fuel > 0 {
      LandsOnNextLive(store, level, nkey, fuel0, trail[1..], fuel - 1);
    }
  }

  /** Where an empty live page follows a page, the next key after the gap still comes later. */
  ghost predicate GapOk(store: Store, trail: seq<nat>)
    requires trail != []
  {
    var rest := trail[1..];
    && RealAt(store, trail[0]) && rest != []
    && !RealAt(store, rest[NextLive(store, rest)]) && LevelKeys(store, rest) != [] ==>
      LexLess(FinalKey(store[trail[0]]), LevelKeys(store, rest)[0])
  }

  /** The keys on the two sides of every gap are in order; nothing is asked where there is no gap. */
  ghost predicate GapsOrdered(store: Store, trail: seq<nat>) {
    trail == [] || (GapOk(store, trail) && GapsOrdered(store, trail[1..]))
  }

  /** The last item of a live page precedes the first item after it, unless a gap comes between. */
  lemma AcrossPages(store: Store, level: nat, nkey: nat, fuel: nat, trail: seq<nat>)
    requires Trail(store, level, nkey, fuel, trail) && |trail| > 1 && RealAt(store, trail[0])
    requires LevelKeys(store, trail[1..]) != []
    ensures GapOk(store, trail) <==> LexLess(FinalKey(store[trail[0]]), LevelKeys(store, trail[1..])[0])
  {
    var rest := trail[1..];
    var b := NextLive(store, rest);
    if RealAt(store, rest[b]) {
      NextLiveIsFirst(store, level, nkey, fuel, rest);
      KeysStartAtNextLive(store, rest);
      LandsOnNextLive(store, level, nkey, fuel, rest, fuel);
      NeighboursOrdered(nkey, store, trail[0], rest[b], fuel);
    }
  }

  /** Without gaps there is nothing to ask. */
  lemma {:induction false} GaplessIsOrdered(store: Store, level: nat, nkey: nat, fuel: nat, trail: seq<nat>)
    requires Trail(store, level, nkey, fuel, trail) && Gapless(store, trail)
    ensures GapsOrdered(store, trail)
  {
    if |trail| > 1 {
      var rest := trail[1..];
      GaplessTail(store, trail);
      GaplessIsOrdered(store, level, nkey, fuel, rest);
      if RealAt(store, trail[0]) && LevelKeys(store, rest) != [] {
        var b := NextLive(store, rest);
        var c := SomeRealPage(store, rest);
        NextLiveIsFirst(store, level, nkey, fuel, rest);
        assert rest[b] == trail[b + 1] && rest[c] == trail[c + 1];
        assert b <= c;
        assert b < c ==> RealAt(store, trail[b + 1]);
      }
    }
  }

  /** What the last item check found, given that both pages passed. */
  lemma LastItemPassed(nkey: nat, store: Store, b: nat, c: nat, fuel: nat)
    requires PageOk(nkey, store, b, fuel) && PageOk(nkey, store, c, fuel) && !store[b].Rightmost()
    requires SkipIgnorable(store, store[b].next, fuel) == Landed(c)
    requires |store[b].items| > FirstReal(store[b]) && |store[c].items| > FirstReal(store[c])
    ensures var last, first := store[b].items[|store[b].items| - 1], store[c].items[FirstReal(store[c])];
            NattsOk(nkey, last) && NattsOk(nkey, first) && PostingSorted(last) && InvariantG(KeyOf(first), last)
  {
    var p, q := store[b], store[c];
    assert ItemOk(p, |p.items| - 1) && NattsAt(nkey, p, |p.items| - 1) && NattsAt(nkey, q, FirstReal(q));
  }

  function FirstKey(p: Page): seq<int>
    requires |p.items| > FirstReal(p)
  {
    Key(p.items[FirstReal(p)])
  }

  function FinalKey(p: Page): seq<int>
    requires |p.items| > FirstReal(p)
  {
    Key(p.items[|p.items| - 1])
  }

  lemma NeighboursOrdered(nkey: nat, store: Store, b: nat, c: nat, fuel: nat)
    requires PageOk(nkey, store, b, fuel) && PageOk(nkey, store, c, fuel) && !store[b].Rightmost()
    requires SkipIgnorable(store, store[b].next, fuel) == Landed(c)
    requires |store[b].items| > FirstReal(store[b]) && |store[c].items| > FirstReal(store[c])
    ensures LexLess(FinalKey(store[b]), FirstKey(store[c]))
  {
    LastItemPassed(nkey, store, b, c, fuel);
    InvariantGIsOrder(nkey, store[c].items[FirstReal(store[c])], store[b].items[|store[b].items| - 1]);
  }

  /** Along an accepted walk, the order at the gaps is all that is missing. */
  lemma {:induction false} TrailSortedExactly(store: Store, level: nat, nkey: nat, fuel: nat, trail: seq<nat>)
    requires Trail(store, level, nkey, fuel, trail)
    ensures StepSorted(LevelKeys(store, trail)) <==> GapsOrdered(store, trail)
  {
    PageSortedExactly(store, level, nkey, fuel, trail);
    if |trail| > 1 { TrailSortedExactly(store, level, nkey, fuel, trail[1..]); }
  }

  /** One page in front of the others. */
  lemma PageSortedExactly(store: Store, level: nat, nkey: nat, fuel: nat, trail: seq<nat>)
    requires Trail(store, level, nkey, fuel, trail)
    ensures StepSorted(LevelKeys(store, trail)) <==> StepSorted(LevelKeys(store, trail[1..])) && GapOk(store, trail)
  {
    var rest := LevelKeys(store, trail[1..]);
    if RealAt(store, trail[0]) {
      var own := RealKeys(store[trail[0]]);
      var ordered := BoundaryIsGap(store, level, nkey, fuel, trail);
      assert LevelKeys(store, trail) == own + rest;
      JoinedSorted(own, rest);
    } else {
      assert LevelKeys(store, trail) == rest;
    }
  }

  /** Between a page with real items and the rest, the order is what GapOk says. */
  lemma BoundaryIsGap(store: Store, level: nat, nkey: nat, fuel: nat, trail: seq<nat>) returns (ordered: bool)
    requires Trail(store, level, nkey, fuel, trail) && RealAt(store, trail[0])
    ensures var own, rest := RealKeys(store[trail[0]]), LevelKeys(store, trail[1..]);
            && own != [] && StepSorted(own) && ordered == (rest != [] ==> LexLess(own[|own| - 1], rest[0]))
            && ordered == GapOk(store, trail)
  {
    var own, rest := RealKeys(store[trail[0]]), LevelKeys(store, trail[1..]);
    RealKeysSorted(nkey, store[trail[0]]);
    assert own[|own| - 1] == FinalKey(store[trail[0]]);
    if rest != [] { AcrossPages(store, level, nkey, fuel, trail); }
    ordered := GapOk(store, trail);
  }

  lemma JoinedSorted(a: seq<seq<int>>, b: seq<seq<int>>)
    requires StepSorted(a)
    ensures StepSorted(a + b) <==> StepSorted(b) && (a != [] && b != [] ==> LexLess(a[|a| - 1], b[0]))
  {
    if StepSorted(a + b) { SplitSorted(a, b); }
  }

  lemma SplitSorted(a: seq<seq<int>>, b: seq<seq<int>>)
    requires StepSorted(a + b)
    ensures StepSorted(b) && (a != [] && b != [] ==> LexLess(a[|a| - 1], b[0]))
  {
    var ks := a + b;
    forall i | 0 <= i < |b| - 1 ensures LexLess(b[i], b[i + 1]) {
      assert ks[|a| + i] == b[i] && ks[|a| + i + 1] == b[i + 1];
    }
    if a != [] && b != [] { assert ks[|a| - 1] == a[|a| - 1] && ks[|a| - 1 + 1] == b[0]; }
  }

  lemma GaplessTail(store: Store, trail: seq<nat>)
    requires trail != [] && Gapless(store, trail)
    ensures Gapless(store, trail[1..])
  {
    var t := trail[1..];
    forall a, b, c | 0 <= a < b < c < |t| && RealAt(store, t[a]) && RealAt(store, t[c]) && LiveAt(store, t[b])
      ensures RealAt(store, t[b])
    {
      assert t[a] == trail[a + 1] && t[b] == trail[b + 1] && t[c] == trail[c + 1];
    }
  }

  // ---------------------------------------------------------------------------------------------
  // From the walk to the trail

  lemma {:induction false} WalkIsTrail(store: Store, lv: Level, nkey: nat, fuel: nat, trail: seq<nat>, i: nat)
    requires Completed(store, lv, trail) && i < |trail|
    requires forall b: nat :: lv.pageOk(b) ==> PageOk(nkey, store, b, fuel)
    ensures Trail(store, lv.level, nkey, fuel, trail[i..])
    decreases |trail| - i
  {
    CompletedPage(store, lv, trail, i);
    if i + 1 < |trail| {
      WalkIsTrail(store, lv, nkey, fuel, trail, i + 1);
      assert trail[i..][1..] == trail[i + 1..];
    }
  }

  ghost predicate Increasing(ks: seq<seq<int>>) { forall i, j :: 0 <= i < j < |ks| ==> LexLess(ks[i], ks[j]) }

  /**
   * If a level was checked to its end without error, then the real items of the whole level, across
   * pages and past half-dead ones, are strictly increasing by key and first heap TID, a missing
   * attribute counting as minus infinity, exactly if they are so across every gap that a live page
   * without real items leaves between two that have some.
   */
  lemma AcceptedLevelIsSorted(store: Store, lv: Level, nkey: nat, fuel: nat, trail: seq<nat>)
    requires Completed(store, lv, trail)
    requires forall b: nat :: lv.pageOk(b) ==> PageOk(nkey, store, b, fuel)
    ensures Increasing(LevelKeys(store, trail)) <==> GapsOrdered(store, trail)
    ensures Gapless(store, trail) ==> Increasing(LevelKeys(store, trail))
  {
    var ks := LevelKeys(store, trail);
    WalkIsTrail(store, lv, nkey, fuel, trail, 0);
    assert trail[0..] == trail;
    TrailSortedExactly(store, lv.level, nkey, fuel, trail);
    if Gapless(store, trail) { GaplessIsOrdered(store, lv.level, nkey, fuel, trail); }
    if StepSorted(ks) {
      forall i, j | 0 <= i < j < |ks| ensures LexLess(ks[i], ks[j]) { StepSortedIsSorted(ks, i, j); }
    }
  }

  /**
   * Acceptance proves nothing about the two sides of a gap: on a root level whose splits are incomplete, a
   * leaf page that holds only a high key stands between key 5 and key 3, and the level is accepted.
   */
  lemma EmptyPageHidesDisorder()
    ensures var store := GapStore();
            var lv := Level(1, 0, true, (b: nat) => PageOk(1, store, b, 0));
            && Completed(store, lv, [1, 2, 3])
            && LevelKeys(store, [1, 2, 3]) == [[5, 1], [3, 1]]
            && !LexLess([5, 1], [3, 1])
  {
    var store := GapStore();
    var lv := Level(1, 0, true, (b: nat) => PageOk(1, store, b, 0));
    assert PageOk(1, store, 1, 0) && PageOk(1, store, 2, 0) && PageOk(1, store, 3, 0) by { GapPagesOk(); }
    assert LinkedBack(store, 1, []) && Reached(store, 1, []) == P_NONE;
    assert WalkAt(store, lv, 1) == At(Place(1, 2, true));
    assert WalkAt(store, lv, 2) == At(Place(2, 3, true));
    assert IsRun(store, lv, [1, 2, 3]);
    GapKeys();
  }

  lemma GapKeys()
    ensures LevelKeys(GapStore(), [1, 2, 3]) == [[5, 1], [3, 1]]
  {
    var store := GapStore();
    assert FirstReal(store[1]) == FirstReal(store[2]) == 1 && FirstReal(store[3]) == 0;
    assert |RealKeys(store[1])| == 1 && RealKeys(store[1])[0] == [5, 1];
    assert |RealKeys(store[2])| == 0;
    assert |RealKeys(store[3])| == 1 && RealKeys(store[3])[0] == [3, 1];
    assert [1, 2, 3][1..] == [2, 3] && [2, 3][1..] == [3] && [3][1..] == [];
    assert LevelKeys(store, [3]) == RealKeys(store[3]) + [];
    assert LevelKeys(store, [2, 3]) == RealKeys(store[2]) + LevelKeys(store, [3]);
    assert LevelKeys(store, [1, 2, 3]) == RealKeys(store[1]) + LevelKeys(store, [2, 3]);
  }

  /** A live leaf page of the witnesses, with an incomplete split. */
  function LeafPage(prev: nat, next: nat, root: bool, items: seq<Item>): Page {
    Page(prev, next, 0, true, root, false, false, false, next != 0, false, items)
  }

  function GapStore(): Store {
    [LeafPage(0, 0, false, []),
     LeafPage(0, 2, true, [Item([7], [], false, 0), Item([5], [1], false, 0)]),
     LeafPage(1, 3, false, [Item([9], [], false, 0)]),
     LeafPage(2, 0, false, [Item([3], [1], false, 0)])]
  }

  lemma GapPagesOk()
    ensures PageOk(1, GapStore(), 1, 0) && PageOk(1, GapStore(), 2, 0) && PageOk(1, GapStore(), 3, 0)
  {
    var store := GapStore();
    assert ItemOk(store[1], 1) && SkipIgnorable(store, 2, 0) == Landed(2);
    assert ItemOk(store[3], 0);
  }

  /** The root leaf page, whose left sibling is half-dead and is also its right sibling. */
  function CycleStore(): Store {
    var items := [Item([5], [], false, 0)];
    [LeafPage(0, 0, false, []), LeafPage(2, 2, true, items), LeafPage(0, 1, false, items).(halfDead := true)]
  }

  /** On these two pages the walk of the root level never ends, with every page check passing. */
  lemma HalfDeadCycleRunsForever()
    ensures var store := CycleStore();
            PageOk(1, store, 1, 0) && RunsForever(store, Level(1, 0, true, (b: nat) => PageOk(1, store, b, 0)))
  {
    var store := CycleStore();
    var lv := Level(1, 0, true, (b: nat) => PageOk(1, store, b, 0));
    assert PageOk(1, store, 1, 0);
    assert LinkedBack(store, 1, [2]) && Reached(store, 1, [2]) == P_NONE;
    var path := [1, 2, 1, 2];
    assert Passable(store, lv, path, 0) && Passable(store, lv, path, 1);
    assert path[0] < |store| && Settles(store[path[0]]);
    assert Passable(store, lv, path, 2);
    assert LinkedRight(store, path, 1) && LinkedRight(store, path, 2) && LinkedRight(store, path, 3);
    assert Lasso(store, lv, path, 1);
    ForeverIsLasso(store, lv);
  }
}
