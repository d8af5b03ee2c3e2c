/**
 * The access method's own loops over a bloom index that no one else is using: blinsert, blbulkdelete,
 * blgetbitmap and the index build, each working on page copies that are kept or thrown away.
 */
module BloomIndex {
  import opened BloomPage
  import opened BloomProtocol
  import BloomSignature

  const SLOTS: nat := (BLCKSZ - PAGE_HEADER - PAGE_OPAQUE) / TUPLE_HEADER

  lemma {:induction false} SpacePerTuple(words: nat, maxoff: nat)
    ensures Space(words, maxoff) >= maxoff * TUPLE_HEADER
  {
    if maxoff > 0 { SpacePerTuple(words, maxoff - 1); }
  }

  lemma WithinFitsSlots(words: nat, maxoff: nat)
    requires WithinPage(words, maxoff)
    ensures maxoff <= SLOTS
  {
    SpacePerTuple(words, maxoff);
  }

  function ItemsOn(p: Page): seq<Tuple> { if p.Data? then p.items else [] }

  /** All stored tuples, in block and slot order. */
  function AllItems(pages: seq<Page>): seq<Tuple> {
    if pages == [] then [] else AllItems(pages[..|pages| - 1]) + ItemsOn(pages[|pages| - 1])
  }

  ghost predicate PageOk(words: nat, p: Page) {
    p.Data? ==>
      && WithinPage(words, |p.items|) && (p.deleted ==> p.items == [])
      && forall i :: 0 <= i < |p.items| ==> |p.items[i].sign| == words
  }

  ghost predicate PagesOk(words: nat, pages: seq<Page>) {
    && words <= MAX_WORDS && |pages| >= 1 && pages[0].Metapage?
    && forall b :: 1 <= b < |pages| ==> !pages[b].Metapage? && PageOk(words, pages[b])
  }

  lemma {:induction false} ReplacingOnePage(pages: seq<Page>, b: nat, p: Page, t: Tuple)
    requires b < |pages| && ItemsOn(p) == ItemsOn(pages[b]) + [t]
    ensures multiset(AllItems(pages[b := p])) == multiset(AllItems(pages)) + multiset{t}
  {
    var n := |pages| - 1;
    var pages' := pages[b := p];
    if b == n {
      assert pages'[..n] == pages[..n];
      assert AllItems(pages') == AllItems(pages[..n]) + (ItemsOn(pages[n]) + [t]);
    } else {
      assert pages'[..n] == pages[..n][b := p];
      ReplacingOnePage(pages[..n], b, p, t);
    }
  }

  /** The stored tuples are those from before and t. */
  ghost predicate Gained(before: seq<Page>, after: seq<Page>, t: Tuple) {
    multiset(AllItems(after)) == multiset(AllItems(before)) + multiset{t}
  }

  /** The pages with t appended to block b, which is in use after that. */
  function AppendedTo(pages: seq<Page>, b: nat, t: Tuple): seq<Page>
    requires b < |pages|
  {
    pages[b := Data(ItemsOn(pages[b]) + [t], false)]
  }

  lemma AppendedOk(words: nat, pages: seq<Page>, b: nat, t: Tuple)
    requires PagesOk(words, pages) && 1 <= b < |pages| && |t.sign| == words
    requires HasRoom(words, |ItemsOn(pages[b])|)
    ensures PagesOk(words, AppendedTo(pages, b, t)) && Gained(pages, AppendedTo(pages, b, t), t)
  {
    assert PageOk(words, pages[b]);
    RoomMeansWithin(words, |ItemsOn(pages[b])|);
    ReplacingOnePage(pages, b, Data(ItemsOn(pages[b]) + [t], false), t);
  }

  lemma {:induction false} SurvivorsConcat(a: seq<Tuple>, b: seq<Tuple>, dead: set<nat>)
    ensures Survivors(a + b, dead) == Survivors(a, dead) + Survivors(b, dead)
  {
    if b == [] {
      assert a + b == a;
    } else {
      var n := |b| - 1;
      assert (a + b)[..|a| + n] == a + b[..n];
      SurvivorsConcat(a, b[..n], dead);
    }
  }

  lemma VacuumedItems(words: nat, p: Page, dead: set<nat>)
    requires PageOk(words, p)
    ensures ItemsOn(Vacuumed(p, dead)) == Survivors(ItemsOn(p), dead) && PageOk(words, Vacuumed(p, dead))
  {
    if p.Data? {
      NothingDead(p.items, dead);
      var at := SurvivorsInOrder(p.items, dead);
      FewerIsWithin(words, |Survivors(p.items, dead)|, |p.items|);
    }
  }

  /** Vacuuming every page leaves the survivors of the whole index, in order. */
  lemma {:induction false} VacuumedPages(words: nat, before: seq<Page>, after: seq<Page>, dead: set<nat>)
    requires |before| == |after| && forall b :: 0 <= b < |before| ==> PageOk(words, before[b])
    requires forall b :: 0 <= b < |before| ==> after[b] == Vacuumed(before[b], dead)
    ensures AllItems(after) == Survivors(AllItems(before), dead)
  {
    if before != [] {
      var n := |before| - 1;
      VacuumedPages(words, before[..n], after[..n], dead);
      VacuumedItems(words, before[n], dead);
      SurvivorsConcat(AllItems(before[..n]), ItemsOn(before[n]), dead);
    }
  }

  /** The page loop has come as far as block n. */
  ghost predicate VacuumedUpto(before: seq<Page>, after: seq<Page>, dead: set<nat>, n: nat) {
    && |after| == |before|
    && forall b :: 0 <= b < |after| ==> after[b] == if b < n then Vacuumed(before[b], dead) else before[b]
  }

  lemma VacuumedStep(before: seq<Page>, after: seq<Page>, dead: set<nat>, n: nat)
    requires n < |before| && VacuumedUpto(before, after, dead, n)
    ensures after[n] == before[n] && VacuumedUpto(before, after[n := Vacuumed(after[n], dead)], dead, n + 1)
  {
  }

  /** How many tuples are on the pages before n. */
  function CountUpto(pages: seq<Page>, n: nat): int
    requires n <= |pages|
  {
    if n == 0 then 0 else CountUpto(pages, n - 1) + |ItemsOn(pages[n - 1])|
  }

  lemma {:induction false} CountIsTotal(pages: seq<Page>, n: nat)
    requires n <= |pages|
    ensures |AllItems(pages[..n])| == CountUpto(pages, n)
  {
    if n > 0 {
      CountIsTotal(pages, n - 1);
      assert pages[..n][..n - 1] == pages[..n - 1];
    }
  }

  lemma {:induction false} CountOfPrefix(pages: seq<Page>, pages': seq<Page>, n: nat)
    requires n <= |pages| && n <= |pages'| && forall i :: 0 <= i < n ==> pages[i] == pages'[i]
    ensures CountUpto(pages, n) == CountUpto(pages', n)
  {
    if n > 0 { CountOfPrefix(pages, pages', n - 1); }
  }

  lemma {:induction false} HitsConcat(a: seq<Tuple>, b: seq<Tuple>, query: Signature)
    ensures Hits(a + b, query) == Hits(a, query) + Hits(b, query)
  {
    if b == [] {
      assert a + b == a;
    } else {
      var n := |b| - 1;
      assert (a + b)[..|a| + n] == a + b[..n];
      HitsConcat(a, b[..n], query);
    }
  }

  /** The list blbulkdelete collects from the pages up to n: kept, not empty, with room for one more. */
  function Roomy(words: nat, pages: seq<Page>, n: nat): (r: seq<nat>)
    requires n <= |pages|
    ensures |r| <= META_BLOCKS
  {
    if n <= 1 then []
    else
      var r, p := Roomy(words, pages, n - 1), pages[n - 1];
      if p.Data? && !p.deleted && p.items != [] && HasRoom(words, |p.items|) && |r| < META_BLOCKS then r + [n - 1]
      else r
  }

  lemma {:induction false} RoomyBlocks(words: nat, pages: seq<Page>, n: nat)
    requires n <= |pages|
    ensures forall i :: 0 <= i < |Roomy(words, pages, n)| ==> 0 < Roomy(words, pages, n)[i] < n
  {
    if n > 1 { RoomyBlocks(words, pages, n - 1); }
  }

  /** A page worth listing: kept, with tuples on it, and space for one more of them. */
  predicate WorthListing(words: nat, p: Page) {
    p.Data? && !p.deleted && |p.items| > 0 && (|p.items| + 1) * (6 + 2 * words) <= 8160
  }

  /** The list is in ascending order, names only such pages, and leaves one out only when it is full of earlier ones. */
  lemma {:induction false} RoomyExactly(words: nat, pages: seq<Page>, n: nat)
    requires n <= |pages|
    ensures var r := Roomy(words, pages, n);
            && (forall i, j :: 0 <= i < j < |r| ==> r[i] < r[j])
            && (forall i :: 0 <= i < |r| ==> 1 <= r[i] < n && WorthListing(words, pages[r[i]]))
            && (forall b :: 1 <= b < n && WorthListing(words, pages[b]) && b !in r ==>
                  |r| == META_BLOCKS && r[META_BLOCKS - 1] < b)
  {
    if n > 1 {
      RoomyExactly(words, pages, n - 1);
      if pages[n - 1].Data? { RoomExactly(words, |pages[n - 1].items|); }
    }
  }

  predicate IsFree(pages: seq<Page>, b: nat) { b < |pages| && Reusable(pages[b]) }

  /** The first free block that the free space map offers, or else the next block. */
  function FreeBlock(pages: seq<Page>, hints: seq<nat>): (b: nat)
    ensures b <= |pages| && (b < |pages| ==> Reusable(pages[b]))
  {
    if hints == [] then |pages| else if IsFree(pages, hints[0]) then hints[0] else FreeBlock(pages, hints[1..])
  }

  lemma {:induction false} FreeBlockIsFirst(pages: seq<Page>, hints: seq<nat>, i: nat)
    requires i <= |hints| && forall j :: 0 <= j < i ==> !IsFree(pages, hints[j])
    ensures i < |hints| && IsFree(pages, hints[i]) ==> FreeBlock(pages, hints) == hints[i]
    ensures i == |hints| ==> FreeBlock(pages, hints) == |pages|
  {
    if i > 0 { FreeBlockIsFirst(pages, hints[1..], i - 1); }
  }

  /** The block has space for one more tuple. */
  predicate Fits(words: nat, pages: seq<Page>, b: nat) {
    1 <= b < |pages| && (|ItemsOn(pages[b])| + 1) * (6 + 2 * words) <= 8160
  }

  /** The index of the first block of the list, from there on, that can take a tuple; its length if none can. */
  function FirstFit(words: nat, pages: seq<Page>, list: seq<nat>, from: nat): (i: nat)
    requires from <= |list|
    ensures from <= i <= |list| && (i < |list| ==> Fits(words, pages, list[i]))
    ensures forall j :: from <= j < i ==> !Fits(words, pages, list[j])
    decreases |list| - from
  {
    if from == |list| || Fits(words, pages, list[from]) then from else FirstFit(words, pages, list, from + 1)
  }

  /** The pages with t alone on block b, which was free or is new. */
  function OnFreeBlock(pages: seq<Page>, b: nat, t: Tuple): seq<Page>
    requires b <= |pages|
  {
    if b < |pages| then pages[b := Data([t], false)] else pages + [Data([t], false)]
  }

  lemma AppendedToFree(before: seq<Page>, b: nat, t: Tuple)
    requires b <= |before| && (b < |before| ==> ItemsOn(before[b]) == [])
    ensures AppendedTo(if b < |before| then before else before + [New], b, t) == OnFreeBlock(before, b, t)
  {
    var pages := if b < |before| then before else before + [New];
    assert ItemsOn(pages[b]) + [t] == [t];
  }

  /** What the page loop of blbulkdelete leaves when it has come to the end. */
  lemma LoopDone(words: nat, before: seq<Page>, after: seq<Page>, dead: set<nat>, removed: int)
    requires PagesOk(words, before) && VacuumedUpto(before, after, dead, |after|)
    requires removed == CountUpto(before, |after|) - CountUpto(after, |after|)
    ensures AllItems(after) == Survivors(AllItems(before), dead)
    ensures removed == |AllItems(before)| - |AllItems(after)|
  {
    assert forall b :: 0 <= b < |before| ==> PageOk(words, before[b]);
    VacuumedPages(words, before, after, dead);
    CountIsTotal(before, |before|);
    CountIsTotal(after, |after|);
    assert before[..|before|] == before && after[..|after|] == after;
  }

  /** The page loop has come to block b, with this many tuples removed and these pages found to have room. */
  ghost predicate Progress(
    words: nat, before: seq<Page>, pages: seq<Page>, dead: set<nat>, b: nat, removed: nat, found: seq<nat>)
  {
    && 1 <= b <= |pages| && VacuumedUpto(before, pages, dead, b)
    && removed == CountUpto(before, b) - CountUpto(pages, b) && found == Roomy(words, pages, b)
  }

  lemma ProgressStart(words: nat, pages: seq<Page>, dead: set<nat>)
    requires PagesOk(words, pages)
    ensures Progress(words, pages, pages, dead, 1, 0, [])
  {
    assert CountUpto(pages, 1) == CountUpto(pages, 0) == 0;
  }

  /** BloomPageAddItem on a copy of the page, to be kept if it succeeds. */
  method AddToCopy(words: nat, items: seq<Tuple>, t: Tuple) returns (added: bool, after: seq<Tuple>)
    requires words <= MAX_WORDS && WithinPage(words, |items|)
    ensures added == HasRoom(words, |items|) && after == if added then items + [t] else items
  {
    WithinFitsSlots(words, |items|);
    RoomMeansWithin(words, |items|);
    if HasRoom(words, |items|) { WithinFitsSlots(words, |items| + 1); }
    var copy := new PageCopy(words, items, false, SLOTS);
    added := copy.AddItem(t);
    after := copy.slots[..copy.maxoff];
  }

  /** The pages with a page to which the tuple was added, after reinitialising it if it is new or deleted. */
  method AddToPage(words: nat, pages: seq<Page>, b: nat, t: Tuple) returns (added: bool, after: seq<Page>)
    requires PagesOk(words, pages) && 1 <= b < |pages| && |t.sign| == words
    ensures added == Fits(words, pages, b) && after == if added then AppendedTo(pages, b, t) else pages
    ensures PagesOk(words, after) && (added ==> Gained(pages, after, t))
  {
    assert PageOk(words, pages[b]) && Opened(pages[b]).items == ItemsOn(pages[b]);
    EmptyPageHasRoom(words);
    RoomExactly(words, |ItemsOn(pages[b])|);
    var items;
    added, items := AddToCopy(words, Opened(pages[b]).items, t);
    after := pages;
    if added {
      AppendedOk(words, pages, b, t);
      after := pages[b := Data(items, false)];
    }
  }

  /** The tuple loop of blbulkdelete on a copy of the page, to be kept if something was removed. */
  method CompactCopy(words: nat, items: seq<Tuple>, dead: set<nat>) returns (after: seq<Tuple>, deleted: bool)
    requires WithinPage(words, |items|)
    ensures after == Survivors(items, dead) && deleted == (|after| < |items| && after == [])
  {
    WithinFitsSlots(words, |items|);
    var copy := new PageCopy(words, items, false, SLOTS);
    var removed := copy.Compact(dead);
    after, deleted := copy.slots[..copy.maxoff], copy.deleted;
  }

  class Index {
    const words: nat
    var pages: seq<Page>
    var nStart: nat
    var nEnd: nat
    const notFull: array<nat>

    ghost predicate Valid()
      reads this, notFull
    {
      && PagesOk(words, pages) && notFull.Length == META_BLOCKS && nStart <= nEnd <= META_BLOCKS
      && forall i :: 0 <= i < nEnd ==> 1 <= notFull[i] < |pages|
    }

    /** BloomInitMetapage: the metapage alone. */
    constructor (words: nat)
      requires words <= MAX_WORDS
      ensures this.words == words && fresh(notFull) && Valid() && pages == [Metapage] && nStart == nEnd == 0
    {
      this.words := words;
      pages := [Metapage];
      nStart, nEnd := 0, 0;
      notFull := new nat[META_BLOCKS](_ => 0);
    }

    /** Try to add the tuple to a page, reinitialising it first if it is new or deleted. */
    method TryPage(b: nat, t: Tuple) returns (added: bool)
      requires Valid() && 1 <= b < |pages| && |t.sign| == words
      modifies this`pages
      ensures Valid() && added == Fits(words, old(pages), b)
      ensures pages == if added then AppendedTo(old(pages), b, t) else old(pages)
      ensures added ==> Gained(old(pages), pages, t)
    {
      var after;
      added, after := AddToPage(words, pages, b, t);
      if added { pages := after; }
    }

    /** BloomNewBuffer: the first usable page the free space map offers, otherwise a new one. */
    method NewBuffer(hints: seq<nat>) returns (b: nat)
      requires Valid()
      modifies this`pages
      ensures Valid() && 1 <= b < |pages| && Reusable(pages[b])
      ensures b == FreeBlock(old(pages), hints)
      ensures pages == if b < |old(pages)| then old(pages) else old(pages) + [New]
      ensures AllItems(pages) == AllItems(old(pages))
    {
      for i := 0 to |hints|
        invariant pages == old(pages) && FreeBlock(pages, hints) == FreeBlock(pages, hints[i..])
      {
        assert hints[i..][1..] == hints[i + 1..];
        if hints[i] < |pages| && Reusable(pages[hints[i]]) { return hints[i]; }
      }
      b := |pages|;
      pages := pages + [New];
      assert pages[..b] == old(pages);
    }

    /**
     * blinsert: one more tuple, and none of the others changed or lost. It goes to the first listed page with
     * room, and the list from there on stays; or else to a free or new page, which becomes the list.
     */
    method Insert(t: Tuple, hints: seq<nat>)
      requires Valid() && |t.sign| == words
      modifies this, notFull
      ensures Valid() && Gained(old(pages), pages, t)
      ensures var i := FirstFit(words, old(pages), old(notFull[..nEnd]), old(nStart));
              if i < old(nEnd) then
                && pages == AppendedTo(old(pages), old(notFull[..nEnd])[i], t)
                && nStart == i && nEnd == old(nEnd) && notFull[..] == old(notFull[..])
              else
                var b := FreeBlock(old(pages), hints);
                && pages == OnFreeBlock(old(pages), b, t)
                && nStart == 0 && nEnd == 1 && notFull[..] == old(notFull[..])[0 := b]
    {
      var tried := 0;
      if nEnd > nStart {
        tried := notFull[nStart];
        var done := TryPage(tried, t);
        if done { return; }
      }
      var n := nStart;
      if n < nEnd && tried == notFull[n] { n := n + 1; }
      InsertSlowly(n, t, hints);
    }

    /** The part of blinsert under the lock of the metapage, from this index of the list on. */
    method InsertSlowly(from: nat, t: Tuple, hints: seq<nat>)
      requires Valid() && nStart <= from <= nEnd && |t.sign| == words
      modifies this, notFull
      ensures Valid() && Gained(old(pages), pages, t)
      ensures var i := FirstFit(words, old(pages), old(notFull[..nEnd]), from);
              if i < old(nEnd) then
                && pages == AppendedTo(old(pages), old(notFull[..nEnd])[i], t)
                && nStart == i && nEnd == old(nEnd) && notFull[..] == old(notFull[..])
              else
                var b := FreeBlock(old(pages), hints);
                && pages == OnFreeBlock(old(pages), b, t)
                && nStart == 0 && nEnd == 1 && notFull[..] == old(notFull[..])[0 := b]
    {
      var n := TryListed(from, t);
      if n < nEnd {
        nStart := n;
      } else {
        InsertOnNewPage(t, hints);
      }
    }

    /** The loop of blinsert over the list. */
    method TryListed(from: nat, t: Tuple) returns (n: nat)
      requires Valid() && from <= nEnd && |t.sign| == words
      modifies this`pages
      ensures Valid() && n == FirstFit(words, old(pages), notFull[..nEnd], from)
      ensures pages == if n < nEnd then AppendedTo(old(pages), notFull[n], t) else old(pages)
      ensures n < nEnd ==> Gained(old(pages), pages, t)
    {
      n := from;
      while n < nEnd
        invariant from <= n <= nEnd && Valid() && pages == old(pages)
        invariant FirstFit(words, pages, notFull[..nEnd], n) == FirstFit(words, pages, notFull[..nEnd], from)
      {
        assert notFull[..nEnd][n] == notFull[n];
        var done := TryPage(notFull[n], t);
        if done { return; }
        n := n + 1;
      }
    }

    method PlaceOnNewPage(t: Tuple, hints: seq<nat>) returns (b: nat)
      requires Valid() && |t.sign| == words
      modifies this`pages
      ensures Valid() && 1 <= b < |pages| && b == FreeBlock(old(pages), hints)
      ensures pages == OnFreeBlock(old(pages), b, t) && Gained(old(pages), pages, t)
    {
      b := NewBuffer(hints);
      EmptyPageHasRoom(words);
      assert PageOk(words, pages[b]);
      AppendedToFree(old(pages), b, t);
      RoomExactly(words, 0);
      var done := TryPage(b, t);
    }

    /** The end of blinsert: a fresh page takes the tuple and becomes the whole list. */
    method InsertOnNewPage(t: Tuple, hints: seq<nat>)
      requires Valid() && |t.sign| == words
      modifies this, notFull
      ensures Valid() && Gained(old(pages), pages, t)
      ensures var b := FreeBlock(old(pages), hints);
              && pages == OnFreeBlock(old(pages), b, t)
              && nStart == 0 && nEnd == 1 && notFull[..] == old(notFull[..])[0 := b]
    {
      var b := PlaceOnNewPage(t, hints);
      nStart, nEnd := 0, 1;
      notFull[0] := b;
    }

    /** One page of blbulkdelete, on a copy that is kept only if something was removed. */
    method VacuumPage(b: nat, dead: set<nat>) returns (removed: nat)
      requires Valid() && 1 <= b < |pages|
      modifies this`pages
      ensures Valid() && pages == old(pages)[b := Vacuumed(old(pages)[b], dead)]
      ensures removed == |ItemsOn(old(pages)[b])| - |ItemsOn(pages[b])|
    {
      var p := pages[b];
      removed := 0;
      VacuumedItems(words, p, dead);
      if !Reusable(p) {
        var after, deleted := CompactCopy(words, p.items, dead);
        removed := |p.items| - |after|;
        if removed > 0 { pages := pages[b := Data(after, deleted)]; }
      }
    }

    /** One turn of blbulkdelete's page loop; found is the private list of pages with room. */
    method VacuumAndList(b: nat, dead: set<nat>, removed: nat, found: seq<nat>, ghost before: seq<Page>)
      returns (removed': nat, found': seq<nat>)
      requires Valid() && b < |pages| && Progress(words, before, pages, dead, b, removed, found)
      modifies this`pages
      ensures Valid() && |pages| == |old(pages)|
      ensures Progress(words, before, pages, dead, b + 1, removed', found')
    {
      ghost var pages' := pages[b := Vacuumed(pages[b], dead)];
      RoomyIgnoresRest(words, pages, pages', b);
      CountOfPrefix(pages, pages', b);
      VacuumedStep(before, pages, dead, b);
      var r := VacuumPage(b, dead);
      removed' := removed + r;
      var p := pages[b];
      found' := found;
      if p.Data? && !p.deleted && p.items != [] && HasRoom(words, |p.items|) && |found| < META_BLOCKS {
        found' := found + [b];
      }
    }

    /** The page loop of blbulkdelete. */
    method VacuumAllPages(dead: set<nat>) returns (removed: nat, found: seq<nat>)
      requires Valid()
      modifies this`pages
      ensures Valid() && Progress(words, old(pages), pages, dead, |pages|, removed, found)
    {
      var npages := |pages|;
      ghost var before := pages;
      removed, found := 0, [];
      ProgressStart(words, pages, dead);
      for b := 1 to npages
        invariant Valid() && |pages| == npages && Progress(words, before, pages, dead, b, removed, found)
      {
        removed, found := VacuumAndList(b, dead, removed, found, before);
      }
    }

    /** The end of blbulkdelete: the metapage's list becomes the one just found. */
    method ReplaceList(found: seq<nat>)
      requires Valid() && |found| <= META_BLOCKS && forall i :: 0 <= i < |found| ==> 0 < found[i] < |pages|
      modifies this`nStart, this`nEnd, notFull
      ensures Valid() && nStart == 0 && notFull[..nEnd] == found
    {
      for i := 0 to |found|
        invariant forall j :: 0 <= j < i ==> notFull[j] == found[j]
      {
        notFull[i] := found[i];
      }
      nStart, nEnd := 0, |found|;
      assert notFull[..nEnd] == found;
    }

    /** blbulkdelete: exactly the dead entries go, the others keep their order, and the list is rebuilt. */
    method BulkDelete(dead: set<nat>) returns (removed: nat)
      requires Valid()
      modifies this, notFull
      ensures Valid() && |pages| == |old(pages)|
      ensures forall b :: 0 <= b < |pages| ==> pages[b] == Vacuumed(old(pages)[b], dead)
      ensures AllItems(pages) == Survivors(AllItems(old(pages)), dead)
      ensures removed == |AllItems(old(pages))| - |AllItems(pages)|
      ensures nStart == 0 && notFull[..nEnd] == Roomy(words, pages, |pages|)
    {
      var found;
      removed, found := VacuumAllPages(dead);
      LoopDone(words, old(pages), pages, dead, removed);
      RoomyBlocks(words, pages, |pages|);
      ReplaceList(found);
    }

    /** blgetbitmap: the TIDs of all tuples whose signature contains the query, in storage order. */
    method GetBitmap(query: Signature) returns (tids: seq<nat>)
      requires Valid() && |query| == words
      ensures tids == Hits(AllItems(pages), query)
    {
      tids := [];
      var npages := |pages|;
      assert AllItems(pages[..1]) == [] by { assert pages[..1][..0] == []; }
      for b := 1 to npages
        invariant tids == Hits(AllItems(pages[..b]), query)
      {
        assert PageOk(words, pages[b]);
        assert pages[..b + 1][..b] == pages[..b];
        HitsConcat(AllItems(pages[..b]), ItemsOn(pages[b]), query);
        if pages[b].Data? && !pages[b].deleted {
          var hits := ScanItems(pages[b].items, query);
          tids := tids + hits;
        }
      }
      assert pages[..npages] == pages;
    }
  }

  /** The loop of blgetbitmap over the tuples of one page. */
  method ScanItems(items: seq<Tuple>, query: Signature) returns (hits: seq<nat>)
    requires forall i :: 0 <= i < |items| ==> |items[i].sign| == |query|
    ensures hits == Hits(items, query)
  {
    hits := [];
    for offset := 0 to |items|
      invariant hits == Hits(items[..offset], query)
    {
      assert items[..offset + 1][..offset] == items[..offset];
      var res := BloomSignature.TestTuple(items[offset].sign, query);
      if res { hits := hits + [items[offset].tid]; }
    }
    assert items[..|items|] == items;
  }

  lemma {:induction false} RoomyIgnoresRest(words: nat, a: seq<Page>, b: seq<Page>, n: nat)
    requires n <= |a| && n <= |b| && forall i :: 0 <= i < n ==> a[i] == b[i]
    ensures Roomy(words, a, n) == Roomy(words, b, n)
  {
    if n > 1 { RoomyIgnoresRest(words, a, b, n - 1); }
  }

  /** Behind the metapage there are only data pages that are in use. */
  predicate InUse(pages: seq<Page>) { forall b :: 1 <= b < |pages| ==> pages[b].Data? && !pages[b].deleted }

  /** flushCachedPage. */
  method Flush(index: Index, cached: seq<Tuple>)
    requires index.Valid() && PageOk(index.words, Data(cached, false))
    modifies index`pages
    ensures index.Valid() && index.pages == old(index.pages) + [Data(cached, false)]
    ensures AllItems(index.pages) == AllItems(old(index.pages)) + cached
  {
    var b := index.NewBuffer([]);
    index.pages := index.pages[b := Data(cached, false)];
    assert index.pages[..b] == old(index.pages);
  }

  /** No page from block 1 up to n has space for another tuple. */
  ghost predicate FullUpto(words: nat, pages: seq<Page>, n: int) {
    forall b :: 1 <= b < n && b < |pages| ==> !HasRoom(words, |ItemsOn(pages[b])|)
  }

  /** The build has seen the rows done: they are on full pages, and the latest in the cached page. */
  ghost predicate Building(index: Index, cached: seq<Tuple>, done: seq<Tuple>)
    reads index, index.notFull
  {
    && index.Valid() && InUse(index.pages) && index.nStart == index.nEnd == 0
    && FullUpto(index.words, index.pages, |index.pages|)
    && PageOk(index.words, Data(cached, false)) && AllItems(index.pages) + cached == done
  }

  /** bloomBuildCallback: one more row, on the cached page or after flushing it. */
  method BuildRow(index: Index, cached: seq<Tuple>, t: Tuple, ghost done: seq<Tuple>) returns (cached': seq<Tuple>)
    requires Building(index, cached, done) && |t.sign| == index.words
    modifies index`pages
    ensures Building(index, cached', done + [t]) && cached' != []
  {
    RoomMeansWithin(index.words, |cached|);
    if HasRoom(index.words, |cached|) {
      cached' := cached + [t];
    } else {
      Flush(index, cached);
      EmptyPageHasRoom(index.words);
      RoomMeansWithin(index.words, 0);
      cached' := [t];
    }
  }

  lemma PrefixGrows<T>(s: seq<T>, i: nat)
    requires i < |s|
    ensures s[..i + 1] == s[..i] + [s[i]]
  {
  }

  /** BloomInitMetapage and initCachedPage. */
  method StartBuild(words: nat) returns (index: Index)
    requires words <= MAX_WORDS
    ensures fresh(index) && fresh(index.notFull) && index.words == words && Building(index, [], [])
  {
    index := new Index(words);
    EmptyPageHasRoom(words);
  }

  /** The end of blbuild: the last page is flushed, if there is something on it. */
  method EndBuild(index: Index, cached: seq<Tuple>, ghost done: seq<Tuple>)
    requires Building(index, cached, done)
    modifies index`pages
    ensures index.Valid() && InUse(index.pages) && index.nStart == index.nEnd == 0
    ensures FullUpto(index.words, index.pages, |index.pages| - 1) && AllItems(index.pages) == done
  {
    if cached != [] { Flush(index, cached); }
  }

  /** blbuild: the tuples of the heap scan, in scan order, none lost and none added. */
  method Build(words: nat, rows: seq<Tuple>) returns (index: Index)
    requires words <= MAX_WORDS && forall i :: 0 <= i < |rows| ==> |rows[i].sign| == words
    ensures index.Valid() && index.words == words && AllItems(index.pages) == rows
    ensures InUse(index.pages) && index.nStart == index.nEnd == 0
    ensures FullUpto(words, index.pages, |index.pages| - 1)
  {
    index := StartBuild(words);
    var cached: seq<Tuple> := [];
    for i := 0 to |rows|
      invariant fresh(index) && fresh(index.notFull) && index.words == words && Building(index, cached, rows[..i])
    {
      PrefixGrows(rows, i);
      cached := BuildRow(index, cached, rows[i], rows[..i]);
    }
    assert rows[..|rows|] == rows;
    EndBuild(index, cached, rows);
  }
}
