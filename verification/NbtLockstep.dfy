/**
 * The lockstep of bt_child_highkey_check: while the downlinks of an internal level are taken one by
 * one, left to right, the child level is walked along its right links, and pages without a downlink
 * have to be explained.
 */
module NbtLockstep {
  import opened NbtPages
  import opened NbtWalk

  /** A pivot tuple to match a child's high key against, if there is one; the last call matches nothing. */
  datatype Separator = None | Some(item: Item) | Unchecked

  /** One downlink, with the separator before it and the separator after it on the parent level. */
  datatype Link = Link(down: nat, before: Separator, after: Separator)

  /** bt_pivot_tuple_identical for a heapkeyspace index: everything but the block number. */
  predicate Identical(a: Item, b: Item) { a.(downlink := 0) == b.(downlink := 0) }

  predicate MatchesSeparator(highKey: Item, sep: Separator) {
    sep.Unchecked? || (sep.Some? && Identical(highKey, sep.item))
  }

  /** The downlink at index i of a target page; lowKey is the high key of the page to its left. */
  function LinkAt(t: Page, lowKey: Separator, i: nat): Link
    requires t.FirstData() <= i < |t.items|
  {
    Link(t.items[i].downlink,
         if t.NegativeInfinity(i) then lowKey else Some(t.items[i]),
         if i + 1 < |t.items| then Some(t.items[i + 1]) else if t.Rightmost() then None else Some(t.items[0]))
  }

  // ---------------------------------------------------------------------------------------------
  // bt_downlink_missing_check

  datatype Descent = Bad | Found(leaf: nat)

  /** Descend along first downlinks from an internal page to a leaf, one level at a time. */
  function Descend(store: Store, b: nat): (r: Descent)
    requires Readable(store, b) && |store[b].items| > store[b].FirstData()
    ensures r.Found? ==> Readable(store, r.leaf) && store[r.leaf].leaf
    decreases store[b].level
  {
    var c := FirstDownlink(store[b]);
    if !Readable(store, c) then Bad
    else if store[c].leaf then Found(c)
    else if store[c].level + 1 != store[b].level || |store[c].items| <= store[c].FirstData() then Bad
    else Descend(store, c)
  }

  /** The leftmost leaf below b is half-dead and names b as the top of the chain being deleted. */
  predicate HeadsInterruptedDeletion(store: Store, b: nat)
    requires Readable(store, b)
  {
    var p := store[b];
    !p.leaf && |p.items| > p.FirstData() &&
    match Descend(store, b)
    case Bad => false
    case Found(c) =>
      var leaf := store[c];
      !leaf.deleted && leaf.halfDead && !leaf.Rightmost() && |leaf.items| > 0 && leaf.items[0].downlink == b
  }

  /** Each page but the last is internal, and its first downlink names the next one, one level down if internal. */
  ghost predicate ChainStep(store: Store, chain: seq<nat>, i: nat)
    requires i + 1 < |chain|
  {
    && chain[i] < |store| && !store[chain[i]].leaf && |store[chain[i]].items| > store[chain[i]].FirstData()
    && store[chain[i]].items[store[chain[i]].FirstData()].downlink == chain[i + 1] && Readable(store, chain[i + 1])
    && (!store[chain[i + 1]].leaf ==> store[chain[i + 1]].level + 1 == store[chain[i]].level)
  }

  ghost predicate Descending(store: Store, chain: seq<nat>) {
    |chain| >= 2 && forall i: nat :: i + 1 < |chain| ==> ChainStep(store, chain, i)
  }

  /** An interrupted deletion: a chain from page b down to a half-dead leaf whose high key names b. */
  ghost predicate DeletionChain(store: Store, b: nat, chain: seq<nat>) {
    && Descending(store, chain) && chain[0] == b && chain[|chain| - 1] < |store|
    && var leaf := store[chain[|chain| - 1]];
       && leaf.leaf && leaf.halfDead && !leaf.deleted && leaf.next != P_NONE
       && |leaf.items| > 0 && leaf.items[0].downlink == b
  }

  lemma {:induction false} DescentHasChain(store: Store, b: nat) returns (chain: seq<nat>)
    requires Readable(store, b) && !store[b].leaf && |store[b].items| > store[b].FirstData()
    requires Descend(store, b).Found?
    ensures Descending(store, chain) && chain[0] == b && chain[|chain| - 1] == Descend(store, b).leaf
    decreases store[b].level
  {
    var c := FirstDownlink(store[b]);
    if store[c].leaf {
      chain := [b, c];
    } else {
      var rest := DescentHasChain(store, c);
      chain := [b] + rest;
      forall i: nat | i + 1 < |chain| ensures ChainStep(store, chain, i) {
        if i > 0 { assert ChainStep(store, rest, i - 1); }
      }
    }
  }

  lemma {:induction false} ChainIsDescent(store: Store, chain: seq<nat>)
    requires Descending(store, chain) && Readable(store, chain[0])
    requires chain[|chain| - 1] < |store| && store[chain[|chain| - 1]].leaf
    ensures |store[chain[0]].items| > store[chain[0]].FirstData()
    ensures Descend(store, chain[0]) == Found(chain[|chain| - 1])
  {
    assert ChainStep(store, chain, 0);
    if |chain| > 2 {
      var rest := chain[1..];
      forall i: nat | i + 1 < |rest| ensures ChainStep(store, rest, i) { assert ChainStep(store, chain, i + 1); }
      assert ChainStep(store, chain, 1);
      ChainIsDescent(store, rest);
    }
  }

  /** The descent finds out whether there is such a chain. */
  lemma HeadsExactly(store: Store, b: nat)
    requires Readable(store, b)
    ensures HeadsInterruptedDeletion(store, b) <==> exists chain: seq<nat> :: DeletionChain(store, b, chain)
  {
    if HeadsInterruptedDeletion(store, b) {
      var chain := DescentHasChain(store, b);
      assert DeletionChain(store, b, chain);
    }
    if chain: seq<nat> :| DeletionChain(store, b, chain) {
      assert ChainStep(store, chain, 0) && ChainStep(store, chain, |chain| - 2);
      ChainIsDescent(store, chain);
    }
  }

  lemma {:induction false} ChainsAgreeFrom(store: Store, a: seq<nat>, c: seq<nat>, i: nat)
    requires Descending(store, a) && Descending(store, c) && a[0] == c[0] && i < |a| && i < |c|
    ensures a[i] == c[i]
  {
    if i > 0 {
      ChainsAgreeFrom(store, a, c, i - 1);
      assert ChainStep(store, a, i - 1) && ChainStep(store, c, i - 1);
    }
  }

  lemma InternalBeforeLast(store: Store, chain: seq<nat>, i: nat)
    requires Descending(store, chain) && i + 1 < |chain|
    ensures chain[i] < |store| && !store[chain[i]].leaf
  {
    assert ChainStep(store, chain, i);
  }

  lemma ChainNotLonger(store: Store, b: nat, chain: seq<nat>, chain': seq<nat>)
    requires DeletionChain(store, b, chain) && DeletionChain(store, b, chain')
    ensures |chain'| <= |chain|
  {
    if |chain| < |chain'| {
      ChainsAgreeFrom(store, chain, chain', |chain| - 1);
      InternalBeforeLast(store, chain', |chain| - 1);
    }
  }

  /** One half-dead leaf excuses one page, along one chain. */
  lemma LeafExcusesOnePage(store: Store, b: nat, chain: seq<nat>, b': nat, chain': seq<nat>)
    requires DeletionChain(store, b, chain) && DeletionChain(store, b', chain')
    requires chain[|chain| - 1] == chain'[|chain'| - 1]
    ensures b == b' && chain == chain'
  {
    ChainNotLonger(store, b, chain, chain');
    ChainNotLonger(store, b, chain', chain);
    forall i: nat | i < |chain| ensures chain[i] == chain'[i] { ChainsAgreeFrom(store, chain, chain', i); }
  }

  /** A live page may lack a downlink: it is the root, follows an incomplete split, or is being deleted. */
  ghost predicate Excused(store: Store, b: nat, afterSplit: bool)
    requires Readable(store, b)
  {
    store[b].root || afterSplit || exists chain: seq<nat> :: DeletionChain(store, b, chain)
  }

  /** The descent itself. */
  method DownlinkMissingCheck(store: Store, b: nat, rightsplit: bool) returns (ok: bool)
    requires Readable(store, b) && !store[b].Ignorable()
    ensures ok <==> store[b].root || rightsplit || exists chain: seq<nat> :: DeletionChain(store, b, chain)
  {
    var p := store[b];
    if p.root || rightsplit { return true; }
    HeadsExactly(store, b);
    if p.leaf { return false; }
    var at, level := b, p.level;
    while true
      invariant Readable(store, at) && |store[at].items| > store[at].FirstData() && level == store[at].level
      invariant Descend(store, at) == Descend(store, b)
      decreases level
    {
      var c := FirstDownlink(store[at]);
      if !Readable(store, c) { return false; }
      var child := store[c];
      if child.leaf {
        return !child.deleted && child.halfDead && !child.Rightmost()
               && |child.items| > 0 && child.items[0].downlink == b;
      }
      if child.level + 1 != level || |child.items| <= child.FirstData() { return false; }
      at, level := c, child.level;
    }
  }

  // ---------------------------------------------------------------------------------------------
  // What one call walks over

  /** Stands for the last call, which has no downlink; a data item with downlink 0 looks the same to the source. */
  const FINAL: Link := Link(P_NONE, Unchecked, Unchecked)

  /** The page the walk stands on after these downlinks, -1 at the start and after downlink 0. */
  function Standing(links: seq<Link>): int {
    if links == [] || links[|links| - 1].down == P_NONE then -1 else links[|links| - 1].down
  }

  /** prevrightlink: where the walk goes on from prev; an invalid right link counts as none. */
  function Onward(store: Store, prev: int): nat {
    if 0 <= prev < |store| then store[prev].next else INVALID_BLOCK
  }

  /** previncompletesplit. */
  function Split(store: Store, prev: int): bool { 0 <= prev < |store| && store[prev].incompleteSplit }

  /** The call starts at the left end of the child level. */
  predicate AtEnd(store: Store, prev: int) { Onward(store, prev) == INVALID_BLOCK }

  function Start(store: Store, prev: int, link: Link): nat {
    if AtEnd(store, prev) then link.down else Onward(store, prev)
  }

  /** The block the walk goes on to after the pages seg. */
  function NextOf(store: Store, start: nat, seg: seq<nat>): nat {
    if seg == [] then start else if seg[|seg| - 1] < |store| then store[seg[|seg| - 1]].next else P_NONE
  }

  /** A page whose high key is a separator of the parent level. */
  predicate HighKeyCounts(p: Page) { !p.incompleteSplit && !p.Rightmost() && !p.halfDead }

  predicate HighKeyMatches(p: Page, sep: Separator) {
    HighKeyCounts(p) ==> |p.items| > 0 && MatchesSeparator(p.items[0], sep)
  }

  /** The checks on every page that is visited. */
  predicate Visitable(store: Store, level: nat, b: nat) {
    && Readable(store, b) && store[b].prev != b
    && ((!store[b].deleted || store[b].fullXid) ==> store[b].level + 1 == level)
  }

  /** Nothing is wrong with a page of the walk; atEnd asks for the left end of the level. */
  ghost predicate PageFine(store: Store, level: nat, link: Link, b: nat, rightsplit: bool, atEnd: bool)
    requires Readable(store, b)
  {
    && Visitable(store, level, b) && (atEnd ==> LeftmostButHalfDead(store, b))
    && HighKeyMatches(store[b], if b == link.down then link.after else link.before)
    && (b != link.down && !store[b].Ignorable() ==> Excused(store, b, rightsplit))
  }

  /** Whether the left neighbour of the page after seg has an incomplete split. */
  predicate AfterSplit(store: Store, prev: int, seg: seq<nat>) {
    if seg == [] then !AtEnd(store, prev) && Split(store, prev) else Split(store, seg[|seg| - 1])
  }

  /** The walk can step onto the next page: it exists, the walk has not come round, and nothing is wrong with it. */
  ghost predicate CanVisit(store: Store, level: nat, prev: int, seg: seq<nat>, link: Link) {
    var start := Start(store, prev, link);
    var b := NextOf(store, start, seg);
    && Readable(store, b) && (seg != [] ==> b != start)
    && PageFine(store, level, link, b, AfterSplit(store, prev, seg), AtEnd(store, prev) && seg == [])
  }

  /** Pages walked over before the downlink was reached. */
  ghost predicate Passing(store: Store, level: nat, prev: int, seg: seq<nat>, link: Link) {
    seg == [] ||
    var n := |seg| - 1;
    && Passing(store, level, prev, seg[..n], link) && CanVisit(store, level, prev, seg[..n], link)
    && seg[n] == NextOf(store, Start(store, prev, link), seg[..n]) && seg[n] != link.down
  }

  /** After the pages seg the walk has arrived: at the downlink's page, or at the right end for downlink 0. */
  ghost predicate Arrived(store: Store, level: nat, prev: int, seg: seq<nat>, link: Link) {
    && Passing(store, level, prev, seg, link) && NextOf(store, Start(store, prev, link), seg) == link.down
    && (link.down != P_NONE ==> CanVisit(store, level, prev, seg, link))
  }

  /** After the pages seg the walk has not arrived and cannot go on. */
  ghost predicate Stuck(store: Store, level: nat, prev: int, seg: seq<nat>, link: Link) {
    var b := NextOf(store, Start(store, prev, link), seg);
    && Passing(store, level, prev, seg, link)
    && (if b == P_NONE then link.down != P_NONE else !CanVisit(store, level, prev, seg, link))
  }

  datatype Verdict = Accept | Corrupt | Interrupted

  /** The checks on one page of the walk. */
  method PageCheck(store: Store, level: nat, link: Link, b: nat, rightsplit: bool, atEnd: bool) returns (ok: bool)
    requires Readable(store, b)
    ensures ok <==> PageFine(store, level, link, b, rightsplit, atEnd)
  {
    var page := store[b];
    if atEnd {
      var leftmost := LeftmostIgnoringHalfDead(store, b);
      if leftmost != Returned(true) { return false; }
    }
    if (!page.deleted || page.fullXid) && page.level + 1 != level { return false; }
    if b == page.prev { return false; }
    if b != link.down && !page.Ignorable() {
      var excused := DownlinkMissingCheck(store, b, rightsplit);
      if !excused { return false; }
    }
    return HighKeyMatches(page, if b == link.down then link.after else link.before);
  }

  /** The loop of bt_child_highkey_check; budget bounds the pages it may pass before an interrupt. */
  method WalkTo(store: Store, level: nat, link: Link, ghost prev: int, rightLink: nat, split: bool, budget: nat)
    returns (r: Verdict, ghost seg: seq<nat>)
    requires rightLink == Onward(store, prev) && split == Split(store, prev)
    ensures r.Accept? ==> Arrived(store, level, prev, seg, link)
    ensures r.Corrupt? ==> Stuck(store, level, prev, seg, link)
    ensures r.Interrupted? ==> Passing(store, level, prev, seg, link) && |seg| == budget
  {
    var atEnd := rightLink == INVALID_BLOCK;
    var start := if atEnd then link.down else rightLink;
    var blkno, rightsplit, first := start, !atEnd && split, true;
    seg := [];
    for n := 0 to budget
      invariant first == (seg == []) && |seg| == n && Passing(store, level, prev, seg, link)
      invariant blkno == NextOf(store, start, seg) && rightsplit == AfterSplit(store, prev, seg)
    {
      if blkno == P_NONE && link.down == P_NONE { return Accept, seg; }
      if blkno == P_NONE || !Readable(store, blkno) { return Corrupt, seg; }
      if !first && blkno == start { return Corrupt, seg; }
      var ok := PageCheck(store, level, link, blkno, rightsplit, first && atEnd);
      if !ok { return Corrupt, seg; }
      if blkno == link.down { return Accept, seg; }
      assert (seg + [blkno])[..n] == seg;
      seg := seg + [blkno];
      blkno, rightsplit, first := store[blkno].next, store[blkno].incompleteSplit, false;
    }
    return Interrupted, seg;
  }

  // ---------------------------------------------------------------------------------------------
  // Call after call

  /** One stretch of passed pages per downlink, each starting where the one before arrived. */
  ghost predicate Stretches(store: Store, level: nat, segs: seq<seq<nat>>, links: seq<Link>) {
    && |segs| == |links|
    && (segs != [] ==>
          var n := |segs| - 1;
          && Stretches(store, level, segs[..n], links[..n])
          && Arrived(store, level, Standing(links[..n]), segs[n], links[n]))
  }

  lemma StretchAdded(store: Store, level: nat, segs: seq<seq<nat>>, links: seq<Link>, seg: seq<nat>, link: Link)
    requires Stretches(store, level, segs, links) && Arrived(store, level, Standing(links), seg, link)
    ensures Stretches(store, level, segs + [seg], links + [link])
  {
    var segs', links' := segs + [seg], links + [link];
    assert segs'[..|segs|] == segs && links'[..|segs|] == links;
  }

  lemma OneMoreLink(before: seq<Link>, t: Page, lowKey: Separator, i: nat)
    requires t.FirstData() <= i < |t.items|
    ensures before + PageLinks(t, lowKey, i) + [LinkAt(t, lowKey, i)] == before + PageLinks(t, lowKey, i + 1)
  {
  }

  /** prevrightlink and previncompletesplit of BtreeCheckState. */
  class Lockstep {
    var prevRightLink: nat
    var prevIncompleteSplit: bool
    /** The pages walked so far, one stretch per downlink. */
    ghost var segs: seq<seq<nat>>
    ghost var links: seq<Link>

    ghost predicate Valid(store: Store, level: nat)
      reads this
    {
      && Stretches(store, level, segs, links)
      && prevRightLink == Onward(store, Standing(links)) && prevIncompleteSplit == Split(store, Standing(links))
    }

    constructor (ghost store: Store, ghost level: nat)
      ensures segs == [] && links == [] && Valid(store, level)
    {
      prevRightLink, prevIncompleteSplit := INVALID_BLOCK, false;
      segs, links := [], [];
    }

    /** bt_child_highkey_check for any downlink, 0 included. */
    method HighkeyCheck(store: Store, level: nat, link: Link, budget: nat) returns (r: Verdict, ghost seg: seq<nat>)
      requires Valid(store, level)
      modifies this
      ensures r.Accept? ==> Valid(store, level) && links == old(links) + [link] && segs == old(segs) + [seg]
      ensures !r.Accept? ==> unchanged(this)
      ensures r.Corrupt? ==> Stuck(store, level, Standing(links), seg, link)
      ensures r.Interrupted? ==> |seg| == budget
    {
      r, seg := WalkTo(store, level, link, Standing(links), prevRightLink, prevIncompleteSplit, budget);
      if r.Accept? {
        if link.down == P_NONE {
          prevRightLink, prevIncompleteSplit := INVALID_BLOCK, false;
        } else {
          prevRightLink, prevIncompleteSplit := store[link.down].next, store[link.down].incompleteSplit;
        }
        StretchAdded(store, level, segs, links, seg, link);
        segs, links := segs + [seg], links + [link];
      }
    }

    /** The calls for the data items of one target page. */
    method PageDownlinks(store: Store, level: nat, t: Page, lowKey: Separator, budget: nat)
      returns (r: Verdict, ghost at: nat, ghost seg: seq<nat>)
      requires Valid(store, level)
      modifies this
      ensures r.Accept? ==> Valid(store, level) && links == old(links) + PageLinks(t, lowKey, |t.items|)
      ensures r.Corrupt? ==>
                && t.FirstData() <= at < |t.items| && links == old(links) + PageLinks(t, lowKey, at)
                && Valid(store, level) && Stuck(store, level, Standing(links), seg, LinkAt(t, lowKey, at))
    {
      ghost var before := links;
      r, at, seg := Accept, 0, [];
      if |t.items| <= t.FirstData() { return; }
      for i := t.FirstData() to |t.items|
        invariant r.Accept? && Valid(store, level) && links == before + PageLinks(t, lowKey, i)
      {
        OneMoreLink(before, t, lowKey, i);
        r, seg := HighkeyCheck(store, level, LinkAt(t, lowKey, i), budget);
        at := i;
        if !r.Accept? { return; }
      }
    }
  }

  // ---------------------------------------------------------------------------------------------
  // A whole internal level

  /** The downlinks of a page before index n, left to right. */
  function PageLinks(t: Page, lowKey: Separator, n: nat): seq<Link>
    requires n <= |t.items|
    decreases n
  {
    if n <= t.FirstData() then [] else PageLinks(t, lowKey, n - 1) + [LinkAt(t, lowKey, n - 1)]
  }

  /** The high key that the page at index m leaves to its right neighbour as low key. */
  function LowKey(targets: seq<Page>, m: nat): Separator
    requires m <= |targets|
  {
    if m == 0 || targets[m - 1].Rightmost() || targets[m - 1].items == [] then None else Some(targets[m - 1].items[0])
  }

  /** The downlinks of the first m pages of a level. */
  function LevelLinks(targets: seq<Page>, m: nat): seq<Link>
    requires m <= |targets|
  {
    if m == 0 then []
    else LevelLinks(targets, m - 1) + PageLinks(targets[m - 1], LowKey(targets, m - 1), |targets[m - 1].items|)
  }

  /** Every call arrived, the last one at the right end. */
  ghost predicate WalkedBy(store: Store, level: nat, links: seq<Link>, segs: seq<seq<nat>>, tail: seq<nat>) {
    Stretches(store, level, segs, links) && Arrived(store, level, Standing(links), tail, FINAL)
  }

  ghost predicate Walked(store: Store, level: nat, links: seq<Link>) {
    exists segs: seq<seq<nat>>, tail: seq<nat> :: WalkedBy(store, level, links, segs, tail)
  }

  /** The calls arrived up to some downlink, and the next call, or the last one, is stuck. */
  ghost predicate StuckAfter(store: Store, level: nat, links: seq<Link>, segs: seq<seq<nat>>, seg: seq<nat>) {
    && |segs| <= |links| && Stretches(store, level, segs, links[..|segs|])
    && Stuck(store, level, Standing(links[..|segs|]), seg, if |segs| < |links| then links[|segs|] else FINAL)
  }

  ghost predicate LevelStuck(store: Store, level: nat, links: seq<Link>) {
    exists segs: seq<seq<nat>>, seg: seq<nat> :: StuckAfter(store, level, links, segs, seg)
  }

  lemma {:induction false} PageLinksGrow(t: Page, lowKey: Separator, i: nat, n: nat)
    requires t.FirstData() <= i < n <= |t.items|
    ensures PageLinks(t, lowKey, i) + [LinkAt(t, lowKey, i)] <= PageLinks(t, lowKey, n)
    decreases n
  {
    if i + 1 < n { PageLinksGrow(t, lowKey, i, n - 1); }
  }

  lemma {:induction false} LevelLinksGrow(targets: seq<Page>, m: nat, n: nat)
    requires m <= n <= |targets|
    ensures LevelLinks(targets, m) <= LevelLinks(targets, n)
    decreases n
  {
    if m < n { LevelLinksGrow(targets, m, n - 1); }
  }

  lemma LinkInLevel(targets: seq<Page>, m: nat, at: nat)
    requires m < |targets| && targets[m].FirstData() <= at < |targets[m].items|
    ensures var t, low := targets[m], LowKey(targets, m);
            LevelLinks(targets, m) + PageLinks(t, low, at) + [LinkAt(t, low, at)] <= LevelLinks(targets, |targets|)
  {
    var t, low := targets[m], LowKey(targets, m);
    PageLinksGrow(t, low, at, |t.items|);
    LevelLinksGrow(targets, m + 1, |targets|);
  }

  lemma StuckOnLink(store: Store, level: nat, done: seq<Link>, link: Link, all: seq<Link>,
                    segs: seq<seq<nat>>, seg: seq<nat>)
    requires done + [link] <= all && Stretches(store, level, segs, done)
    requires Stuck(store, level, Standing(done), seg, link)
    ensures LevelStuck(store, level, all)
  {
    assert all[..|segs|] == done && all[|segs|] == link;
    assert StuckAfter(store, level, all, segs, seg);
  }

  /** The downlink calls of bt_target_page_check over the pages of one internal level, then the last call. */
  method CheckDownlinks(store: Store, targets: seq<Page>, level: nat, budget: nat) returns (r: Verdict)
    ensures r.Accept? ==> Walked(store, level, LevelLinks(targets, |targets|))
    ensures r.Corrupt? ==> LevelStuck(store, level, LevelLinks(targets, |targets|))
  {
    var state := new Lockstep(store, level);
    for m := 0 to |targets|
      invariant fresh(state) && state.Valid(store, level) && state.links == LevelLinks(targets, m)
    {
      ghost var at, seg;
      r, at, seg := state.PageDownlinks(store, level, targets[m], LowKey(targets, m), budget);
      if r.Corrupt? {
        LinkInLevel(targets, m, at);
        StuckOnLink(store, level, state.links, LinkAt(targets[m], LowKey(targets, m), at),
                    LevelLinks(targets, |targets|), state.segs, seg);
      }
      if !r.Accept? { return; }
    }
    r := FinishLevel(store, level, state, LevelLinks(targets, |targets|), budget);
  }

  /** The last call, without a downlink: the pages to the right of the last downlink need an excuse too. */
  method FinishLevel(store: Store, level: nat, state: Lockstep, ghost links: seq<Link>, budget: nat)
    returns (r: Verdict)
    requires state.Valid(store, level) && state.links == links
    ensures r.Accept? ==> Walked(store, level, links)
    ensures r.Corrupt? ==> LevelStuck(store, level, links)
  {
    ghost var tail;
    r, tail := WalkTo(store, level, FINAL, Standing(links), state.prevRightLink, state.prevIncompleteSplit, budget);
    if r.Accept? {
      assert WalkedBy(store, level, links, state.segs, tail);
    } else if r.Corrupt? {
      assert links[..|links|] == links;
      assert StuckAfter(store, level, links, state.segs, tail);
    }
  }

  // ---------------------------------------------------------------------------------------------
  // The two outcomes exclude each other

  /** All pages passed on the way to a downlink are the same from one walk to another. */
  lemma {:induction false} SamePages(store: Store, level: nat, prev: int, link: Link, a: seq<nat>, b: seq<nat>)
    requires Passing(store, level, prev, a, link) && Passing(store, level, prev, b, link) && |a| <= |b|
    ensures a == b[..|a|]
  {
    if a != [] {
      var n := |a| - 1;
      PassingPrefix(store, level, prev, link, b, |a|);
      assert b[..|a|][..n] == b[..n];
      PassingPrefix(store, level, prev, link, b, n);
      SamePages(store, level, prev, link, a[..n], b[..n]);
      assert a[..n] == b[..n][..n] == b[..n];
    }
  }

  lemma {:induction false} PassingPrefix(store: Store, level: nat, prev: int, link: Link, seg: seq<nat>, n: nat)
    requires Passing(store, level, prev, seg, link) && n <= |seg|
    ensures Passing(store, level, prev, seg[..n], link)
    decreases |seg|
  {
    if n == |seg| {
      assert seg[..n] == seg;
    } else {
      assert seg[..|seg| - 1][..n] == seg[..n];
      PassingPrefix(store, level, prev, link, seg[..|seg| - 1], n);
    }
  }

  /** A page that was passed. */
  lemma PassedPage(store: Store, level: nat, prev: int, link: Link, seg: seq<nat>, i: nat)
    requires Passing(store, level, prev, seg, link) && i < |seg|
    ensures CanVisit(store, level, prev, seg[..i], link) && seg[i] != link.down
    ensures seg[i] == NextOf(store, Start(store, prev, link), seg[..i])
  {
    PassingPrefix(store, level, prev, link, seg, i + 1);
    assert seg[..i + 1][..i] == seg[..i];
  }

  /** A call that arrives does so after the same pages every time. */
  lemma ArrivalUnique(store: Store, level: nat, prev: int, link: Link, a: seq<nat>, b: seq<nat>)
    requires Arrived(store, level, prev, a, link) && Passing(store, level, prev, b, link)
    ensures |b| <= |a| && b == a[..|b|]
  {
    if |a| < |b| {
      SamePages(store, level, prev, link, a, b);
      PassedPage(store, level, prev, link, b, |a|);
    } else {
      SamePages(store, level, prev, link, b, a);
    }
  }

  lemma ArrivedIsNotStuck(store: Store, level: nat, prev: int, link: Link, a: seq<nat>, b: seq<nat>)
    requires Arrived(store, level, prev, a, link) && Passing(store, level, prev, b, link)
    ensures !Stuck(store, level, prev, b, link)
  {
    ArrivalUnique(store, level, prev, link, a, b);
    if |b| < |a| {
      PassedPage(store, level, prev, link, a, |b|);
    } else {
      assert b == a;
    }
  }

  lemma {:induction false} StretchPrefix(store: Store, level: nat, segs: seq<seq<nat>>, links: seq<Link>, n: nat)
    requires Stretches(store, level, segs, links) && n <= |segs|
    ensures Stretches(store, level, segs[..n], links[..n])
    decreases |segs|
  {
    if n == |segs| {
      assert segs[..n] == segs && links[..n] == links;
    } else {
      var m := |segs| - 1;
      assert segs[..m][..n] == segs[..n] && links[..m][..n] == links[..n];
      StretchPrefix(store, level, segs[..m], links[..m], n);
    }
  }

  lemma StretchAt(store: Store, level: nat, segs: seq<seq<nat>>, links: seq<Link>, n: nat)
    requires Stretches(store, level, segs, links) && n < |segs|
    ensures Arrived(store, level, Standing(links[..n]), segs[n], links[n])
  {
    StretchPrefix(store, level, segs, links, n + 1);
    assert links[..n + 1][..n] == links[..n];
  }

  /** The verdict is a fact about the store: a level is not both walked and stuck. */
  lemma WalkedIsNotStuck(store: Store, level: nat, links: seq<Link>)
    requires Walked(store, level, links)
    ensures !LevelStuck(store, level, links)
  {
    var segs, tail :| WalkedBy(store, level, links, segs, tail);
    forall segs', seg | StuckAfter(store, level, links, segs', seg) ensures false {
      var n := |segs'|;
      var prev := Standing(links[..n]);
      if n < |links| {
        StretchAt(store, level, segs, links, n);
        ArrivedIsNotStuck(store, level, prev, links[n], segs[n], seg);
      } else {
        assert links[..n] == links;
        ArrivedIsNotStuck(store, level, prev, FINAL, tail, seg);
      }
    }
  }
}
