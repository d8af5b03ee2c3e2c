/**
 * What the downlinks of a level, taken in lockstep with the right links below them, say about the child
 * level: first from the calls for the downlinks alone, then together with the walk of the child level.
 */
module NbtLevels {
  import opened NbtPages
  import opened NbtWalk
  import opened NbtLockstep
  import opened NbtOrder

  // ---------------------------------------------------------------------------------------------
  // The downlinks and the right links agree

  /** The walk leads from a to b: along the right link, or, after a page with a downlink, by starting anew. */
  ghost predicate Joined(store: Store, a: nat, b: nat, marked: bool)
    requires a < |store| && b < |store|
  {
    store[a].next == b || (marked && store[a].next == INVALID_BLOCK && LeftmostButHalfDead(store, b))
  }

  /** A page of the walk, the page before it, and whether a downlink names it. */
  ghost predicate TrailOk(store: Store, level: nat, trail: seq<nat>, marks: seq<nat>, i: nat)
    requires i < |trail|
  {
    && Visitable(store, level, trail[i])
    && (i > 0 ==> trail[i - 1] < |store| && Joined(store, trail[i - 1], trail[i], i - 1 in marks))
    && (i !in marks && !store[trail[i]].Ignorable() ==>
          Excused(store, trail[i], i > 0 && store[trail[i - 1]].incompleteSplit))
  }

  /** The k-th downlink names the page at marks[k], and that page's high key is the next separator. */
  ghost predicate MarkOk(store: Store, links: seq<Link>, trail: seq<nat>, marks: seq<nat>, k: nat)
    requires k < |marks| && k < |links|
  {
    && marks[k] < |trail| && trail[marks[k]] == links[k].down
    && Readable(store, links[k].down) && HighKeyMatches(store[links[k].down], links[k].after)
  }

  ghost predicate Ascending(marks: seq<nat>) {
    forall j, k :: 0 <= j < k < |marks| ==> marks[j] < marks[k]
  }

  /**
   * The child level has a walk that starts at its left end with the first downlink, ends with the last one,
   * and has the others in order; every live page no downlink names is excused, and the pages named agree
   * with the separators.
   */
  ghost predicate InLockstep(store: Store, level: nat, links: seq<Link>, trail: seq<nat>, marks: seq<nat>) {
    && |marks| == |links| && Ascending(marks)
    && (if links == [] then trail == []
        else trail != [] && marks[0] == 0 && marks[|marks| - 1] == |trail| - 1)
    && (trail != [] ==> Readable(store, trail[0]) && LeftmostButHalfDead(store, trail[0]))
    && (forall i :: 0 <= i < |trail| ==> TrailOk(store, level, trail, marks, i))
    && (forall k :: 0 <= k < |marks| ==> MarkOk(store, links, trail, marks, k))
  }

  function LastBlock(trail: seq<nat>): int { if trail == [] then -1 else trail[|trail| - 1] }

  /** In lockstep, and the pages to the right of the last downlink are excused up to the end of the level. */
  ghost predicate LockstepBy(store: Store, level: nat, links: seq<Link>, trail: seq<nat>, marks: seq<nat>,
                             tail: seq<nat>) {
    InLockstep(store, level, links, trail, marks) && Arrived(store, level, LastBlock(trail), tail, FINAL)
  }

  ghost predicate LevelInLockstep(store: Store, level: nat, links: seq<Link>) {
    exists trail: seq<nat>, marks: seq<nat>, tail: seq<nat> :: LockstepBy(store, level, links, trail, marks, tail)
  }

  /** No data item points to block 0. */
  predicate NoZeroDownlink(links: seq<Link>) { forall k :: 0 <= k < |links| ==> links[k].down != P_NONE }

  lemma {:induction false} Flattened(store: Store, level: nat, segs: seq<seq<nat>>, links: seq<Link>)
    returns (trail: seq<nat>, marks: seq<nat>)
    requires Stretches(store, level, segs, links) && NoZeroDownlink(links)
    ensures InLockstep(store, level, links, trail, marks) && LastBlock(trail) == Standing(links)
    decreases |segs|
  {
    trail, marks := [], [];
    if segs != [] {
      var n := |segs| - 1;
      trail, marks := Flattened(store, level, segs[..n], links[..n]);
      Extended(store, level, links[..n], trail, marks, segs[n], links[n]);
      trail, marks := trail + segs[n] + [links[n].down], marks + [|trail| + |segs[n]|];
      assert links[..n] + [links[n]] == links;
    }
  }

  lemma ExtendedMarks(store: Store, links: seq<Link>, trail: seq<nat>, marks: seq<nat>, seg: seq<nat>, link: Link)
    requires |marks| == |links| && Ascending(marks)
    requires forall k :: 0 <= k < |marks| ==> MarkOk(store, links, trail, marks, k)
    requires Readable(store, link.down) && HighKeyMatches(store[link.down], link.after)
    ensures var trail', marks' := trail + seg + [link.down], marks + [|trail| + |seg|];
            Ascending(marks') && forall k :: 0 <= k < |marks'| ==> MarkOk(store, links + [link], trail', marks', k)
  {
    var trail', marks' := trail + seg + [link.down], marks + [|trail| + |seg|];
    forall k | 0 <= k < |marks'| ensures MarkOk(store, links + [link], trail', marks', k) {
      if k < |marks| { assert MarkOk(store, links, trail, marks, k); }
    }
    forall k | 0 <= k < |marks| ensures marks[k] < |trail| { assert MarkOk(store, links, trail, marks, k); }
  }

  lemma ExtendedOld(store: Store, level: nat, trail: seq<nat>, marks: seq<nat>, more: seq<nat>, mark: nat, i: nat)
    requires i < |trail| <= mark && TrailOk(store, level, trail, marks, i)
    ensures TrailOk(store, level, trail + more, marks + [mark], i)
  {
    assert i - 1 in marks ==> i - 1 in marks + [mark];
  }

  lemma Extended(store: Store, level: nat, links: seq<Link>, trail: seq<nat>, marks: seq<nat>, seg: seq<nat>,
                 link: Link)
    requires InLockstep(store, level, links, trail, marks) && link.down != P_NONE
    requires LastBlock(trail) == Standing(links) && Arrived(store, level, LastBlock(trail), seg, link)
    ensures InLockstep(store, level, links + [link], trail + seg + [link.down], marks + [|trail| + |seg|])
  {
    var trail', marks' := trail + seg + [link.down], marks + [|trail| + |seg|];
    ExtendedMarks(store, links, trail, marks, seg, link);
    forall i | 0 <= i < |trail'| ensures TrailOk(store, level, trail', marks', i) {
      if i < |trail| {
        ExtendedOld(store, level, trail, marks, seg + [link.down], |trail| + |seg|, i);
        assert trail + (seg + [link.down]) == trail';
      } else {
        ExtendedAt(store, level, links, trail, marks, seg, link, i - |trail|);
      }
    }
    if trail == [] { FirstStretchEmpty(store, level, seg, link); }
  }

  /** At the left end the walk starts with the downlink itself. */
  lemma FirstStretchEmpty(store: Store, level: nat, seg: seq<nat>, link: Link)
    requires Arrived(store, level, -1, seg, link)
    ensures seg == [] && (link.down != P_NONE ==> Readable(store, link.down) && LeftmostButHalfDead(store, link.down))
  {
    if seg != [] { PassedPage(store, level, -1, link, seg, 0); }
  }

  /** The pages of a stretch, and the downlink's own page behind it. */
  lemma ExtendedAt(store: Store, level: nat, links: seq<Link>, trail: seq<nat>, marks: seq<nat>, seg: seq<nat>,
                   link: Link, j: nat)
    requires InLockstep(store, level, links, trail, marks) && link.down != P_NONE && j <= |seg|
    requires LastBlock(trail) == Standing(links) && Arrived(store, level, LastBlock(trail), seg, link)
    ensures TrailOk(store, level, trail + seg + [link.down], marks + [|trail| + |seg|], |trail| + j)
  {
    var prev := LastBlock(trail);
    var trail', marks', i := trail + seg + [link.down], marks + [|trail| + |seg|], |trail| + j;
    if j < |seg| { PassedPage(store, level, prev, link, seg, j); } else { assert seg[..j] == seg; }
    assert CanVisit(store, level, prev, seg[..j], link);
    assert trail'[i] == NextOf(store, Start(store, prev, link), seg[..j]);
    assert marks'[|marks|] == |trail| + |seg|;
    if j > 0 {
      assert trail'[i - 1] == seg[j - 1];
    } else if trail != [] {
      assert trail'[i - 1] == prev && TrailOk(store, level, trail, marks, |trail| - 1);
      assert links != [] && marks[|marks| - 1] == |trail| - 1;
      assert marks'[|marks| - 1] == i - 1;
    }
  }

  /** When every call arrived, the child level is in lockstep exactly if no downlink is 0. */
  lemma LockstepExactly(store: Store, level: nat, links: seq<Link>)
    requires Walked(store, level, links)
    ensures LevelInLockstep(store, level, links) <==> NoZeroDownlink(links)
  {
    if NoZeroDownlink(links) {
      var segs, tail :| WalkedBy(store, level, links, segs, tail);
      var trail, marks := Flattened(store, level, segs, links);
      assert LockstepBy(store, level, links, trail, marks, tail);
    }
    if trail, marks, tail :| LockstepBy(store, level, links, trail, marks, tail) {
      forall k | 0 <= k < |links| ensures links[k].down != P_NONE { assert MarkOk(store, links, trail, marks, k); }
    }
  }

  // ---------------------------------------------------------------------------------------------
  // One right-link chain

  ghost predicate Plain(store: Store, trail: seq<nat>) {
    forall i :: 0 < i < |trail| ==> LinkedRight(store, trail, i)
  }

  /** No page with a downlink, other than the last, has an invalid right link. */
  predicate NoRestart(store: Store, links: seq<Link>) {
    forall k :: 0 <= k < |links| - 1 ==> Onward(store, links[k].down) != INVALID_BLOCK
  }

  /** The walk is one chain of right links exactly if it never started anew. */
  lemma PlainExactly(store: Store, level: nat, links: seq<Link>, trail: seq<nat>, marks: seq<nat>)
    requires InLockstep(store, level, links, trail, marks) && |store| <= INVALID_BLOCK
    ensures Plain(store, trail) <==> NoRestart(store, links)
  {
    if Plain(store, trail) {
      forall k | 0 <= k < |links| - 1 ensures Onward(store, links[k].down) != INVALID_BLOCK {
        assert MarkOk(store, links, trail, marks, k) && marks[k] < marks[|marks| - 1];
        assert TrailOk(store, level, trail, marks, marks[k] + 1) && LinkedRight(store, trail, marks[k] + 1);
      }
    }
    if NoRestart(store, links) {
      forall i | 0 < i < |trail| ensures LinkedRight(store, trail, i) {
        assert TrailOk(store, level, trail, marks, i);
        if i - 1 in marks {
          var k :| 0 <= k < |marks| && marks[k] == i - 1;
          assert MarkOk(store, links, trail, marks, k);
        }
      }
    }
  }

  // ---------------------------------------------------------------------------------------------
  // Both levels walked

  /** Behind the last downlink the walk goes along right links. */
  lemma TailLinked(store: Store, level: nat, prev: int, tail: seq<nat>, j: nat)
    requires Arrived(store, level, prev, tail, FINAL) && j < |tail|
    ensures Readable(store, tail[j])
    ensures if j == 0 then 0 <= prev < |store| && store[prev].next == tail[0] else LinkedRight(store, tail, j)
  {
    PassedPage(store, level, prev, FINAL, tail, j);
    PassedPage(store, level, prev, FINAL, tail, 0);
    if j > 0 { PassedPage(store, level, prev, FINAL, tail, j - 1); }
  }

  lemma {:induction false} SameWalk(store: Store, level: nat, links: seq<Link>, trail: seq<nat>, marks: seq<nat>,
                                    tail: seq<nat>, lv: Level, walk: seq<nat>, i: nat)
    requires LockstepBy(store, level, links, trail, marks, tail) && |store| <= INVALID_BLOCK
    requires links != [] && lv.leftmost == links[0].down && Completed(store, lv, walk) && i < |trail + tail|
    ensures i < |walk| && (trail + tail)[i] == walk[i]
  {
    if i == 0 {
      assert MarkOk(store, links, trail, marks, 0);
      assert VisitedAt(store, lv, walk, 0);
    } else {
      SameWalk(store, level, links, trail, marks, tail, lv, walk, i - 1);
      CompletedPage(store, lv, walk, i - 1);
      if i < |walk| { CompletedPage(store, lv, walk, i); }
      if i < |trail| {
        assert TrailOk(store, level, trail, marks, i);
      } else {
        TailLinked(store, level, LastBlock(trail), tail, i - |trail|);
      }
    }
  }

  /**
   * If the child level, from the first downlink on, was itself walked to its end, then the lockstep went
   * over exactly the pages of that walk: no restart, and nothing left out on the right.
   */
  lemma LockstepIsChildWalk(store: Store, level: nat, links: seq<Link>, trail: seq<nat>, marks: seq<nat>,
                            tail: seq<nat>, lv: Level, walk: seq<nat>)
    requires LockstepBy(store, level, links, trail, marks, tail) && |store| <= INVALID_BLOCK
    requires links != [] && lv.leftmost == links[0].down && Completed(store, lv, walk)
    ensures trail + tail == walk && Plain(store, walk)
  {
    var all := trail + tail;
    var last := |all| - 1;
    forall i | 0 <= i < |all| ensures i < |walk| && all[i] == walk[i] {
      SameWalk(store, level, links, trail, marks, tail, lv, walk, i);
    }
    SameWalk(store, level, links, trail, marks, tail, lv, walk, last);
    CompletedPage(store, lv, walk, last);
    if last + 1 < |walk| { CompletedPage(store, lv, walk, last + 1); }
    assert all[last] == if tail == [] then trail[|trail| - 1] else tail[|tail| - 1];
    forall i | 0 < i < |walk| ensures LinkedRight(store, walk, i) { CompletedPage(store, lv, walk, i - 1); }
  }

  // ---------------------------------------------------------------------------------------------
  // Witnesses

  function RootPage(items: seq<Item>): Page { Page(0, 0, 1, false, true, false, false, false, false, false, items) }

  function ZeroStore(): Store {
    [LeafPage(0, 0, false, []), RootPage([Item([], [], false, P_NONE)])]
  }

  /** Every call arrives without passing a page. */
  ghost predicate Direct(store: Store, level: nat, links: seq<Link>) {
    links == [] ||
    var n := |links| - 1;
    Direct(store, level, links[..n]) && Arrived(store, level, Standing(links[..n]), [], links[n])
  }

  lemma DirectStep(store: Store, level: nat, links: seq<Link>, link: Link)
    requires Direct(store, level, links) && Arrived(store, level, Standing(links), [], link)
    ensures Direct(store, level, links + [link])
  {
    assert (links + [link])[..|links|] == links;
  }

  lemma {:induction false} DirectStretches(store: Store, level: nat, links: seq<Link>) returns (segs: seq<seq<nat>>)
    requires Direct(store, level, links)
    ensures Stretches(store, level, segs, links)
  {
    segs := [];
    if links != [] {
      var n := |links| - 1;
      segs := DirectStretches(store, level, links[..n]);
      StretchAdded(store, level, segs, links[..n], [], links[n]);
      assert links[..n] + [links[n]] == links;
      segs := segs + [[]];
    }
  }

  lemma WalkedDirectly(store: Store, level: nat, links: seq<Link>)
    requires Direct(store, level, links) && Arrived(store, level, Standing(links), [], FINAL)
    ensures Walked(store, level, links)
  {
    var segs := DirectStretches(store, level, links);
    assert WalkedBy(store, level, links, segs, []);
  }

  lemma ZeroLinks()
    ensures LevelLinks([ZeroStore()[1]], 1) == [Link(P_NONE, None, None)]
  {
    var t := ZeroStore()[1];
    assert PageLinks(t, None, 0) == [] && PageLinks(t, None, 1) == [LinkAt(t, None, 0)];
    assert LevelLinks([t], 0) == [];
  }

  lemma ZeroRootCompleted()
    ensures Completed(ZeroStore(), Level(1, 1, true, (b: nat) => PageOk(1, ZeroStore(), b, 0)), [1])
  {
    var store := ZeroStore();
    var lv := Level(1, 1, true, (b: nat) => PageOk(1, store, b, 0));
    assert LinkedBack(store, 1, []) && Reached(store, 1, []) == P_NONE;
    assert WalkAt(store, lv, 0) == At(Place(P_NONE, 1, false));
    assert VisitedAt(store, lv, [1], 0);
  }

  /**
   * An index whose root has nothing but a downlink to block 0: the page and its level are accepted, the calls
   * for the downlink arrive, and the check is over, as no level below is named. There is no child level.
   */
  lemma ZeroDownlinkIsAccepted()
    ensures var store := ZeroStore();
            var links := LevelLinks([store[1]], 1);
            && Completed(store, Level(1, 1, true, (b: nat) => PageOk(1, ZeroStore(), b, 0)), [1])
            && FirstDownlink(store[1]) == P_NONE
            && Walked(store, 1, links) && !LevelInLockstep(store, 1, links)
  {
    var store, l := ZeroStore(), Link(P_NONE, None, None);
    ZeroRootCompleted();
    ZeroLinks();
    DirectStep(store, 1, [], l);
    assert [] + [l] == [l];
    WalkedDirectly(store, 1, [l]);
    LockstepExactly(store, 1, [l]);
    assert [l][0].down == P_NONE;
  }

  function RestartStore(): Store {
    var sep := Item([5], [], false, 2);
    [LeafPage(0, 0, false, []),
     LeafPage(0, INVALID_BLOCK, false, [sep.(downlink := 0)]).(incompleteSplit := false),
     LeafPage(0, 0, false, []),
     RootPage([Item([], [], false, 1), sep])]
  }

  const RESTART_LINKS: seq<Link> :=
    [Link(1, None, Some(Item([5], [], false, 2))), Link(2, Some(Item([5], [], false, 2)), None)]

  lemma RestartLinks()
    ensures LevelLinks([RestartStore()[3]], 1) == RESTART_LINKS
  {
    var t := RestartStore()[3];
    assert PageLinks(t, None, 0) == [] && PageLinks(t, None, 1) == [LinkAt(t, None, 0)];
    assert PageLinks(t, None, 2) == [LinkAt(t, None, 0), LinkAt(t, None, 1)];
    assert LevelLinks([t], 0) == [];
  }

  /** Both children are at a left end of their level. */
  lemma RestartLeftmost()
    ensures LeftmostButHalfDead(RestartStore(), 1) && LeftmostButHalfDead(RestartStore(), 2)
  {
    var store := RestartStore();
    assert LinkedBack(store, 1, []) && Reached(store, 1, []) == P_NONE;
    assert LinkedBack(store, 2, []) && Reached(store, 2, []) == P_NONE;
  }

  lemma RestartArrives()
    ensures var store := RestartStore();
            && Arrived(store, 1, -1, [], RESTART_LINKS[0]) && Arrived(store, 1, 1, [], RESTART_LINKS[1])
            && Arrived(store, 1, 2, [], FINAL)
  {
    RestartLeftmost();
    assert PageFine(RestartStore(), 1, RESTART_LINKS[0], 1, false, true);
    assert PageFine(RestartStore(), 1, RESTART_LINKS[1], 2, false, true);
  }

  lemma RestartWalked()
    ensures Walked(RestartStore(), 1, RESTART_LINKS)
  {
    var store, l, l' := RestartStore(), RESTART_LINKS[0], RESTART_LINKS[1];
    RestartArrives();
    DirectStep(store, 1, [], l);
    DirectStep(store, 1, [] + [l], l');
    assert [] + [l] + [l'] == RESTART_LINKS;
    WalkedDirectly(store, 1, RESTART_LINKS);
  }

  /** Two children that no right link joins: the first one's is invalid, and the walk starts anew at the second. */
  lemma RestartIsAccepted()
    ensures var store := RestartStore();
            var links := LevelLinks([store[3]], 1);
            && Walked(store, 1, links) && InLockstep(store, 1, links, [1, 2], [0, 1])
            && store[1].next != 2 && !Plain(store, [1, 2])
  {
    var store, links := RestartStore(), RESTART_LINKS;
    RestartLinks();
    RestartWalked();
    RestartLeftmost();
    assert TrailOk(store, 1, [1, 2], [0, 1], 0) && TrailOk(store, 1, [1, 2], [0, 1], 1);
    assert MarkOk(store, links, [1, 2], [0, 1], 0) && MarkOk(store, links, [1, 2], [0, 1], 1);
    assert InLockstep(store, 1, links, [1, 2], [0, 1]);
    assert !LinkedRight(store, [1, 2], 1);
  }
}
