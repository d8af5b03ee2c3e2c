/**
 * What the level above leaves open: children of different pages. The first item of an internal page puts no
 * lower bound on its child, so an empty page at the end of its left neighbour's children can hide disorder.
 */
module NbtCousins {
  import opened NbtPages
  import opened NbtWalk
  import opened NbtLockstep
  import opened NbtOrder
  import opened NbtLevels
  import opened NbtChildren

  function Entry(key: int): Item { Item([key], [1], false, 0) }

  function Pivot(key: int, down: nat): Item { Item([key], [], false, down) }

  function Lowest(down: nat): Item { Item([], [], false, down) }

  function Leaf(prev: nat, next: nat, items: seq<Item>): Page {
    LeafPage(prev, next, false, items).(incompleteSplit := false)
  }

  function Inner(prev: nat, next: nat, level: nat, root: bool, items: seq<Item>): Page {
    Page(prev, next, level, false, root, false, false, false, false, false, items)
  }

  /** A root over two pages with two leaves each; leaf 2 is empty, and leaf 3 belongs before leaf 1. */
  function CousinStore(): Store {
    [Leaf(0, 0, []),
     Leaf(0, 2, [Pivot(5, 0), Entry(4)]),
     Leaf(1, 3, [Pivot(7, 0)]),
     Leaf(2, 4, [Pivot(20, 0), Entry(1)]),
     Leaf(3, 0, [Entry(30)]),
     Inner(0, 6, 1, false, [Pivot(7, 0), Lowest(1), Pivot(5, 2)]),
     Inner(5, 0, 1, false, [Lowest(3), Pivot(20, 4)]),
     Inner(0, 0, 2, true, [Lowest(5), Pivot(7, 6)])]
  }

  ghost function CousinLevel(leftmost: nat, level: nat): Level {
    Level(leftmost, level, level == 2, (b: nat) => PageOk(1, CousinStore(), b, 0))
  }

  // ---------------------------------------------------------------------------------------------
  // Every page passes

  lemma LeavesOk()
    ensures forall b :: 1 <= b <= 4 ==> PageOk(1, CousinStore(), b, 0)
  {
    var store := CousinStore();
    assert ItemOk(store[1], 1) && SkipIgnorable(store, 2, 0) == Landed(2);
    assert ItemOk(store[3], 1) && SkipIgnorable(store, 4, 0) == Landed(4);
    assert ItemOk(store[4], 0);
  }

  lemma InnersOk()
    ensures forall b :: 5 <= b <= 7 ==> PageOk(1, CousinStore(), b, 0)
  {
    var store := CousinStore();
    assert ItemOk(store[5], 2) && SkipIgnorable(store, 6, 0) == Landed(6);
    assert ItemOk(store[6], 1) && ItemOk(store[7], 1);
  }

  lemma ChildrenOk()
    ensures forall b :: 5 <= b <= 7 ==> ChildrenChecked(CousinStore(), CousinStore()[b])
  {
    var store := CousinStore();
    assert AboveSeparator(store[5].items[2], store[2]);
    assert AboveSeparator(store[6].items[1], store[4]);
    assert AboveSeparator(store[7].items[1], store[6]);
  }

  // ---------------------------------------------------------------------------------------------
  // Every level is walked to its end

  lemma LeftEnds()
    ensures LeftmostButHalfDead(CousinStore(), 1) && LeftmostButHalfDead(CousinStore(), 5)
    ensures LeftmostButHalfDead(CousinStore(), 7)
  {
    var store := CousinStore();
    assert LinkedBack(store, 1, []) && Reached(store, 1, []) == P_NONE;
    assert LinkedBack(store, 5, []) && Reached(store, 5, []) == P_NONE;
    assert LinkedBack(store, 7, []) && Reached(store, 7, []) == P_NONE;
  }

  lemma RootCompleted()
    ensures Completed(CousinStore(), CousinLevel(7, 2), [7])
  {
    LeftEnds();
    InnersOk();
    PathIsCompleted(CousinStore(), CousinLevel(7, 2), [7]);
  }

  lemma InnersCompleted()
    ensures Completed(CousinStore(), CousinLevel(5, 1), [5, 6])
  {
    var store, lv, path := CousinStore(), CousinLevel(5, 1), [5, 6];
    LeftEnds();
    InnersOk();
    assert LinkedRight(store, path, 1) && Passable(store, lv, path, 0);
    assert path[0] < |store| && Settles(store[path[0]]);
    PathIsCompleted(store, lv, path);
  }

  lemma LeafPassable(i: nat)
    requires i < 3
    ensures var store, lv, path := CousinStore(), CousinLevel(1, 0), [1, 2, 3, 4];
            Passable(store, lv, path, i) && LinkedRight(store, path, i + 1)
  {
    var store, path := CousinStore(), [1, 2, 3, 4];
    LeftEnds();
    LeavesOk();
    assert path[0] < |store| && Settles(store[path[0]]);
  }

  lemma LastLeaf()
    ensures var store, lv, path := CousinStore(), CousinLevel(1, 0), [1, 2, 3, 4];
            VisitPage(store, lv, Place(3, 4, !Unsettled(store, path, 3))).Done?
  {
    var store, path := CousinStore(), [1, 2, 3, 4];
    LeavesOk();
    assert path[0] < |store| && Settles(store[path[0]]);
  }

  lemma LeavesCompleted()
    ensures Completed(CousinStore(), CousinLevel(1, 0), [1, 2, 3, 4])
  {
    var path := [1, 2, 3, 4];
    forall i: nat | i < 3
      ensures Passable(CousinStore(), CousinLevel(1, 0), path, i) && LinkedRight(CousinStore(), path, i + 1)
    {
      LeafPassable(i);
    }
    forall i | 0 < i < |path| ensures LinkedRight(CousinStore(), path, i) { LeafPassable(i - 1); }
    LastLeaf();
    PathIsCompleted(CousinStore(), CousinLevel(1, 0), path);
  }

  // ---------------------------------------------------------------------------------------------
  // Every call arrives

  const ROOT_LINKS: seq<Link> := [Link(5, None, Some(Pivot(7, 6))), Link(6, Some(Pivot(7, 6)), None)]

  const INNER_LINKS: seq<Link> :=
    [Link(1, None, Some(Pivot(5, 2))), Link(2, Some(Pivot(5, 2)), Some(Pivot(7, 0))),
     Link(3, Some(Pivot(7, 0)), Some(Pivot(20, 4))), Link(4, Some(Pivot(20, 4)), None)]

  lemma TwoLinks(t: Page, lowKey: Separator)
    requires |t.items| == t.FirstData() + 2
    ensures var f := t.FirstData(); PageLinks(t, lowKey, f + 2) == [LinkAt(t, lowKey, f), LinkAt(t, lowKey, f + 1)]
  {
    var f := t.FirstData();
    assert PageLinks(t, lowKey, f) == [] && PageLinks(t, lowKey, f + 1) == [LinkAt(t, lowKey, f)];
  }

  lemma RootLinks()
    ensures LevelLinks([CousinStore()[7]], 1) == ROOT_LINKS
  {
    var t := CousinStore()[7];
    TwoLinks(t, None);
    assert LevelLinks([t], 0) == [];
  }

  lemma InnerLinks()
    ensures LevelLinks([CousinStore()[5], CousinStore()[6]], 2) == INNER_LINKS
  {
    var t, u := CousinStore()[5], CousinStore()[6];
    TwoLinks(t, None);
    TwoLinks(u, Some(Pivot(7, 0)));
    assert LevelLinks([t, u], 0) == [];
    assert LevelLinks([t, u], 1) == PageLinks(t, None, 3);
  }

  lemma RootWalked()
    ensures Walked(CousinStore(), 2, ROOT_LINKS)
  {
    var store, l, l' := CousinStore(), ROOT_LINKS[0], ROOT_LINKS[1];
    LeftEnds();
    assert PageFine(store, 2, l, 5, false, true) && PageFine(store, 2, l', 6, false, false);
    DirectStep(store, 2, [], l);
    DirectStep(store, 2, [] + [l], l');
    assert [] + [l] + [l'] == ROOT_LINKS;
    WalkedDirectly(store, 2, ROOT_LINKS);
  }

  lemma FirstArrival()
    ensures Arrived(CousinStore(), 1, -1, [], INNER_LINKS[0])
  {
    LeftEnds();
    assert PageFine(CousinStore(), 1, INNER_LINKS[0], 1, false, true);
    assert CanVisit(CousinStore(), 1, -1, [], INNER_LINKS[0]);
  }

  lemma SecondArrival()
    ensures Arrived(CousinStore(), 1, 1, [], INNER_LINKS[1])
  {
    assert PageFine(CousinStore(), 1, INNER_LINKS[1], 2, false, false);
    assert CanVisit(CousinStore(), 1, 1, [], INNER_LINKS[1]);
  }

  lemma LastArrivals()
    ensures Arrived(CousinStore(), 1, 2, [], INNER_LINKS[2]) && Arrived(CousinStore(), 1, 3, [], INNER_LINKS[3])
    ensures Arrived(CousinStore(), 1, 4, [], FINAL)
  {
    var store := CousinStore();
    assert PageFine(store, 1, INNER_LINKS[2], 3, false, false) && PageFine(store, 1, INNER_LINKS[3], 4, false, false);
  }

  lemma InnerWalked()
    ensures Walked(CousinStore(), 1, INNER_LINKS)
  {
    var store, ls := CousinStore(), INNER_LINKS;
    FirstArrival();
    SecondArrival();
    LastArrivals();
    DirectStep(store, 1, [], ls[0]);
    DirectStep(store, 1, [] + [ls[0]], ls[1]);
    DirectStep(store, 1, [] + [ls[0]] + [ls[1]], ls[2]);
    DirectStep(store, 1, [] + [ls[0]] + [ls[1]] + [ls[2]], ls[3]);
    assert [] + [ls[0]] + [ls[1]] + [ls[2]] + [ls[3]] == ls;
    WalkedDirectly(store, 1, ls);
  }

  // ---------------------------------------------------------------------------------------------
  // ... and the leaves are not in order

  lemma LeafKeys()
    ensures LevelKeys(CousinStore(), [1, 2, 3, 4]) == [[4, 1], [1, 1], [30, 1]]
  {
    var store := CousinStore();
    assert |RealKeys(store[1])| == 1 && RealKeys(store[1])[0] == [4, 1];
    assert |RealKeys(store[2])| == 0;
    assert |RealKeys(store[3])| == 1 && RealKeys(store[3])[0] == [1, 1];
    assert |RealKeys(store[4])| == 1 && RealKeys(store[4])[0] == [30, 1];
    assert [1, 2, 3, 4][1..] == [2, 3, 4] && [2, 3, 4][1..] == [3, 4] && [3, 4][1..] == [4] && [4][1..] == [];
    assert LevelKeys(store, [4]) == RealKeys(store[4]) + [];
    assert LevelKeys(store, [3, 4]) == RealKeys(store[3]) + LevelKeys(store, [4]);
    assert LevelKeys(store, [2, 3, 4]) == RealKeys(store[2]) + LevelKeys(store, [3, 4]);
    assert LevelKeys(store, [1, 2, 3, 4]) == RealKeys(store[1]) + LevelKeys(store, [2, 3, 4]);
  }

  lemma CousinParents()
    ensures ParentsOk(1, CousinStore(), [5, 6], 0) && |CousinStore()| <= INVALID_BLOCK
  {
    InnersOk();
    ChildrenOk();
  }

  lemma CousinLinks()
    requires ParentsOk(1, CousinStore(), [5, 6], 0)
    ensures LevelLinks(PagesAt(CousinStore(), [5, 6]), |[5, 6]|) == INNER_LINKS
    ensures INNER_LINKS != [] && CousinLevel(1, 0).leftmost == INNER_LINKS[0].down && NoZeroDownlink(INNER_LINKS)
  {
    assert PagesAt(CousinStore(), [5, 6]) == [CousinStore()[5], CousinStore()[6]];
    InnerLinks();
  }

  lemma CousinVerdict()
    ensures forall b: nat :: CousinLevel(1, 0).pageOk(b) ==> PageOk(1, CousinStore(), b, 0)
  {
  }

  /** The two lower levels as the check leaves them. */
  lemma CousinsAccepted() returns (x: TwoLevels)
    ensures BothAccepted(x) && x.store == CousinStore() && x.blocks == [5, 6] && x.walk == [1, 2, 3, 4]
  {
    CousinParents();
    CousinLinks();
    CousinVerdict();
    LeavesCompleted();
    InnerWalked();
    x := AcceptedBoth(1, CousinStore(), 0, 1, [5, 6], INNER_LINKS, CousinLevel(1, 0), [1, 2, 3, 4]);
  }

  /** The two upper levels, and the lockstep between them. */
  lemma UpperLevelsAccepted()
    ensures Completed(CousinStore(), CousinLevel(7, 2), [7]) && Completed(CousinStore(), CousinLevel(5, 1), [5, 6])
    ensures Walked(CousinStore(), 2, LevelLinks([CousinStore()[7]], 1))
    ensures ChildrenChecked(CousinStore(), CousinStore()[7])
  {
    RootCompleted();
    InnersCompleted();
    RootLinks();
    RootWalked();
    ChildrenOk();
  }

  lemma LeavesOutOfOrder()
    ensures LevelKeys(CousinStore(), [1, 2, 3, 4]) == [[4, 1], [1, 1], [30, 1]]
    ensures !Increasing(LevelKeys(CousinStore(), [1, 2, 3, 4]))
    ensures forall b :: 1 <= b <= 7 ==> !CousinStore()[b].incompleteSplit
  {
    LeafKeys();
    assert !LexLess([4, 1], [1, 1]);
    assert LevelKeys(CousinStore(), [1, 2, 3, 4])[0] == [4, 1] && LevelKeys(CousinStore(), [1, 2, 3, 4])[1] == [1, 1];
  }

  /**
   * The lower levels of an index that is accepted in full (see UpperLevelsAccepted), no split under way. The
   * calls of the lockstep arrive, every page passes, and key 4 precedes key 1.
   */
  lemma CousinsHideDisorder() returns (x: TwoLevels)
    ensures BothAccepted(x) && x.store == CousinStore() && x.blocks == [5, 6] && x.walk == [1, 2, 3, 4]
    ensures LevelKeys(CousinStore(), [1, 2, 3, 4]) == [[4, 1], [1, 1], [30, 1]]
    ensures !Increasing(LevelKeys(CousinStore(), [1, 2, 3, 4]))
    ensures forall b :: 1 <= b <= 7 ==> !CousinStore()[b].incompleteSplit
  {
    LeavesOutOfOrder();
    x := CousinsAccepted();
  }
}
