/**
 * Following sibling links over a store that may be corrupt in any way, under the heavyweight lock
 * that keeps it still: the leftward search for the left end of a level, and the left-to-right walk
 * of bt_check_level_from_leftmost.
 */
module NbtWalk {
  import opened NbtPages
  import opened Pigeonhole

  // ---------------------------------------------------------------------------------------------
  // bt_leftmost_ignoring_half_dead

  datatype Outcome = Raised | Returned(value: bool)

  /** chain starts at the left sibling of start; each page is half-dead and links back. */
  ghost predicate LinkedBack(store: Store, start: nat, chain: seq<nat>)
    requires start < |store|
  {
    && (forall i :: 0 <= i < |chain| ==> Readable(store, chain[i]) && store[chain[i]].halfDead && chain[i] != start)
    && (chain != [] ==> chain[0] == store[start].prev && store[chain[0]].next == start)
    && (forall i :: 0 < i < |chain| ==> chain[i] == store[chain[i - 1]].prev && store[chain[i]].next == chain[i - 1])
  }

  /** The left link of the last page of the chain, or of start. */
  function Reached(store: Store, start: nat, chain: seq<nat>): nat
    requires start < |store| && (chain != [] ==> chain[|chain| - 1] < |store|)
  {
    if chain == [] then store[start].prev else store[chain[|chain| - 1]].prev
  }

  /** A chain of half-dead pages, linked both ways, leads from start to the end of the level. */
  ghost predicate LeftmostButHalfDead(store: Store, start: nat)
    requires start < |store|
  {
    exists chain :: LinkedBack(store, start, chain) && Reached(store, start, chain) == P_NONE
  }

  /** Linked-back chains visit no block twice, so the store bounds their length. */
  lemma ChainDistinct(store: Store, start: nat, chain: seq<nat>)
    requires start < |store| && LinkedBack(store, start, chain)
    ensures Distinct(chain) && |chain| <= |store|
  {
    forall i, j | 0 <= i < j < |chain| ensures chain[i] != chain[j] { ChainDistinctAt(store, start, chain, i, j); }
    DistinctBound(chain, |store|);
  }

  lemma {:induction false} ChainDistinctAt(store: Store, start: nat, chain: seq<nat>, i: nat, j: nat)
    requires start < |store| && LinkedBack(store, start, chain) && i < j < |chain|
    ensures chain[i] != chain[j]
  {
    assert store[chain[j]].next == chain[j - 1] && chain[j - 1] != start;
    if i > 0 {
      ChainDistinctAt(store, start, chain, i - 1, j - 1);
      assert store[chain[i]].next == chain[i - 1];
    }
  }

  /** All linked-back chains from one start are prefixes of each other. */
  lemma {:induction false} ChainsAgree(store: Store, start: nat, a: seq<nat>, b: seq<nat>, i: nat)
    requires start < |store| && LinkedBack(store, start, a) && LinkedBack(store, start, b)
    requires i < |a| && i < |b|
    ensures a[i] == b[i]
  {
    if i > 0 { ChainsAgree(store, start, a, b, i - 1); }
  }

  /** One more page joins the chain exactly if it is readable, half-dead, not start, and links back. */
  lemma ChainGrows(store: Store, start: nat, chain: seq<nat>)
    requires start < |store| && LinkedBack(store, start, chain)
    ensures var r, from := Reached(store, start, chain), if chain == [] then start else chain[|chain| - 1];
            LinkedBack(store, start, chain + [r])
            <==> Readable(store, r) && store[r].halfDead && r != start && store[r].next == from
  {
    var r := Reached(store, start, chain);
    var longer := chain + [r];
    assert longer[|chain|] == r && longer[..|chain|] == chain;
    assert LinkedBack(store, start, longer) ==> Readable(store, longer[|chain|]);
    assert LinkedBack(store, start, longer) && chain != [] ==> store[longer[|chain|]].next == longer[|chain| - 1];
  }

  /** The guard reached != reached_from never decides: a page that joins differs from its neighbour. */
  lemma NeverTurnsBack(store: Store, start: nat, chain: seq<nat>)
    requires start < |store| && LinkedBack(store, start, chain)
    requires LinkedBack(store, start, chain + [Reached(store, start, chain)])
    ensures Reached(store, start, chain) != if chain == [] then start else chain[|chain| - 1]
  {
    var longer := chain + [Reached(store, start, chain)];
    assert longer[|chain|] == Reached(store, start, chain);
    ChainDistinct(store, start, longer);
    assert chain != [] ==> longer[|chain| - 1] == chain[|chain| - 1];
  }

  lemma LongerChainContinues(store: Store, start: nat, chain: seq<nat>, other: seq<nat>)
    requires start < |store| && LinkedBack(store, start, chain) && LinkedBack(store, start, other)
    requires |chain| < |other|
    ensures LinkedBack(store, start, chain + [Reached(store, start, chain)])
  {
    forall i | 0 <= i < |chain| ensures other[i] == chain[i] { ChainsAgree(store, start, other, chain, i); }
    assert other[..|chain| + 1] == chain + [Reached(store, start, chain)];
  }

  /** Every chain that reaches an end, readable or not, is the one that cannot be continued. */
  lemma OneEnd(store: Store, start: nat, chain: seq<nat>, other: seq<nat>)
    requires start < |store| && LinkedBack(store, start, chain) && LinkedBack(store, start, other)
    requires !LinkedBack(store, start, chain + [Reached(store, start, chain)])
    requires !Readable(store, Reached(store, start, other))
    ensures Reached(store, start, other) == Reached(store, start, chain)
  {
    if |other| > |chain| {
      LongerChainContinues(store, start, chain, other);
    } else if |other| < |chain| {
      ChainGrows(store, start, other);
      LongerChainContinues(store, start, other, chain);
    } else {
      forall i | 0 <= i < |other| ensures other[i] == chain[i] { ChainsAgree(store, start, other, chain, i); }
      assert other == chain;
    }
  }

  /** Some chain ends at a block that the walk would try to read and cannot. */
  ghost predicate MeetsUnreadable(store: Store, start: nat)
    requires start < |store|
  {
    exists chain :: LinkedBack(store, start, chain)
      && Reached(store, start, chain) != P_NONE && !Readable(store, Reached(store, start, chain))
  }

  lemma EndDecides(store: Store, start: nat, chain: seq<nat>)
    requires start < |store| && LinkedBack(store, start, chain)
    requires !LinkedBack(store, start, chain + [Reached(store, start, chain)])
    ensures LeftmostButHalfDead(store, start) <==> Reached(store, start, chain) == P_NONE
    ensures var r := Reached(store, start, chain);
            MeetsUnreadable(store, start) <==> r != P_NONE && !Readable(store, r)
  {
    forall other | LinkedBack(store, start, other) && !Readable(store, Reached(store, start, other))
      ensures Reached(store, start, other) == Reached(store, start, chain)
    {
      OneEnd(store, start, chain, other);
    }
  }

  /** It ends on every store; true means exactly that nothing but half-dead pages lies to the left. */
  method LeftmostIgnoringHalfDead(store: Store, start: nat) returns (r: Outcome)
    requires Readable(store, start)
    ensures r == Returned(true) <==> LeftmostButHalfDead(store, start)
    ensures r.Raised? <==> MeetsUnreadable(store, start)
  {
    var reached, reachedFrom, allHalfDead := store[start].prev, start, true;
    ghost var chain: seq<nat> := [];
    while reached != P_NONE && allHalfDead
      invariant LinkedBack(store, start, chain)
      invariant reached == Reached(store, start, chain)
      invariant reachedFrom == if chain == [] then start else chain[|chain| - 1]
      invariant !allHalfDead ==> Readable(store, reached) && !LinkedBack(store, start, chain + [reached])
      decreases |store| - |chain|, allHalfDead
    {
      ChainGrows(store, start, chain);
      if !Readable(store, reached) {
        EndDecides(store, start, chain);
        return Raised;
      }
      var p := store[reached];
      if LinkedBack(store, start, chain + [reached]) { NeverTurnsBack(store, start, chain); }
      allHalfDead := p.halfDead && reached != start && reached != reachedFrom && p.next == reachedFrom;
      if allHalfDead {
        chain := chain + [reached];
        ChainDistinct(store, start, chain);
        reachedFrom, reached := reached, p.prev;
      }
    }
    ChainGrows(store, start, chain);
    EndDecides(store, start, chain);
    return Returned(allHalfDead);
  }

  // ---------------------------------------------------------------------------------------------
  // bt_check_level_from_leftmost, read-only

  /** What the walk of one level is given: where to start, what it expects, and the verdict on each page. */
  datatype Level = Level(leftmost: nat, level: nat, trueRoot: bool, pageOk: nat -> bool)

  /** Between two iterations: the block just left, the block to visit, and whether a live page was seen. */
  datatype Place = Place(left: nat, current: nat, found: bool)

  datatype Visit = Error | Done | Next(place: Place)

  /** The downlink of the first data item. */
  function FirstDownlink(p: Page): nat
    requires |p.items| > p.FirstData()
  {
    p.items[p.FirstData()].downlink
  }

  /** The checks on a live page, given whether it is the first one. */
  ghost predicate LiveOk(store: Store, lv: Level, w: Place)
    requires w.current < |store|
  {
    var p := store[w.current];
    && (!w.found ==> LeftmostButHalfDead(store, w.current)
                     && (lv.trueRoot ==> p.root || p.incompleteSplit))
    && (w.left != P_NONE ==> p.prev == w.left)
    && lv.level == p.level
    && lv.pageOk(w.current)
  }

  /** One iteration. */
  ghost function VisitPage(store: Store, lv: Level, w: Place): Visit {
    if !Readable(store, w.current) then Error
    else
      var p := store[w.current];
      if p.Ignorable() && (p.deleted || p.Rightmost()) then Error
      else if !p.Ignorable() && !LiveOk(store, lv, w) then Error
      else if w.current == w.left || w.current == p.prev then Error
      else if p.Rightmost() then Done
      else
        var found := w.found || (!p.Ignorable() && (p.leaf || FirstDownlink(p) != INVALID_BLOCK));
        Next(Place(w.current, p.next, found))
  }

  datatype Progress = Stopped | At(place: Place)

  /** Where the walk is after n iterations. */
  ghost function WalkAt(store: Store, lv: Level, n: nat): Progress {
    if n == 0 then At(Place(P_NONE, lv.leftmost, false))
    else
      match WalkAt(store, lv, n - 1)
      case Stopped => Stopped
      case At(w) =>
        match VisitPage(store, lv, w)
        case Next(w') => At(w')
        case _ => Stopped
  }

  ghost predicate Running(store: Store, lv: Level, n: nat) { WalkAt(store, lv, n).At? }

  ghost predicate RunsForever(store: Store, lv: Level) { forall n: nat :: Running(store, lv, n) }

  ghost function BlockAt(store: Store, lv: Level, n: nat): nat
    requires Running(store, lv, n)
  {
    WalkAt(store, lv, n).place.current
  }

  /** What the visit after n moves comes to. */
  ghost function LastVisit(store: Store, lv: Level, n: nat): Visit
    requires Running(store, lv, n)
  {
    VisitPage(store, lv, WalkAt(store, lv, n).place)
  }

  lemma {:induction false} RanBefore(store: Store, lv: Level, m: nat, n: nat)
    requires m <= n && Running(store, lv, n)
    ensures Running(store, lv, m)
    decreases n
  {
    if m < n { RanBefore(store, lv, m, n - 1); }
  }

  /** A page that was passed: what its visit established. */
  lemma Passed(store: Store, lv: Level, n: nat)
    requires Running(store, lv, n + 1)
    ensures Running(store, lv, n)
    ensures var w, b := WalkAt(store, lv, n + 1).place, BlockAt(store, lv, n);
            && Readable(store, b) && !store[b].deleted
            && w.left == b && w.current == store[b].next && w.current != P_NONE && store[b].prev != b
            && WalkAt(store, lv, n).place.left != b
            && (!store[b].halfDead ==> LiveOk(store, lv, WalkAt(store, lv, n).place))
  {
    RanBefore(store, lv, n, n + 1);
  }

  datatype LevelOutcome = OutOfBudget | Rejected(at: nat) | Finished(moves: nat)

  /** The walk itself; budget is the number of iterations after which an interrupt is taken. */
  method CheckLevel(store: Store, lv: Level, budget: nat) returns (r: LevelOutcome)
    ensures r.OutOfBudget? ==> Running(store, lv, budget)
    ensures r.Rejected? ==> r.at < budget && Running(store, lv, r.at) && LastVisit(store, lv, r.at).Error?
    ensures r.Finished? ==> r.moves < budget && Running(store, lv, r.moves) && LastVisit(store, lv, r.moves).Done?
    ensures r.Finished? ==> exists trail: seq<nat> :: |trail| == r.moves + 1 && Completed(store, lv, trail)
  {
    var leftcurrent, current, found := P_NONE, lv.leftmost, false;
    for n := 0 to budget
      invariant WalkAt(store, lv, n) == At(Place(leftcurrent, current, found))
    {
      if !Readable(store, current) { return Rejected(n); }
      var p := store[current];
      if p.Ignorable() {
        if p.deleted || p.Rightmost() { return Rejected(n); }
      } else {
        if !found {
          var leftmost := LeftmostIgnoringHalfDead(store, current);
          if leftmost != Returned(true) { return Rejected(n); }
          if lv.trueRoot && !p.root && !p.incompleteSplit { return Rejected(n); }
          found := p.leaf || FirstDownlink(p) != INVALID_BLOCK;
        }
        if leftcurrent != P_NONE && p.prev != leftcurrent { return Rejected(n); }
        if lv.level != p.level || !lv.pageOk(current) { return Rejected(n); }
      }
      if current == leftcurrent || current == p.prev { return Rejected(n); }
      if p.Rightmost() {
        ghost var trail := FinishedIsCompleted(store, lv, n);
        return Finished(n);
      }
      leftcurrent, current := current, p.next;
    }
    return OutOfBudget;
  }

  ghost predicate HalfDeadAt(store: Store, lv: Level, n: nat) {
    Running(store, lv, n) && BlockAt(store, lv, n) < |store| && store[BlockAt(store, lv, n)].halfDead
  }

  /** A live page that was passed links back to the page before it, or to nothing but half-dead pages. */
  lemma LinksBack(store: Store, lv: Level, n: nat)
    requires Running(store, lv, n) && Running(store, lv, n + 1) && !HalfDeadAt(store, lv, n)
    ensures BlockAt(store, lv, n) < |store|
    ensures var prev := store[BlockAt(store, lv, n)].prev;
            if n > 0 then Running(store, lv, n - 1) && prev == BlockAt(store, lv, n - 1)
            else prev == P_NONE || (prev < |store| && store[prev].halfDead)
  {
    Passed(store, lv, n);
    if n > 0 { Passed(store, lv, n - 1); }
  }

  /** Coming back to a live page means having come back to the page before it. */
  lemma StepBack(store: Store, lv: Level, i: nat, j: nat)
    requires i < j && Running(store, lv, i) && Running(store, lv, i + 1)
    requires Running(store, lv, j) && Running(store, lv, j + 1)
    requires !HalfDeadAt(store, lv, i) && BlockAt(store, lv, i) == BlockAt(store, lv, j)
    ensures Running(store, lv, j - 1)
    ensures if i > 0 then Running(store, lv, i - 1) && BlockAt(store, lv, i - 1) == BlockAt(store, lv, j - 1)
            else HalfDeadAt(store, lv, j - 1)
  {
    LinksBack(store, lv, i);
    LinksBack(store, lv, j);
    Passed(store, lv, j - 1);
  }

  /** While the walk passes only live pages it comes back to none of them. */
  lemma {:induction false} LiveStretchDoesNotRepeat(store: Store, lv: Level, i: nat, j: nat)
    requires i < j && Running(store, lv, j + 1) && Running(store, lv, i) && Running(store, lv, j)
    requires forall m :: i <= m < j ==> !HalfDeadAt(store, lv, m)
    ensures BlockAt(store, lv, i) != BlockAt(store, lv, j)
  {
    RanBefore(store, lv, i + 1, j + 1);
    if BlockAt(store, lv, i) == BlockAt(store, lv, j) {
      StepBack(store, lv, i, j);
      assert !HalfDeadAt(store, lv, j - 1);
      if i > 0 { LiveStretchDoesNotRepeat(store, lv, i - 1, j - 1); }
    }
  }

  /** A walk that meets no half-dead page visits no block twice, so it ends within the store's size. */
  lemma WalkEndsWithoutHalfDead(store: Store, lv: Level, n: nat)
    requires Running(store, lv, n) && forall m :: 0 <= m < n ==> !HalfDeadAt(store, lv, m)
    ensures forall i, j :: 0 <= i < j < n ==>
              Running(store, lv, i) && Running(store, lv, j) && BlockAt(store, lv, i) != BlockAt(store, lv, j)
    ensures n <= |store|
  {
    forall i | 0 <= i < n ensures Running(store, lv, i) && BlockAt(store, lv, i) < |store| {
      RanBefore(store, lv, i + 1, n);
      Passed(store, lv, i);
    }
    forall i, j | 0 <= i < j < n ensures BlockAt(store, lv, i) != BlockAt(store, lv, j) {
      RanBefore(store, lv, j + 1, n);
      LiveStretchDoesNotRepeat(store, lv, i, j);
    }
    var trail := seq(n, m requires 0 <= m < n => BlockAt(store, lv, m));
    DistinctBound(trail, |store|);
  }

  // ---------------------------------------------------------------------------------------------
  // Exactly when the walk never ends

  /** From the same two blocks, having found a live page already can only make a visit easier to pass. */
  lemma VisitMonotone(store: Store, lv: Level, w: Place, v: Place)
    requires w.left == v.left && w.current == v.current && (w.found ==> v.found)
    requires VisitPage(store, lv, w).Next?
    ensures VisitPage(store, lv, v).Next?
    ensures var w', v' := VisitPage(store, lv, w).place, VisitPage(store, lv, v).place;
            w'.left == v'.left && w'.current == v'.current && (w'.found ==> v'.found)
  {
  }

  lemma {:induction false} FoundStays(store: Store, lv: Level, m: nat, n: nat)
    requires m <= n && Running(store, lv, m) && Running(store, lv, n) && WalkAt(store, lv, m).place.found
    ensures WalkAt(store, lv, n).place.found
    decreases n
  {
    if m < n {
      RanBefore(store, lv, n - 1, n);
      FoundStays(store, lv, m, n - 1);
    }
  }

  /** The two places differ at most in that the second knows of a live page. */
  predicate Alike(w: Progress, v: Progress) {
    && w.At? && v.At? && w.place.left == v.place.left && w.place.current == v.place.current
    && (w.place.found ==> v.place.found)
  }

  lemma RepeatsOnce(store: Store, lv: Level, i: nat, j: nat)
    requires i < j && Running(store, lv, i + 1) && Running(store, lv, j + 1)
    requires Running(store, lv, i) && Running(store, lv, j) && BlockAt(store, lv, i) == BlockAt(store, lv, j)
    ensures Alike(WalkAt(store, lv, i + 1), WalkAt(store, lv, j + 1))
  {
    Passed(store, lv, i);
    Passed(store, lv, j);
    if WalkAt(store, lv, i + 1).place.found { FoundStays(store, lv, i + 1, j + 1); }
  }

  lemma AlikeStep(store: Store, lv: Level, i: nat, j: nat)
    requires Running(store, lv, i) && Running(store, lv, i + 1) && Alike(WalkAt(store, lv, i), WalkAt(store, lv, j))
    ensures Alike(WalkAt(store, lv, i + 1), WalkAt(store, lv, j + 1))
  {
    VisitMonotone(store, lv, WalkAt(store, lv, i).place, WalkAt(store, lv, j).place);
  }

  lemma {:induction false} StaysAlike(store: Store, lv: Level, i: nat, j: nat, k: nat)
    requires Alike(WalkAt(store, lv, i), WalkAt(store, lv, j)) && Running(store, lv, i + k)
    ensures Alike(WalkAt(store, lv, i + k), WalkAt(store, lv, j + k))
  {
    if k > 0 {
      RanBefore(store, lv, i + (k - 1), i + k);
      StaysAlike(store, lv, i, j, k - 1);
      AlikeStep(store, lv, i + (k - 1), j + (k - 1));
    }
  }

  /** Back at a block, the walk repeats what it did after the first time. */
  lemma Repeats(store: Store, lv: Level, i: nat, j: nat, k: nat)
    requires i < j && Running(store, lv, i + 1 + k) && Running(store, lv, j + 1)
    requires Running(store, lv, i) && Running(store, lv, j) && BlockAt(store, lv, i) == BlockAt(store, lv, j)
    ensures Alike(WalkAt(store, lv, i + 1 + k), WalkAt(store, lv, j + 1 + k))
  {
    RanBefore(store, lv, i + 1, i + 1 + k);
    RepeatsOnce(store, lv, i, j);
    StaysAlike(store, lv, i + 1, j + 1, k);
  }

  lemma {:induction false} LoopRunsOn(store: Store, lv: Level, i: nat, j: nat, n: nat)
    requires i < j && Running(store, lv, j + 1)
    requires Running(store, lv, i) && Running(store, lv, j) && BlockAt(store, lv, i) == BlockAt(store, lv, j)
    ensures Running(store, lv, n)
    decreases n
  {
    if n <= j + 1 {
      RanBefore(store, lv, n, j + 1);
    } else {
      var k := n - (j + 1);
      LoopRunsOn(store, lv, i, j, i + 1 + k);
      Repeats(store, lv, i, j, k);
    }
  }

  /** A half-dead page met twice, not as its own right sibling, is passed a second time. */
  lemma HalfDeadPassedAgain(store: Store, lv: Level, i: nat, j: nat)
    requires i + 1 < j && Running(store, lv, j) && HalfDeadAt(store, lv, i)
    requires BlockAt(store, lv, i) == BlockAt(store, lv, j)
    ensures Running(store, lv, j + 1)
  {
    RanBefore(store, lv, i + 1, j);
    RanBefore(store, lv, i + 2, j);
    Passed(store, lv, i);
    Passed(store, lv, i + 1);
    Passed(store, lv, j - 1);
    var b := BlockAt(store, lv, j);
    assert store[b].halfDead && !store[b].Rightmost() && store[b].next != b;
    assert WalkAt(store, lv, j).place.left != b;
  }

  /** Some half-dead page is met twice, with another page in between. */
  ghost predicate MeetsHalfDeadTwice(store: Store, lv: Level) {
    exists i: nat, j: nat :: i + 1 < j && HalfDeadAt(store, lv, i) && Running(store, lv, j)
                             && BlockAt(store, lv, i) == BlockAt(store, lv, j)
  }

  lemma ForeverRepeats(store: Store, lv: Level) returns (i: nat, j: nat)
    requires RunsForever(store, lv)
    ensures i < j && Running(store, lv, i) && Running(store, lv, j) && BlockAt(store, lv, i) == BlockAt(store, lv, j)
  {
    var n := |store| + 1;
    forall m | 0 <= m < n ensures Running(store, lv, m) && BlockAt(store, lv, m) < |store| {
      assert Running(store, lv, m + 1);
      Passed(store, lv, m);
    }
    var trail := seq(n, m requires 0 <= m < n => BlockAt(store, lv, m));
    assert !Distinct(trail) by {
      if Distinct(trail) { DistinctBound(trail, |store|); }
    }
    i, j :| 0 <= i < j < n && trail[i] == trail[j];
  }

  /** Any loop passes a half-dead page, and does not go from a page straight to itself. */
  lemma LoopHasHalfDead(store: Store, lv: Level, i: nat, j: nat) returns (m: nat)
    requires i < j && Running(store, lv, i) && Running(store, lv, j) && Running(store, lv, j + 1)
    requires Running(store, lv, i + 1) && Running(store, lv, i + 2)
    requires BlockAt(store, lv, i) == BlockAt(store, lv, j)
    ensures i + 1 < j && i <= m < j && HalfDeadAt(store, lv, m)
  {
    Passed(store, lv, i);
    Passed(store, lv, i + 1);
    if forall k :: i <= k < j ==> !HalfDeadAt(store, lv, k) {
      LiveStretchDoesNotRepeat(store, lv, i, j);
    }
    m :| i <= m < j && HalfDeadAt(store, lv, m);
  }

  lemma MetAgain(store: Store, lv: Level, i: nat, j: nat, m: nat)
    requires i <= m < j && Running(store, lv, i) && Running(store, lv, m)
    requires Running(store, lv, j) && Running(store, lv, j + 1) && BlockAt(store, lv, i) == BlockAt(store, lv, j)
    ensures Running(store, lv, m + (j - i)) && BlockAt(store, lv, m) == BlockAt(store, lv, m + (j - i))
  {
    if m > i {
      var k := m - i - 1;
      assert i + 1 + k == m && j + 1 + k == m + (j - i);
      Repeats(store, lv, i, j, k);
    }
  }

  lemma ForeverMeetsTwice(store: Store, lv: Level)
    requires RunsForever(store, lv)
    ensures MeetsHalfDeadTwice(store, lv)
  {
    var i, j := ForeverRepeats(store, lv);
    assert Running(store, lv, i + 1) && Running(store, lv, i + 2) && Running(store, lv, j + 1);
    var m := LoopHasHalfDead(store, lv, i, j);
    MetAgain(store, lv, i, j, m);
  }

  /** The walk never ends exactly if it meets a half-dead page twice, with another page in between. */
  lemma ForeverExactly(store: Store, lv: Level)
    ensures RunsForever(store, lv) <==> MeetsHalfDeadTwice(store, lv)
  {
    if MeetsHalfDeadTwice(store, lv) {
      var i: nat, j: nat :| i + 1 < j && HalfDeadAt(store, lv, i) && Running(store, lv, j)
                            && BlockAt(store, lv, i) == BlockAt(store, lv, j);
      HalfDeadPassedAgain(store, lv, i, j);
      forall n: nat ensures Running(store, lv, n) { LoopRunsOn(store, lv, i, j, n); }
    }
    if RunsForever(store, lv) { ForeverMeetsTwice(store, lv); }
  }

  // ---------------------------------------------------------------------------------------------
  // ... said of the store

  /** A live page from which the level below can be found. */
  predicate Settles(p: Page) {
    !p.Ignorable() && (p.leaf || (|p.items| > p.FirstData() && FirstDownlink(p) != INVALID_BLOCK))
  }

  /** No page of the path before index i settles where the next level starts. */
  predicate Unsettled(store: Store, path: seq<nat>, i: nat)
    requires i <= |path|
  {
    forall j :: 0 <= j < i ==> path[j] < |store| ==> !Settles(store[path[j]])
  }

  /** Nothing is wrong with the block at index i of a path of right links. */
  ghost predicate PageGood(store: Store, lv: Level, path: seq<nat>, i: nat)
    requires i < |path|
  {
    && Readable(store, path[i])
    && var p := store[path[i]];
       && !p.deleted && p.prev != path[i] && (i > 0 ==> path[i - 1] != path[i])
       && (p.halfDead ==> !p.Rightmost())
       && (!p.halfDead ==>
             && lv.level == p.level && lv.pageOk(path[i]) && (i > 0 ==> p.prev == path[i - 1])
             && (Unsettled(store, path, i) ==>
                   LeftmostButHalfDead(store, path[i]) && (lv.trueRoot ==> p.root || p.incompleteSplit)))
  }

  /** The walk passes the block and goes on to the right. */
  ghost predicate Passable(store: Store, lv: Level, path: seq<nat>, i: nat)
    requires i < |path|
  {
    PageGood(store, lv, path, i) && !store[path[i]].Rightmost()
  }

  /** path[i] is what the right link of the block before it names. */
  predicate LinkedRight(store: Store, path: seq<nat>, i: nat)
    requires 0 < i < |path|
  {
    path[i - 1] < |store| && path[i] == store[path[i - 1]].next
  }

  /**
   * From the leftmost block, right links over passable pages lead to a half-dead page and, over at least one
   * other page, back to it.
   */
  ghost predicate Lasso(store: Store, lv: Level, path: seq<nat>, s: nat) {
    && s + 2 < |path| && path[0] == lv.leftmost && path[|path| - 1] == path[s]
    && path[s] < |store| && store[path[s]].halfDead
    && (forall i :: 0 < i < |path| ==> LinkedRight(store, path, i))
    && (forall i :: 0 <= i < |path| - 1 ==> Passable(store, lv, path, i))
  }

  /** The walk follows a passable path. */
  lemma {:induction false} WalkFollows(store: Store, lv: Level, path: seq<nat>, n: nat)
    requires path != [] && n < |path| && path[0] == lv.leftmost
    requires forall i :: 0 < i < |path| ==> LinkedRight(store, path, i)
    requires forall i :: 0 <= i < n ==> Passable(store, lv, path, i)
    ensures var left := if n == 0 then P_NONE else path[n - 1];
            WalkAt(store, lv, n) == At(Place(left, path[n], !Unsettled(store, path, n)))
  {
    if n > 0 {
      WalkFollows(store, lv, path, n - 1);
      assert Passable(store, lv, path, n - 1) && LinkedRight(store, path, n);
      if n > 1 { assert Passable(store, lv, path, n - 2); }
      UnsettledStep(store, path, n - 1);
    }
  }

  ghost predicate VisitedAt(store: Store, lv: Level, path: seq<nat>, k: nat)
    requires k < |path|
  {
    Running(store, lv, k) && path[k] == BlockAt(store, lv, k)
  }

  /** The blocks of a run, in order. */
  ghost predicate IsRun(store: Store, lv: Level, path: seq<nat>) {
    path != [] && Running(store, lv, |path| - 1) && forall k: nat :: k < |path| ==> VisitedAt(store, lv, path, k)
  }

  lemma {:induction false} BlocksRun(store: Store, lv: Level, n: nat) returns (path: seq<nat>)
    requires Running(store, lv, n)
    ensures |path| == n + 1 && IsRun(store, lv, path)
  {
    if n == 0 {
      path := [BlockAt(store, lv, 0)];
    } else {
      RanBefore(store, lv, n - 1, n);
      var before := BlocksRun(store, lv, n - 1);
      path := before + [BlockAt(store, lv, n)];
      forall k: nat | k < n ensures VisitedAt(store, lv, path, k) { assert VisitedAt(store, lv, before, k); }
    }
  }

  /** One visit: what it makes of the page, and whether a live page has been found after it. */
  lemma FoundStep(store: Store, lv: Level, n: nat)
    requires Running(store, lv, n) && Running(store, lv, n + 1)
    ensures BlockAt(store, lv, n) < |store|
    ensures WalkAt(store, lv, n + 1).place.found <==>
            WalkAt(store, lv, n).place.found || Settles(store[BlockAt(store, lv, n)])
  {
  }

  lemma UnsettledStep(store: Store, path: seq<nat>, i: nat)
    requires i < |path| && path[i] < |store|
    ensures Unsettled(store, path, i + 1) <==> Unsettled(store, path, i) && !Settles(store[path[i]])
  {
  }

  /** The walk has found a live page exactly if one of the blocks before settles. */
  lemma {:induction false} FoundIsSettled(store: Store, lv: Level, path: seq<nat>, i: nat)
    requires IsRun(store, lv, path) && i < |path|
    ensures Running(store, lv, i) && (!WalkAt(store, lv, i).place.found <==> Unsettled(store, path, i))
  {
    assert VisitedAt(store, lv, path, i);
    if i > 0 {
      FoundIsSettled(store, lv, path, i - 1);
      assert VisitedAt(store, lv, path, i - 1);
      FoundStep(store, lv, i - 1);
      UnsettledStep(store, path, i - 1);
    }
  }

  /** A page that was passed, with the block before it. */
  lemma LeftOf(store: Store, lv: Level, n: nat)
    requires Running(store, lv, n + 1)
    ensures Running(store, lv, n) && BlockAt(store, lv, n) < |store|
    ensures var b, w := BlockAt(store, lv, n), WalkAt(store, lv, n).place;
            && Readable(store, b) && !store[b].deleted && store[b].prev != b && !store[b].Rightmost()
            && BlockAt(store, lv, n + 1) == store[b].next
            && (n > 0 ==> Running(store, lv, n - 1) && w.left == BlockAt(store, lv, n - 1) != b && w.left != P_NONE)
            && (!store[b].halfDead ==> LiveOk(store, lv, w))
  {
    Passed(store, lv, n);
    if n > 0 { Passed(store, lv, n - 1); }
  }

  lemma PassableIf(store: Store, lv: Level, path: seq<nat>, i: nat, w: Place)
    requires i < |path| && path[i] == w.current && Readable(store, w.current)
    requires (!w.found <==> Unsettled(store, path, i))
    requires i > 0 ==> w.left == path[i - 1] != w.current && w.left != P_NONE
    requires !store[w.current].deleted && !store[w.current].Rightmost() && store[w.current].prev != w.current
    requires !store[w.current].halfDead ==> LiveOk(store, lv, w)
    ensures Passable(store, lv, path, i)
  {
  }

  /** Where the walk passed, the path is passable. */
  lemma RunIsPassable(store: Store, lv: Level, path: seq<nat>, i: nat)
    requires IsRun(store, lv, path) && i + 1 < |path|
    ensures Passable(store, lv, path, i)
  {
    assert VisitedAt(store, lv, path, i + 1) && VisitedAt(store, lv, path, i);
    LeftOf(store, lv, i);
    FoundIsSettled(store, lv, path, i);
    if i > 0 { assert VisitedAt(store, lv, path, i - 1); }
    PassableIf(store, lv, path, i, WalkAt(store, lv, i).place);
  }

  lemma RunIsLinked(store: Store, lv: Level, path: seq<nat>, i: nat)
    requires IsRun(store, lv, path) && 0 < i < |path|
    ensures LinkedRight(store, path, i)
  {
    assert VisitedAt(store, lv, path, i) && VisitedAt(store, lv, path, i - 1);
    LeftOf(store, lv, i - 1);
  }

  lemma LassoRuns(store: Store, lv: Level, path: seq<nat>, s: nat)
    requires Lasso(store, lv, path, s)
    ensures MeetsHalfDeadTwice(store, lv)
  {
    var n := |path| - 1;
    WalkFollows(store, lv, path, s);
    WalkFollows(store, lv, path, n);
    assert HalfDeadAt(store, lv, s) && Running(store, lv, n) && BlockAt(store, lv, s) == BlockAt(store, lv, n);
  }

  lemma RunIsLasso(store: Store, lv: Level, i: nat, j: nat) returns (path: seq<nat>)
    requires i + 1 < j && HalfDeadAt(store, lv, i) && Running(store, lv, j)
    requires BlockAt(store, lv, i) == BlockAt(store, lv, j)
    ensures Lasso(store, lv, path, i)
  {
    path := BlocksRun(store, lv, j);
    forall k | 0 <= k < |path| - 1 ensures Passable(store, lv, path, k) { RunIsPassable(store, lv, path, k); }
    forall k | 0 < k < |path| ensures LinkedRight(store, path, k) { RunIsLinked(store, lv, path, k); }
    assert VisitedAt(store, lv, path, 0) && VisitedAt(store, lv, path, i) && VisitedAt(store, lv, path, j);
  }

  /** The walk never ends exactly if the store has a lasso at the leftmost block. */
  lemma ForeverIsLasso(store: Store, lv: Level)
    ensures RunsForever(store, lv) <==> exists path: seq<nat>, s: nat :: Lasso(store, lv, path, s)
  {
    ForeverExactly(store, lv);
    if path: seq<nat>, s: nat :| Lasso(store, lv, path, s) { LassoRuns(store, lv, path, s); }
    if MeetsHalfDeadTwice(store, lv) {
      var i: nat, j: nat :| i + 1 < j && HalfDeadAt(store, lv, i) && Running(store, lv, j)
                            && BlockAt(store, lv, i) == BlockAt(store, lv, j);
      var path := RunIsLasso(store, lv, i, j);
    }
  }

  // ---------------------------------------------------------------------------------------------
  // A walk that ended without error

  /** The walk got to the right end of the level over these blocks, every page check passing. */
  ghost predicate Completed(store: Store, lv: Level, trail: seq<nat>) {
    IsRun(store, lv, trail) && LastVisit(store, lv, |trail| - 1).Done?
  }

  /** What it established about each page. */
  lemma CompletedPage(store: Store, lv: Level, trail: seq<nat>, i: nat)
    requires Completed(store, lv, trail) && i < |trail|
    ensures Readable(store, trail[i]) && !store[trail[i]].deleted
    ensures store[trail[i]].Rightmost() <==> i == |trail| - 1
    ensures i + 1 < |trail| ==> trail[i + 1] == store[trail[i]].next
    ensures i == |trail| - 1 ==> !store[trail[i]].halfDead
    ensures !store[trail[i]].halfDead ==> store[trail[i]].level == lv.level && lv.pageOk(trail[i])
  {
    assert VisitedAt(store, lv, trail, i);
    if i + 1 < |trail| {
      assert VisitedAt(store, lv, trail, i + 1);
      LeftOf(store, lv, i);
    }
  }

  /** Right links over passable pages to a page on which the walk ends. */
  lemma PathIsCompleted(store: Store, lv: Level, path: seq<nat>)
    requires path != [] && path[0] == lv.leftmost
    requires forall i :: 0 < i < |path| ==> LinkedRight(store, path, i)
    requires forall i :: 0 <= i < |path| - 1 ==> Passable(store, lv, path, i)
    requires var n := |path| - 1;
             var left := if n == 0 then P_NONE else path[n - 1];
             VisitPage(store, lv, Place(left, path[n], !Unsettled(store, path, n))).Done?
    ensures Completed(store, lv, path)
  {
    forall k: nat | k < |path| ensures VisitedAt(store, lv, path, k) { WalkFollows(store, lv, path, k); }
    WalkFollows(store, lv, path, |path| - 1);
  }

  /** A walk that finished has such a trail. */
  lemma FinishedIsCompleted(store: Store, lv: Level, n: nat) returns (trail: seq<nat>)
    requires Running(store, lv, n) && LastVisit(store, lv, n).Done?
    ensures |trail| == n + 1 && Completed(store, lv, trail)
  {
    trail := BlocksRun(store, lv, n);
  }

  /** Right links lead from the leftmost block over these blocks, all but the last of them passable. */
  ghost predicate Road(store: Store, lv: Level, path: seq<nat>) {
    && path != [] && path[0] == lv.leftmost && (forall i :: 0 < i < |path| ==> LinkedRight(store, path, i))
    && forall i :: 0 <= i < |path| - 1 ==> Passable(store, lv, path, i)
  }

  lemma RoadIsRun(store: Store, lv: Level, path: seq<nat>)
    ensures Road(store, lv, path) <==> IsRun(store, lv, path)
  {
    if Road(store, lv, path) {
      forall k: nat | k < |path| ensures VisitedAt(store, lv, path, k) { WalkFollows(store, lv, path, k); }
      assert VisitedAt(store, lv, path, |path| - 1);
    }
    if IsRun(store, lv, path) {
      assert VisitedAt(store, lv, path, 0);
      forall i | 0 < i < |path| ensures LinkedRight(store, path, i) { RunIsLinked(store, lv, path, i); }
      forall i | 0 <= i < |path| - 1 ensures Passable(store, lv, path, i) { RunIsPassable(store, lv, path, i); }
    }
  }

  lemma VisitIs(store: Store, lv: Level, path: seq<nat>, i: nat, w: Place)
    requires i < |path| && path[i] == w.current && (!w.found <==> Unsettled(store, path, i))
    requires if i > 0 then w.left == path[i - 1] != P_NONE else w.left == P_NONE
    ensures VisitPage(store, lv, w).Error? <==> !PageGood(store, lv, path, i)
    ensures VisitPage(store, lv, w).Done? <==> PageGood(store, lv, path, i) && store[path[i]].next == P_NONE
  {
  }

  /** The visit at the end of a road raises an error exactly if the block there is not good, and ends at a right end. */
  lemma VisitExactly(store: Store, lv: Level, path: seq<nat>)
    requires Road(store, lv, path)
    ensures var n := |path| - 1;
            && Running(store, lv, n)
            && (LastVisit(store, lv, n).Error? <==> !PageGood(store, lv, path, n))
            && (LastVisit(store, lv, n).Done? <==> PageGood(store, lv, path, n) && store[path[n]].next == P_NONE)
  {
    var n := |path| - 1;
    WalkFollows(store, lv, path, n);
    if n > 0 { assert Passable(store, lv, path, n - 1); }
    VisitIs(store, lv, path, n, WalkAt(store, lv, n).place);
  }

  /** The walk got to the end exactly if right links lead there over good pages. */
  lemma CompletedExactly(store: Store, lv: Level, trail: seq<nat>)
    ensures Completed(store, lv, trail) <==>
            && Road(store, lv, trail) && PageGood(store, lv, trail, |trail| - 1)
            && store[trail[|trail| - 1]].next == P_NONE
  {
    RoadIsRun(store, lv, trail);
    if Road(store, lv, trail) { VisitExactly(store, lv, trail); }
  }

  /** The walk raised an error after n pages exactly if a road over n good pages leads to one that is not. */
  lemma RejectedExactly(store: Store, lv: Level, n: nat)
    ensures Running(store, lv, n) && LastVisit(store, lv, n).Error? <==>
            exists path: seq<nat> :: |path| == n + 1 && Road(store, lv, path) && !PageGood(store, lv, path, n)
  {
    if Running(store, lv, n) && LastVisit(store, lv, n).Error? {
      var path := BlocksRun(store, lv, n);
      RoadIsRun(store, lv, path);
      VisitExactly(store, lv, path);
    }
    if path: seq<nat> :| |path| == n + 1 && Road(store, lv, path) && !PageGood(store, lv, path, n) {
      VisitExactly(store, lv, path);
    }
  }
}
