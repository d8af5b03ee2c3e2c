/**
 * Data pages of a bloom index: adding a tuple, and vacuum's in-place compaction. A page is edited as
 * a private copy, the way GenericXLogRegisterBuffer hands it out, and then kept or thrown away.
 */
module BloomPage {

  /** BloomSignatureWord, a uint16. */
  type Word = w: nat | w < 0x1_0000

  type Signature = seq<Word>

  datatype Tuple = Tuple(tid: nat, sign: Signature)

  const BLCKSZ: nat := 8192
  const PAGE_HEADER: nat := 24
  const PAGE_OPAQUE: nat := 8
  const TUPLE_HEADER: nat := 6
  const MAX_WORDS: nat := 256

  /** sizeOfBloomTuple for a signature of the given number of words. */
  function TupleSize(words: nat): nat { TUPLE_HEADER + 2 * words }

  /** Bytes taken by maxoff tuples, counted one tuple at a time; see SpaceIsProduct. */
  function Space(words: nat, maxoff: nat): nat {
    if maxoff == 0 then 0 else Space(words, maxoff - 1) + TupleSize(words)
  }

  lemma {:induction false} SpaceIsProduct(words: nat, maxoff: nat)
    ensures Space(words, maxoff) == maxoff * TupleSize(words)
  {
    if maxoff > 0 {
      SpaceIsProduct(words, maxoff - 1);
      assert (maxoff - 1) * TupleSize(words) == maxoff * TupleSize(words) - TupleSize(words);
    }
  }

  /** BloomPageGetFreeSpace; negative when the page is overfull. */
  function FreeSpace(words: nat, maxoff: nat): int {
    BLCKSZ - PAGE_HEADER - Space(words, maxoff) - PAGE_OPAQUE
  }

  /** BloomPageAddItem's test: one more tuple fits. */
  predicate HasRoom(words: nat, maxoff: nat) { FreeSpace(words, maxoff) >= TupleSize(words) }

  /** A page holding maxoff tuples does not overrun the space between header and opaque data. */
  predicate WithinPage(words: nat, maxoff: nat) { FreeSpace(words, maxoff) >= 0 }

  /** One more tuple fits exactly if all of them fit between the page header and the opaque data. */
  lemma RoomExactly(words: nat, maxoff: nat)
    ensures HasRoom(words, maxoff) <==> (maxoff + 1) * (6 + 2 * words) <= 8160
  {
    SpaceIsProduct(words, maxoff);
    assert (maxoff + 1) * (6 + 2 * words) == maxoff * (6 + 2 * words) + (6 + 2 * words);
  }

  /** An empty page takes a tuple of any permitted signature length. */
  lemma EmptyPageHasRoom(words: nat)
    requires words <= MAX_WORDS
    ensures HasRoom(words, 0)
  {
  }

  lemma RoomMeansWithin(words: nat, maxoff: nat)
    ensures HasRoom(words, maxoff) <==> WithinPage(words, maxoff + 1)
  {
  }

  lemma {:induction false} FewerIsWithin(words: nat, fewer: nat, maxoff: nat)
    requires WithinPage(words, maxoff) && fewer <= maxoff
    ensures WithinPage(words, fewer)
    decreases maxoff
  {
    if fewer < maxoff { FewerIsWithin(words, fewer, maxoff - 1); }
  }

  /** The state of a block: the metapage, never initialised, or a data page. */
  datatype Page = Metapage | New | Data(items: seq<Tuple>, deleted: bool)

  /** PageIsNew || BloomPageIsDeleted. */
  predicate Reusable(p: Page) { p.New? || (p.Data? && p.deleted) }

  /** BloomInitPage(page, 0) where the callers reinitialise, otherwise the page as it is. */
  function Opened(p: Page): Page { if Reusable(p) then Data([], false) else p }

  /** The tuples vacuum leaves, in their order. */
  function Survivors(items: seq<Tuple>, dead: set<nat>): (s: seq<Tuple>)
    ensures |s| <= |items|
  {
    if items == [] then []
    else
      var n := |items| - 1;
      Survivors(items[..n], dead) + if items[n].tid in dead then [] else [items[n]]
  }

  lemma {:induction false} SurvivorsMembers(items: seq<Tuple>, dead: set<nat>)
    ensures forall t :: t in Survivors(items, dead) <==> t in items && t.tid !in dead
  {
    if items != [] {
      var n := |items| - 1;
      SurvivorsMembers(items[..n], dead);
      assert items == items[..n] + [items[n]];
    }
  }

  lemma SurvivorsStep(items: seq<Tuple>, n: nat, dead: set<nat>)
    requires n < |items|
    ensures Survivors(items[..n + 1], dead)
            == Survivors(items[..n], dead) + if items[n].tid in dead then [] else [items[n]]
  {
    assert items[..n + 1][..n] == items[..n];
  }

  /** What blbulkdelete does to one page. */
  function Vacuumed(p: Page, dead: set<nat>): Page {
    if !p.Data? || p.deleted then p
    else
      var s := Survivors(p.items, dead);
      if |s| == |p.items| then p else Data(s, |s| == 0)
  }

  /** Vacuum touches a page in use only if it holds something dead, and marks it deleted exactly if nothing is left. */
  lemma VacuumedExactly(p: Page, dead: set<nat>)
    requires p.Data? && !p.deleted
    ensures var after := Vacuumed(p, dead);
            && after.Data? && (forall t :: t in after.items <==> t in p.items && t.tid !in dead)
            && (after == p <==> forall t :: t in p.items ==> t.tid !in dead)
            && (after != p ==> (after.deleted <==> forall t :: t in p.items ==> t.tid in dead))
  {
    SurvivorsMembers(p.items, dead);
    NothingDead(p.items, dead);
    AllSurvive(p.items, dead);
    var s := Survivors(p.items, dead);
    assert s != [] ==> s[0] in s;
  }

  lemma {:induction false} AllSurvive(items: seq<Tuple>, dead: set<nat>)
    ensures |Survivors(items, dead)| == |items| <==> forall t :: t in items ==> t.tid !in dead
  {
    if items != [] {
      var n := |items| - 1;
      AllSurvive(items[..n], dead);
      assert items == items[..n] + [items[n]] && items[n] in items;
    }
  }

  lemma {:induction false} NothingDead(items: seq<Tuple>, dead: set<nat>)
    ensures |Survivors(items, dead)| == |items| ==> Survivors(items, dead) == items
  {
    if items != [] {
      var n := |items| - 1;
      var s := Survivors(items[..n], dead);
      NothingDead(items[..n], dead);
      if |s| == n && items[n].tid !in dead {
        assert Survivors(items, dead) == s + [items[n]] == items[..n] + [items[n]] == items;
      } else {
        assert |Survivors(items, dead)| < |items|;
      }
    }
  }

  /** Survivors keep their relative order: they are the items at an increasing choice of positions. */
  lemma {:induction false} SurvivorsInOrder(items: seq<Tuple>, dead: set<nat>) returns (at: seq<nat>)
    ensures |at| == |Survivors(items, dead)|
    ensures forall i :: 0 <= i < |at| ==> at[i] < |items| && Survivors(items, dead)[i] == items[at[i]]
    ensures forall i, j :: 0 <= i < j < |at| ==> at[i] < at[j]
  {
    at := [];
    if items != [] {
      var n := |items| - 1;
      at := SurvivorsInOrder(items[..n], dead);
      if items[n].tid !in dead { at := at + [n]; }
    }
  }

  /** The two cursors have passed done items, and the survivors among them lie at the front. */
  ghost predicate Compacted(was: seq<Tuple>, slots: seq<Tuple>, kept: nat, done: nat, dead: set<nat>) {
    && kept <= done <= |was| <= |slots|
    && slots[..kept] == Survivors(was[..done], dead) && slots[done..|was|] == was[done..]
  }

  lemma CompactStep(was: seq<Tuple>, slots: seq<Tuple>, kept: nat, done: nat, dead: set<nat>)
    requires done < |was| && Compacted(was, slots, kept, done, dead)
    ensures slots[done] == was[done]
    ensures if was[done].tid in dead then Compacted(was, slots, kept, done + 1, dead)
            else Compacted(was, slots[kept := slots[done]], kept + 1, done + 1, dead)
  {
    SurvivorsStep(was, done, dead);
    assert slots[done..|was|][0] == was[done..][0];
    assert slots[done..|was|][1..] == slots[done + 1..|was|] && was[done..][1..] == was[done + 1..];
    var moved := slots[kept := slots[done]];
    assert moved[..kept + 1] == slots[..kept] + [slots[done]];
    assert moved[done + 1..|was|] == slots[done + 1..|was|];
  }

  // ---------------------------------------------------------------------------------------------
  // The page copy that is edited in place

  class PageCopy {
    const words: nat
    /** Slots of the page; those at maxoff and beyond hold whatever was there. */
    const slots: array<Tuple>
    var maxoff: nat
    var deleted: bool

    ghost predicate Valid()
      reads this
    {
      maxoff <= slots.Length && WithinPage(words, maxoff)
    }

    ghost function Items(): seq<Tuple>
      requires Valid()
      reads this, slots
    {
      slots[..maxoff]
    }

    constructor (words: nat, items: seq<Tuple>, deleted: bool, capacity: nat)
      requires WithinPage(words, |items|) && |items| <= capacity
      ensures this.words == words && fresh(slots) && slots.Length == capacity
      ensures Valid() && Items() == items && this.deleted == deleted
    {
      this.words := words;
      slots := new Tuple[capacity](i => if 0 <= i < |items| then items[i] else Tuple(0, []));
      maxoff := |items|;
      this.deleted := deleted;
      new;
      assert slots[..maxoff] == items;
    }

    /** BloomPageAddItem. */
    method AddItem(t: Tuple) returns (added: bool)
      requires Valid() && !deleted && (HasRoom(words, maxoff) ==> maxoff < slots.Length)
      modifies this`maxoff, slots
      ensures Valid() && added == HasRoom(words, old(maxoff))
      ensures Items() == if added then old(Items()) + [t] else old(Items())
    {
      if FreeSpace(words, maxoff) < TupleSize(words) { return false; }
      RoomMeansWithin(words, maxoff);
      slots[maxoff] := t;
      maxoff := maxoff + 1;
      return true;
    }

    /** The loop of blbulkdelete over one page: two cursors, survivors moved down over the dead. */
    method Compact(dead: set<nat>) returns (removed: nat)
      requires Valid() && !deleted
      modifies this, slots
      ensures Valid() && Items() == Survivors(old(Items()), dead)
      ensures removed == |old(Items())| - |Items()|
      ensures deleted == (removed > 0 && maxoff == 0)
    {
      ghost var was := Items();
      var itup, itupPtr := 0, 0;
      var itupEnd := maxoff;
      removed := 0;
      while itup < itupEnd
        invariant itup <= itupEnd == |was| && !deleted && Compacted(was, slots[..], itupPtr, itup, dead)
        invariant removed == itup - itupPtr && maxoff == itupEnd - removed
      {
        CompactStep(was, slots[..], itupPtr, itup, dead);
        ghost var moved := slots[..][itupPtr := slots[itup]];
        if slots[itup].tid in dead {
          maxoff := maxoff - 1;
          removed := removed + 1;
        } else {
          if itupPtr != itup { slots[itupPtr] := slots[itup]; }
          assert slots[..] == moved;
          itupPtr := itupPtr + 1;
        }
        itup := itup + 1;
      }
      assert was[..itup] == was && slots[..][..itupPtr] == slots[..itupPtr];
      FewerIsWithin(words, maxoff, |was|);
      if itupPtr != itup && maxoff == 0 { deleted := true; }
    }
  }
}
