/**
 * What a page looks like that verify_heapam finds nothing wrong with, said of line pointers and tuple headers
 * alone: which of them lead to which, and what has to agree on the two sides.
 */
module HeapReference {
  import opened HeapChains
  import opened HeapXids
  import opened Optional

  /** A tuple that lies on the page, aligned and at least as long as its header. */
  predicate TupleAt(p: Page, o: nat) {
    && 1 <= o <= |p.lps| && p.lps[o - 1].Normal?
    && p.lps[o - 1].off % 8 == 0 && p.lps[o - 1].len >= 24 && p.lps[o - 1].off + p.lps[o - 1].len <= 8192
  }

  function TupleOf(p: Page, o: nat): Tuple
    requires TupleAt(p, o)
  {
    p.lps[o - 1].tuple
  }

  predicate RedirectsTo(p: Page, o: nat, n: nat) {
    1 <= o <= |p.lps| && p.lps[o - 1] == Redirect(n) && TupleAt(p, n)
  }

  /** The tuple at n is the next version of the one at o: its ctid says so, and the updater made it. */
  predicate UpdatedTo(p: Page, o: nat, n: nat) {
    && TupleAt(p, o) && TupleAt(p, n) && o != n
    && TupleOf(p, o).ctidBlock == p.blkno && TupleOf(p, o).ctidOff == n
    && TupleOf(p, o).updateXid != 0 && TupleOf(p, o).updateXid == TupleOf(p, n).xmin
  }

  predicate LeadsTo(p: Page, o: nat, n: nat) { RedirectsTo(p, o, n) || UpdatedTo(p, o, n) }

  /** Every line pointer is unused, dead, a tuple, or redirected to a line pointer that has storage. */
  ghost predicate PointersOk(p: Page) {
    forall o: nat :: 1 <= o <= |p.lps| ==>
      || p.lps[o - 1].Unused? || p.lps[o - 1].Dead? || TupleAt(p, o)
      || (p.lps[o - 1].Redirect? && 1 <= p.lps[o - 1].to <= |p.lps| && p.lps[p.lps[o - 1].to - 1].Normal?)
  }

  /** A redirect leads to a heap-only tuple. */
  ghost predicate RedirectsOk(p: Page) {
    forall o: nat, n: nat :: RedirectsTo(p, o, n) ==> TupleOf(p, n).heapOnly
  }

  /** The next version is heap-only exactly if the update was a HOT update. */
  ghost predicate FlagsOk(p: Page) {
    forall o: nat, n: nat :: UpdatedTo(p, o, n) ==> TupleOf(p, o).hotUpdated == TupleOf(p, n).heapOnly
  }

  /** A version whose inserter is still running, or aborted, was not updated by one that got further. */
  ghost predicate StatusesOk(p: Page) {
    forall o: nat, n: nat :: UpdatedTo(p, o, n) ==> NoFurther(TupleOf(p, o), TupleOf(p, n))
  }

  predicate NoFurther(curr: Tuple, next: Tuple) {
    && (curr.status == Some(InProgress) && curr.stillInProgress ==> next.status != Some(Committed))
    && (curr.status == Some(Aborted) ==> next.status != Some(InProgress) && next.status != Some(Committed))
  }

  /** No two line pointers lead to the same tuple. */
  ghost predicate NoneShared(p: Page) {
    forall o: nat, o': nat, n: nat :: LeadsTo(p, o, n) && LeadsTo(p, o', n) ==> o == o'
  }

  /** Something leads to every heap-only tuple whose inserter committed or is running. */
  ghost predicate HeapOnlyLed(p: Page) {
    forall n: nat :: TupleAt(p, n) && TupleOf(p, n).heapOnly ==>
      TupleOf(p, n).status == Some(Committed) || TupleOf(p, n).status == Some(InProgress) ==>
        exists o: nat :: LeadsTo(p, o, n)
  }

  lemma ValidIsTuple(p: Page, o: nat)
    ensures LpValid(p, o) && Lp(p, o).Normal? <==> TupleAt(p, o)
    ensures StatusAt(p, o) == if TupleAt(p, o) then TupleOf(p, o).status else None
  {
  }

  /** The second pass follows exactly these links. */
  lemma TargetExactly(p: Page, o: nat, n: nat)
    requires n != 0
    ensures Target(p, o) == n <==> LeadsTo(p, o, n)
  {
    ValidIsTuple(p, o);
    ValidIsTuple(p, n);
  }

  lemma {:induction false} CleanUpTo(p: Page, k: nat)
    requires forall o: nat :: 1 <= o < k && Target(p, o) != 0 ==> LinkClean(p, o) && NoEarlier(p, o)
    ensures LinksClean(p, k)
  {
    if k > 1 { CleanUpTo(p, k - 1); }
  }

  lemma PointersExactly(p: Page)
    ensures (forall o: nat :: On(p, o) ==> PointerClean(p, o)) <==> PointersOk(p)
  {
    forall o: nat | On(p, o)
      ensures PointerClean(p, o) <==>
              || p.lps[o - 1].Unused? || p.lps[o - 1].Dead? || TupleAt(p, o)
              || (p.lps[o - 1].Redirect? && 1 <= p.lps[o - 1].to <= |p.lps| && p.lps[p.lps[o - 1].to - 1].Normal?)
    {
      ValidIsTuple(p, o);
    }
    if forall o: nat :: On(p, o) ==> PointerClean(p, o) {
      forall o: nat | 1 <= o <= |p.lps|
        ensures || p.lps[o - 1].Unused? || p.lps[o - 1].Dead? || TupleAt(p, o)
                || (p.lps[o - 1].Redirect? && 1 <= p.lps[o - 1].to <= |p.lps| && p.lps[p.lps[o - 1].to - 1].Normal?)
      {
        assert On(p, o) && PointerClean(p, o);
      }
    }
  }

  /** One link. */
  lemma LinkExactly(p: Page, o: nat, n: nat)
    requires Target(p, o) == n != 0
    ensures LinkClean(p, o) <==>
            && (RedirectsTo(p, o, n) ==> TupleOf(p, n).heapOnly)
            && (UpdatedTo(p, o, n) ==>
                  var curr, next := TupleOf(p, o), TupleOf(p, n);
                  curr.hotUpdated == next.heapOnly && NoFurther(curr, next))
  {
    TargetExactly(p, o, n);
    ValidIsTuple(p, o);
    ValidIsTuple(p, n);
  }

  lemma LinksExactly(p: Page)
    ensures LinksClean(p, |p.lps| + 1) <==> RedirectsOk(p) && FlagsOk(p) && StatusesOk(p) && NoneShared(p)
  {
    if LinksClean(p, |p.lps| + 1) { CleanLinks(p); }
    if RedirectsOk(p) && FlagsOk(p) && StatusesOk(p) && NoneShared(p) {
      forall o: nat | 1 <= o < |p.lps| + 1 && Target(p, o) != 0 ensures LinkClean(p, o) && NoEarlier(p, o) {
        LinkExactly(p, o, Target(p, o));
        TargetExactly(p, o, Target(p, o));
        forall j: nat | 1 <= j < o ensures Target(p, j) != Target(p, o) { TargetExactly(p, j, Target(p, o)); }
      }
      CleanUpTo(p, |p.lps| + 1);
    }
  }

  lemma CleanLinks(p: Page)
    requires LinksClean(p, |p.lps| + 1)
    ensures RedirectsOk(p) && FlagsOk(p) && StatusesOk(p) && NoneShared(p)
  {
    forall o: nat, n: nat | LeadsTo(p, o, n) ensures Target(p, o) == n && LinkClean(p, o) {
      TargetExactly(p, o, n);
      LinksCleanAt(p, |p.lps| + 1, o);
    }
    forall o: nat, n: nat | RedirectsTo(p, o, n) ensures TupleOf(p, n).heapOnly {
      assert LeadsTo(p, o, n);
      LinkExactly(p, o, n);
    }
    forall o: nat, n: nat | UpdatedTo(p, o, n)
      ensures var curr, next := TupleOf(p, o), TupleOf(p, n);
              curr.hotUpdated == next.heapOnly && NoFurther(curr, next)
    {
      assert LeadsTo(p, o, n);
      LinkExactly(p, o, n);
    }
    forall o: nat, o': nat, n: nat | LeadsTo(p, o, n) && LeadsTo(p, o', n) ensures o == o' {
      LinksCleanAt(p, |p.lps| + 1, o);
      LinksCleanAt(p, |p.lps| + 1, o');
    }
  }

  lemma RootsExactly(p: Page)
    ensures (forall o: nat :: On(p, o) ==> RootClean(p, o)) <==> HeapOnlyLed(p)
  {
    forall n: nat | On(p, n)
      ensures RootClean(p, n) <==>
              (TupleAt(p, n) && TupleOf(p, n).heapOnly ==>
                 TupleOf(p, n).status == Some(Committed) || TupleOf(p, n).status == Some(InProgress) ==>
                   exists o: nat :: LeadsTo(p, o, n))
    {
      ValidIsTuple(p, n);
      forall o: nat ensures Target(p, o) == n <==> LeadsTo(p, o, n) { TargetExactly(p, o, n); }
    }
  }

  /**
   * The three passes find nothing exactly if line pointers are in order, redirects lead to heap-only tuples,
   * versions agree with the next ones in flags and transactions, no tuple is led to twice, and something leads to
   * every heap-only tuple that counts.
   */
  lemma CleanExactly(p: Page)
    ensures PageClean(p) <==>
            && PointersOk(p) && RedirectsOk(p) && FlagsOk(p) && StatusesOk(p) && NoneShared(p) && HeapOnlyLed(p)
  {
    PointersExactly(p);
    LinksExactly(p);
    RootsExactly(p);
  }
}
