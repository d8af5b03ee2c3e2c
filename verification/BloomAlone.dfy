/**
 * Run without interruption, the steps of the bloom protocol add up to what the loops of BloomIndex do: an
 * insert, a vacuum and a scan of a process that no other process gets in the way of.
 */
module BloomAlone {
  import opened BloomPage
  import opened BloomProtocol
  import opened BloomIndex
  import BloomSafety

  /** A step within an insert, a vacuum or a scan of p, not one that ends it in an error. */
  predicate Mine(e: Step, p: Pid) {
    match e
    case ReadMeta(q) => q == p
    case TryFirst(q) => q == p
    case LockMeta(q) => q == p
    case TryNext(q) => q == p
    case Recycle(q, _) => q == p
    case Extend(q) => q == p
    case VacuumPage(q) => q == p
    case FinishVacuum(q) => q == p
    case ScanPage(q) => q == p
    case _ => false
  }

  /** From s, only p takes steps, these ones, and that leads to s'. */
  ghost predicate Alone(s: State, steps: seq<Step>, p: Pid, s': State)
    decreases |steps|
  {
    && Inv(s)
    && if steps == [] then s' == s
       else Mine(steps[0], p) && Enabled(s, steps[0]) && Alone(Apply(s, steps[0]), steps[1..], p, s')
  }

  /** The invariant is no restriction: every step keeps it. */
  lemma AloneStep(s: State, e: Step, p: Pid)
    requires Inv(s) && Mine(e, p) && Enabled(s, e)
    ensures Alone(s, [e], p, Apply(s, e))
  {
    BloomSafety.StepKeepsInv(s, e);
    assert [e][1..] == [];
  }

  /** A process that is done takes no more steps. */
  lemma GoneIsDone(s: State, steps: seq<Step>, p: Pid, s': State)
    requires Alone(s, steps, p, s') && p !in s.procs
    ensures steps == [] && s' == s
  {
  }

  // ---------------------------------------------------------------------------------------------
  // Insert

  /** What blinsert leaves, if it looks at the list from this index on. */
  ghost predicate Inserted(words: nat, pages: seq<Page>, m: Meta, from: nat, t: Tuple, pages': seq<Page>, m': Meta)
    requires from <= m.nEnd <= |m.notFull| && 0 < |m.notFull|
  {
    var i := FirstFit(words, pages, m.notFull[..m.nEnd], from);
    if i < m.nEnd then pages' == AppendedTo(pages, m.notFull[i], t) && m' == m.(nStart := i)
    else exists b: nat :: OnFree(pages, m, t, pages', m', b)
  }

  /** The tuple is alone on block b, which was free or is new, and the list names only that block. */
  ghost predicate OnFree(pages: seq<Page>, m: Meta, t: Tuple, pages': seq<Page>, m': Meta, b: nat)
    requires 0 < |m.notFull|
  {
    && b <= |pages| && (b < |pages| ==> Reusable(pages[b]))
    && pages' == OnFreeBlock(pages, b, t) && m' == Meta(0, 1, m.notFull[0 := b])
  }

  lemma TakesIsFits(s: State, p: Pid, b: nat)
    requires Inv(s) && IsInserter(s, p) && DataBlock(s.pages, b)
    ensures Takes(s, b) <==> Fits(s.words, s.pages, b)
    ensures Takes(s, b) ==> Placed(s, p, b).pages == AppendedTo(s.pages, b, s.procs[p].tuple)
  {
    assert PageInv(s.words, s.pages[b]) && !s.pages[b].Metapage?;
    RoomExactly(s.words, |ItemsOn(s.pages[b])|);
  }

  /** The page tried first is passed over when the list is gone through. */
  lemma PassedOver(words: nat, pages: seq<Page>, m: Meta, n: nat, t: Tuple, pages': seq<Page>, m': Meta)
    requires n < m.nEnd <= |m.notFull| && !Fits(words, pages, m.notFull[n])
    requires Inserted(words, pages, m, n + 1, t, pages', m')
    ensures Inserted(words, pages, m, n, t, pages', m')
  {
    assert m.notFull[..m.nEnd][n] == m.notFull[n];
  }

  /** A page that cannot take the tuple makes no difference at the start of the list. */
  ghost predicate StartIsFull(words: nat, pages: seq<Page>, m: Meta) {
    m.nStart < m.nEnd <= |m.notFull| ==> !Fits(words, pages, m.notFull[m.nStart])
  }

  lemma FromStart(words: nat, pages: seq<Page>, m: Meta, from: nat, t: Tuple, pages': seq<Page>, m': Meta)
    requires m.nStart <= from <= m.nEnd <= |m.notFull| && 0 < |m.notFull| && from <= m.nStart + 1
    requires StartIsFull(words, pages, m) && Inserted(words, pages, m, from, t, pages', m')
    ensures Inserted(words, pages, m, m.nStart, t, pages', m')
  {
    if from == m.nStart + 1 { PassedOver(words, pages, m, m.nStart, t, pages', m'); }
  }

  /** The inserter has gone on to another point, and nothing else has changed. */
  ghost predicate OnlyMoved(s: State, p: Pid, at: InsertAt, s1: State) {
    && IsInserter(s, p) && IsInserter(s1, p) && s1.procs[p] == Inserter(s.procs[p].tuple, at)
    && s1.words == s.words && s1.pages == s.pages && s1.meta == s.meta
  }

  /** The insert is done, with these pages and this metapage. */
  ghost predicate Done(p: Pid, pages: seq<Page>, m: Meta, s1: State) {
    p !in s1.procs && s1.pages == pages && s1.meta == m
  }

  lemma NextTried(s: State, p: Pid, n: nat)
    requires Inv(s) && Enabled(s, TryNext(p)) && s.procs[p].at == AtLoop(n)
    ensures var b, s1 := s.meta.notFull[n], Apply(s, TryNext(p));
            && b < |s.pages|
            && if Fits(s.words, s.pages, b) then
                 Done(p, AppendedTo(s.pages, b, s.procs[p].tuple), s.meta.(nStart := n), s1)
               else OnlyMoved(s, p, AtLoop(n + 1), s1)
  {
    assert ProcInv(s, p) && DataBlock(s.pages, s.meta.notFull[n]);
    TakesIsFits(s, p, s.meta.notFull[n]);
  }

  lemma FreeTaken(s: State, e: Step, p: Pid)
    requires Inv(s) && Enabled(s, e) && (e == Extend(p) || (e.Recycle? && e.p == p))
    ensures var s1, b := Apply(s, e), if e.Extend? then |s.pages| else e.block;
            p !in s1.procs && OnFree(s.pages, s.meta, s.procs[p].tuple, s1.pages, s1.meta, b)
  {
    var t := s.procs[p].tuple;
    assert [] + [t] == [t];
    if e.Extend? { assert (s.pages + [New])[|s.pages| := Data([t], false)] == s.pages + [Data([t], false)]; }
  }

  /** In the loop, the possible steps are these. */
  lemma LoopSteps(s: State, e: Step, p: Pid)
    requires Inv(s) && IsInserter(s, p) && s.procs[p].at.AtLoop? && Mine(e, p) && Enabled(s, e)
    ensures s.procs[p].at.nStart <= s.meta.nEnd <= |s.meta.notFull|
    ensures s.procs[p].at.nStart < s.meta.nEnd ==> e == TryNext(p)
    ensures s.procs[p].at.nStart == s.meta.nEnd ==> e == Extend(p) || (e.Recycle? && e.p == p)
  {
    assert ProcInv(s, p);
  }

  lemma {:induction false} InsertInLoop(s: State, steps: seq<Step>, p: Pid, s': State)
    requires Alone(s, steps, p, s') && IsInserter(s, p) && s.procs[p].at.AtLoop? && p !in s'.procs
    ensures s.procs[p].at.nStart <= s.meta.nEnd <= |s.meta.notFull| && 0 < |s.meta.notFull|
    ensures Inserted(s.words, s.pages, s.meta, s.procs[p].at.nStart, s.procs[p].tuple, s'.pages, s'.meta)
    decreases |steps|
  {
    var e, n := steps[0], s.procs[p].at.nStart;
    var s1 := Apply(s, e);
    LoopSteps(s, e, p);
    if e.TryNext? {
      assert s.meta.notFull[..s.meta.nEnd][n] == s.meta.notFull[n];
      NextTried(s, p, n);
      if Fits(s.words, s.pages, s.meta.notFull[n]) {
        GoneIsDone(s1, steps[1..], p, s');
      } else {
        InsertInLoop(s1, steps[1..], p, s');
        PassedOver(s.words, s.pages, s.meta, n, s.procs[p].tuple, s'.pages, s'.meta);
      }
    } else {
      FreeTaken(s, e, p);
      GoneIsDone(s1, steps[1..], p, s');
    }
  }

  lemma MetaTaken(s: State, e: Step, p: Pid)
    requires Inv(s) && IsInserter(s, p) && s.procs[p].at.AtSlow? && Mine(e, p) && Enabled(s, e)
    ensures s.meta.nStart <= s.meta.nEnd <= |s.meta.notFull| && 0 < |s.meta.notFull|
    ensures var n := s.meta.nStart;
            var skip := n < s.meta.nEnd && s.procs[p].at.tried == [s.meta.notFull[n]];
            OnlyMoved(s, p, AtLoop(if skip then n + 1 else n), Apply(s, e))
  {
  }

  lemma InsertLocked(s: State, steps: seq<Step>, p: Pid, s': State) returns (from: nat)
    requires Alone(s, steps, p, s') && IsInserter(s, p) && s.procs[p].at.AtSlow? && p !in s'.procs
    ensures s.meta.nStart <= from <= s.meta.nEnd <= |s.meta.notFull| && 0 < |s.meta.notFull|
    ensures from <= s.meta.nStart + 1
    ensures Inserted(s.words, s.pages, s.meta, from, s.procs[p].tuple, s'.pages, s'.meta)
  {
    var s1 := Apply(s, steps[0]);
    MetaTaken(s, steps[0], p);
    InsertInLoop(s1, steps[1..], p, s');
    from := s1.procs[p].at.nStart;
  }

  lemma InsertSlow(s: State, steps: seq<Step>, p: Pid, s': State)
    requires Alone(s, steps, p, s') && IsInserter(s, p) && s.procs[p].at.AtSlow? && p !in s'.procs
    requires StartIsFull(s.words, s.pages, s.meta)
    ensures s.meta.nStart <= s.meta.nEnd <= |s.meta.notFull| && 0 < |s.meta.notFull|
    ensures Inserted(s.words, s.pages, s.meta, s.meta.nStart, s.procs[p].tuple, s'.pages, s'.meta)
  {
    var from := InsertLocked(s, steps, p, s');
    FromStart(s.words, s.pages, s.meta, from, s.procs[p].tuple, s'.pages, s'.meta);
  }

  lemma FirstTried(s: State, e: Step, p: Pid)
    requires Inv(s) && IsInserter(s, p) && s.procs[p].at.AtFirst? && Mine(e, p) && Enabled(s, e)
    ensures var b, s1 := s.procs[p].at.block, Apply(s, e);
            && b < |s.pages|
            && if Fits(s.words, s.pages, b) then Done(p, AppendedTo(s.pages, b, s.procs[p].tuple), s.meta, s1)
               else OnlyMoved(s, p, AtSlow([b]), s1)
  {
    assert ProcInv(s, p);
    TakesIsFits(s, p, s.procs[p].at.block);
  }

  lemma InsertFirst(s: State, steps: seq<Step>, p: Pid, s': State)
    requires Alone(s, steps, p, s') && IsInserter(s, p) && s.procs[p].at.AtFirst? && p !in s'.procs
    requires s.meta.nStart < s.meta.nEnd <= |s.meta.notFull| && s.procs[p].at.block == s.meta.notFull[s.meta.nStart]
    ensures Inserted(s.words, s.pages, s.meta, s.meta.nStart, s.procs[p].tuple, s'.pages, s'.meta)
  {
    var b, s1 := s.procs[p].at.block, Apply(s, steps[0]);
    assert s.meta.notFull[..s.meta.nEnd][s.meta.nStart] == b;
    FirstTried(s, steps[0], p);
    if Fits(s.words, s.pages, b) { GoneIsDone(s1, steps[1..], p, s'); } else { InsertSlow(s1, steps[1..], p, s'); }
  }

  lemma ListRead(s: State, e: Step, p: Pid)
    requires Inv(s) && IsInserter(s, p) && s.procs[p].at.AtStart? && Mine(e, p) && Enabled(s, e)
    ensures s.meta.nStart <= s.meta.nEnd <= |s.meta.notFull| && 0 < |s.meta.notFull|
    ensures var m := s.meta;
            OnlyMoved(s, p, if m.nStart < m.nEnd then AtFirst(m.notFull[m.nStart]) else AtSlow([]), Apply(s, e))
  {
  }

  /** An insert that nothing comes between does what Index.Insert does. */
  lemma InsertAlone(s: State, steps: seq<Step>, p: Pid, s': State)
    requires Alone(s, steps, p, s') && IsInserter(s, p) && s.procs[p].at.AtStart? && p !in s'.procs
    ensures s.meta.nStart <= s.meta.nEnd <= |s.meta.notFull| && 0 < |s.meta.notFull|
    ensures Inserted(s.words, s.pages, s.meta, s.meta.nStart, s.procs[p].tuple, s'.pages, s'.meta)
  {
    ListRead(s, steps[0], p);
    var s1 := Apply(s, steps[0]);
    if s.meta.nStart < s.meta.nEnd { InsertFirst(s1, steps[1..], p, s'); } else { InsertSlow(s1, steps[1..], p, s'); }
  }

  /** The next step of an inserter that takes a new block when the list has none for it. */
  function NextStep(s: State, p: Pid): Step
    requires IsInserter(s, p)
  {
    match s.procs[p].at
    case AtStart => ReadMeta(p)
    case AtFirst(_) => TryFirst(p)
    case AtSlow(_) => LockMeta(p)
    case AtLoop(n) => if n < s.meta.nEnd then TryNext(p) else Extend(p)
  }

  function StepsLeft(s: State, p: Pid): int
    requires IsInserter(s, p)
  {
    match s.procs[p].at
    case AtStart => META_BLOCKS + 4
    case AtFirst(_) => META_BLOCKS + 3
    case AtSlow(_) => META_BLOCKS + 2
    case AtLoop(n) => s.meta.nEnd - n + 1
  }

  lemma NextIsPossible(s: State, p: Pid)
    requires Inv(s) && IsInserter(s, p) && (s.holder == [] || s.holder == [p])
    ensures var e := NextStep(s, p); Enabled(s, e) && Mine(e, p)
  {
    assert ProcInv(s, p);
  }

  lemma NextIsProgress(s: State, p: Pid)
    requires Inv(s) && IsInserter(s, p) && (s.holder == [] || s.holder == [p]) && Enabled(s, NextStep(s, p))
    ensures var s1 := Apply(s, NextStep(s, p));
            p in s1.procs ==>
              && IsInserter(s1, p) && (s1.holder == [] || s1.holder == [p])
              && 0 < StepsLeft(s1, p) < StepsLeft(s, p)
  {
    assert ProcInv(s, p);
  }

  /** Whenever no one else holds the metapage, an insert can go through to its end, in a bounded number of steps. */
  lemma {:induction false} InsertFinishes(s: State, p: Pid) returns (steps: seq<Step>, s': State)
    requires Inv(s) && IsInserter(s, p) && (s.holder == [] || s.holder == [p])
    ensures Alone(s, steps, p, s') && p !in s'.procs && |steps| <= StepsLeft(s, p)
    decreases StepsLeft(s, p)
  {
    var e := NextStep(s, p);
    NextIsPossible(s, p);
    NextIsProgress(s, p);
    var s1 := Apply(s, e);
    BloomSafety.StepKeepsInv(s, e);
    var rest := [];
    s' := s1;
    if p in s1.procs { rest, s' := InsertFinishes(s1, p); } else { StepsLeftPositive(s, p); }
    steps := [e] + rest;
    assert steps[1..] == rest;
  }

  lemma StepsLeftPositive(s: State, p: Pid)
    requires Inv(s) && IsInserter(s, p)
    ensures StepsLeft(s, p) >= 1
  {
    assert ProcInv(s, p);
  }

  // ---------------------------------------------------------------------------------------------
  // Vacuum

  /** A vacuum has come as far as it has, with nothing in between. */
  ghost predicate VacuumProgress(s: State, p: Pid, before: seq<Page>) {
    && p in s.procs && s.procs[p].Vacuum? && 1 <= s.procs[p].next <= s.procs[p].npages == |before|
    && VacuumedUpto(before, s.pages, s.procs[p].dead, s.procs[p].next)
    && s.procs[p].found == Roomy(s.words, s.pages, s.procs[p].next)
  }

  lemma RoomyNext(words: nat, pages: seq<Page>, n: nat, page: Page)
    requires 1 <= n < |pages|
    ensures var r := Roomy(words, pages, n);
            Roomy(words, pages[n := page], n + 1) == if Listed(words, page, r) then r + [n] else r
  {
    RoomyIgnoresRest(words, pages, pages[n := page], n);
  }

  /** The page belongs on the list. */
  predicate Listed(words: nat, page: Page, r: seq<nat>) {
    page.Data? && !page.deleted && page.items != [] && HasRoom(words, |page.items|) && |r| < META_BLOCKS
  }

  lemma PageCleared(s: State, p: Pid)
    requires Inv(s) && Enabled(s, VacuumPage(p))
    ensures var v, s1 := s.procs[p], Apply(s, VacuumPage(p));
            && 1 <= v.next < |s.pages| && s1.words == s.words
            && var after := Vacuumed(s.pages[v.next], v.dead);
            && s1.pages == s.pages[v.next := after] && p in s1.procs
            && s1.procs[p] == v.(next := v.next + 1,
                                 found := if Listed(s.words, after, v.found) then v.found + [v.next] else v.found)
  {
    assert ProcInv(s, p);
    assert PageInv(s.words, s.pages[s.procs[p].next]);
  }

  lemma VacuumOnePage(s: State, p: Pid, before: seq<Page>)
    requires Inv(s) && VacuumProgress(s, p, before) && Enabled(s, VacuumPage(p))
    ensures var s1 := Apply(s, VacuumPage(p));
            VacuumProgress(s1, p, before) && s1.words == s.words && s1.procs[p].dead == s.procs[p].dead
  {
    var n, v := s.procs[p].next, s.procs[p];
    PageCleared(s, p);
    VacuumedStep(before, s.pages, v.dead, n);
    RoomyNext(s.words, s.pages, n, Vacuumed(s.pages[n], v.dead));
  }

  /** What a vacuum leaves: every page rid of the dead, and a list of the pages with room. */
  ghost predicate VacuumDone(words: nat, before: seq<Page>, dead: set<Tid>, pages: seq<Page>, m: Meta) {
    && |pages| == |before| && (forall b :: 0 <= b < |before| ==> pages[b] == Vacuumed(before[b], dead))
    && m.nStart == 0 && m.nEnd <= |m.notFull| && m.notFull[..m.nEnd] == Roomy(words, pages, |pages|)
  }

  lemma VacuumEnds(s: State, p: Pid, before: seq<Page>)
    requires Inv(s) && VacuumProgress(s, p, before) && Enabled(s, FinishVacuum(p))
    ensures var s1 := Apply(s, FinishVacuum(p));
            p !in s1.procs && VacuumDone(s.words, before, s.procs[p].dead, s1.pages, s1.meta)
  {
    assert ProcInv(s, p);
  }

  lemma {:induction false} VacuumRest(s: State, steps: seq<Step>, p: Pid, s': State, before: seq<Page>)
    requires Alone(s, steps, p, s') && VacuumProgress(s, p, before) && p !in s'.procs
    ensures VacuumDone(s.words, before, s.procs[p].dead, s'.pages, s'.meta)
    decreases |steps|
  {
    var e, s1 := steps[0], Apply(s, steps[0]);
    if e.VacuumPage? {
      VacuumOnePage(s, p, before);
      VacuumRest(s1, steps[1..], p, s', before);
    } else {
      VacuumEnds(s, p, before);
      GoneIsDone(s1, steps[1..], p, s');
    }
  }

  /** A vacuum that nothing comes between does what Index.BulkDelete does. */
  lemma VacuumAlone(s: State, steps: seq<Step>, p: Pid, dead: set<Tid>, s': State)
    requires Inv(s) && Enabled(s, BeginVacuum(p, dead)) && Alone(Apply(s, BeginVacuum(p, dead)), steps, p, s')
    requires p !in s'.procs
    ensures VacuumDone(s.words, s.pages, dead, s'.pages, s'.meta)
  {
    var s1 := Apply(s, BeginVacuum(p, dead));
    assert VacuumProgress(s1, p, s.pages);
    VacuumRest(s1, steps, p, s', s.pages);
  }

  // ---------------------------------------------------------------------------------------------
  // Scan

  /** A scan has come as far as it has, with nothing in between. */
  ghost predicate ScanProgress(s: State, p: Pid, pages: seq<Page>, query: Signature) {
    && p in s.procs && s.procs[p].Scan? && s.procs[p].query == query && s.pages == pages
    && s.procs[p].next <= s.procs[p].npages == |pages|
    && s.procs[p].out == Hits(AllItems(pages[..s.procs[p].next]), query)
  }

  lemma HitsSoFar(pages: seq<Page>, n: nat, query: Signature)
    requires n < |pages|
    ensures Hits(AllItems(pages[..n + 1]), query) == Hits(AllItems(pages[..n]), query) + Hits(ItemsOn(pages[n]), query)
  {
    assert pages[..n + 1][..n] == pages[..n];
    HitsConcat(AllItems(pages[..n]), ItemsOn(pages[n]), query);
  }

  lemma PageRead(s: State, e: Step, p: Pid)
    requires Inv(s) && p in s.procs && s.procs[p].Scan? && Mine(e, p) && Enabled(s, e)
    ensures var c, s1 := s.procs[p], Apply(s, e);
            && c.next < |s.pages| && c.next < c.npages && s1.pages == s.pages
            && var hits := Hits(ItemsOn(s.pages[c.next]), c.query);
            p in s1.procs && s1.procs[p] == c.(next := c.next + 1, out := c.out + hits)
  {
    var n := s.procs[p].next;
    assert ProcInv(s, p);
    assert PageInv(s.words, s.pages[n]) && !s.pages[n].Metapage?;
  }

  lemma ScanOnePage(s: State, e: Step, p: Pid, pages: seq<Page>, query: Signature)
    requires Inv(s) && ScanProgress(s, p, pages, query) && Mine(e, p) && Enabled(s, e)
    ensures ScanProgress(Apply(s, e), p, pages, query)
  {
    PageRead(s, e, p);
    HitsSoFar(pages, s.procs[p].next, query);
  }

  lemma {:induction false} ScanRest(s: State, steps: seq<Step>, p: Pid, s': State, pages: seq<Page>, query: Signature)
    requires Alone(s, steps, p, s') && ScanProgress(s, p, pages, query)
    ensures ScanProgress(s', p, pages, query)
    decreases |steps|
  {
    if steps != [] {
      ScanOnePage(s, steps[0], p, pages, query);
      ScanRest(Apply(s, steps[0]), steps[1..], p, s', pages, query);
    }
  }

  lemma ScanStarts(s: State, p: Pid, query: Signature)
    requires Inv(s) && Enabled(s, BeginScan(p, query))
    ensures ScanProgress(Apply(s, BeginScan(p, query)), p, s.pages, query)
  {
    NoneOnMetapage(s.pages);
  }

  lemma NoneOnMetapage(pages: seq<Page>)
    requires |pages| >= 1 && pages[0].Metapage?
    ensures AllItems(pages[..1]) == []
  {
    assert pages[..1][..0] == [];
  }

  /** A scan that nothing comes between emits what Index.GetBitmap returns. */
  lemma ScanAlone(s: State, steps: seq<Step>, p: Pid, query: Signature, s': State)
    requires Inv(s) && Enabled(s, BeginScan(p, query)) && Alone(Apply(s, BeginScan(p, query)), steps, p, s')
    requires Enabled(s', FinishScan(p))
    ensures s'.procs[p].out == Hits(AllItems(s.pages), query)
  {
    ScanStarts(s, p, query);
    ScanRest(Apply(s, BeginScan(p, query)), steps, p, s', s.pages, query);
    ScanEnds(s', p, s.pages, query);
  }

  lemma ScanEnds(s: State, p: Pid, pages: seq<Page>, query: Signature)
    requires ScanProgress(s, p, pages, query) && Enabled(s, FinishScan(p))
    ensures s.procs[p].out == Hits(AllItems(pages), query)
  {
    assert pages[..|pages|] == pages;
  }
}
