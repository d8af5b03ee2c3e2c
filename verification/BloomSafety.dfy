/** Every step of the bloom protocol keeps the invariant, and what that means for whole runs. */
module BloomSafety {
  import opened BloomPage
  import opened BloomProtocol

  // ---------------------------------------------------------------------------------------------
  // The page store

  lemma PlaceKeepsStore(words: nat, pages: seq<Page>, home: map<Tid, Home>, b: nat, t: Tuple)
    requires StoreInv(words, pages, home) && DataBlock(pages, b) && t.tid !in home
    requires Opened(pages[b]).Data? && HasRoom(words, |Opened(pages[b]).items|)
    ensures StoreInv(words, pages[b := Data(Opened(pages[b]).items + [t], false)], home[t.tid := Home(b, t.sign)])
  {
    var items := Opened(pages[b]).items;
    assert TidsOn(pages[b]) == TidsOn(Data(items, false));
    RoomMeansWithin(words, |items|);
    assert forall u :: u in items ==> u.tid in home;
    PlacedTids(items, t);
  }

  lemma PlacedTids(items: seq<Tuple>, t: Tuple)
    ensures TidsOn(Data(items + [t], false)) == TidsOn(Data(items, false)) + {t.tid}
  {
    assert forall u :: u in items + [t] <==> u in items || u == t;
  }

  lemma ExtendKeepsStore(words: nat, pages: seq<Page>, home: map<Tid, Home>)
    requires StoreInv(words, pages, home)
    ensures StoreInv(words, pages + [New], home)
  {
    var pages' := pages + [New];
    forall tid | tid in home
      ensures tid in TidsOn(pages'[home[tid].block])
    {
      assert pages'[home[tid].block] == pages[home[tid].block];
    }
  }

  lemma VacuumKeepsStore(words: nat, pages: seq<Page>, home: map<Tid, Home>, b: nat, dead: set<Tid>)
    requires StoreInv(words, pages, home) && DataBlock(pages, b)
    ensures var after := Vacuumed(pages[b], dead);
            && StoreInv(words, pages[b := after], home - (TidsOn(pages[b]) - TidsOn(after)))
            && TidsOn(after) == TidsOn(pages[b]) - dead
  {
    var page, after := pages[b], Vacuumed(pages[b], dead);
    assert TidsOn(after) == TidsOn(page) - dead by { VacuumedTids(page, dead); }
    VacuumedPageInv(words, page, dead);
    var pages', home' := pages[b := after], home - (TidsOn(page) - TidsOn(after));
    forall tid | tid in home'
      ensures tid in TidsOn(pages'[home'[tid].block])
    {
      if home[tid].block == b { assert tid in TidsOn(page); }
    }
    forall c, t | 0 <= c < |pages'| && pages'[c].Data? && t in pages'[c].items
      ensures t.tid in home' && home'[t.tid] == Home(c, t.sign)
    {
      if c == b {
        if page.Data? { SurvivorsMembers(page.items, dead); }
        assert t in page.items;
        assert t.tid in TidsOn(after);
      } else {
        assert home[t.tid].block == c;
        assert t.tid !in TidsOn(page);
      }
    }
  }

  lemma VacuumedTids(page: Page, dead: set<Tid>)
    requires page.Data? && page.deleted ==> page.items == []
    ensures TidsOn(Vacuumed(page, dead)) == TidsOn(page) - dead
  {
    if page.Data? && !page.deleted {
      var s := Survivors(page.items, dead);
      SurvivorsMembers(page.items, dead);
      NothingDead(page.items, dead);
      assert (set t | t in s :: t.tid) == (set t | t in page.items :: t.tid) - dead;
    }
  }

  lemma VacuumedPageInv(words: nat, page: Page, dead: set<Tid>)
    requires PageInv(words, page)
    ensures PageInv(words, Vacuumed(page, dead))
  {
    if page.Data? {
      var at := SurvivorsInOrder(page.items, dead);
      FewerIsWithin(words, |Survivors(page.items, dead)|, |page.items|);
    }
  }

  // ---------------------------------------------------------------------------------------------
  // Steps that change no page

  lemma BeginInsertKeepsProc(s: State, p: Pid, t: Tuple, q: Pid)
    requires q in s.procs && q != p && ProcInv(s, q) && t.tid !in s.rows
    ensures ProcInv(InsertBegun(s, p, t), q)
  {
  }

  lemma BeginInsertKeepsProcs(s: State, p: Pid, t: Tuple)
    requires ProcsInv(s) && p !in s.procs && t.tid !in s.rows
    ensures ProcsInv(InsertBegun(s, p, t))
  {
    var s' := InsertBegun(s, p, t);
    forall q | q in s.procs ensures ProcInv(s', q) && (s.procs[q].Inserter? ==> s.procs[q].tuple.tid != t.tid) {
      assert ProcInv(s, q);
      BeginInsertKeepsProc(s, p, t, q);
    }
    assert ProcInv(s', p);
  }

  lemma BeginInsertKeeps(s: State, p: Pid, t: Tuple)
    requires Inv(s) && Enabled(s, BeginInsert(p, t))
    ensures Inv(InsertBegun(s, p, t))
  {
    BeginInsertKeepsProcs(s, p, t);
    NewRow(s.rows, s.signs, s.home, t);
  }

  lemma NewRow(rows: map<Tid, Row>, signs: map<Tid, Signature>, home: map<Tid, Home>, t: Tuple)
    requires RowsInv(rows, signs, home) && t.tid !in rows
    ensures RowsInv(rows[t.tid := Pending], signs[t.tid := t.sign], home)
  {
  }

  lemma MoveKeeps(s: State, p: Pid, at: InsertAt, holder: seq<Pid>)
    requires Inv(s) && IsInserter(s, p)
    requires s.procs[p].at.AtLoop? ==> at.AtLoop?
    requires holder == if at.AtLoop? then [p] else s.holder
    requires at.AtLoop? ==> s.holder == [] || s.holder == [p]
    requires InserterInv(s.(holder := holder), p, s.procs[p].(at := at))
    ensures Inv(MovedTo(s, p, at).(holder := holder))
  {
    var s' := MovedTo(s, p, at).(holder := holder);
    assert ProcInv(s, p);
    forall q | q in s'.procs ensures ProcInv(s', q) { assert q != p ==> ProcInv(s, q); }
  }

  lemma KillKeepsProc(s: State, tid: Tid, q: Pid)
    requires q in s.procs && ProcInv(s, q) && tid in s.rows && s.rows[tid].Live?
    ensures ProcInv(Killed(s, tid), q)
  {
  }

  lemma KillKeepsProcs(s: State, tid: Tid)
    requires ProcsInv(s) && tid in s.rows && s.rows[tid].Live?
    ensures ProcsInv(Killed(s, tid))
  {
    forall q | q in s.procs ensures ProcInv(Killed(s, tid), q) {
      assert ProcInv(s, q);
      KillKeepsProc(s, tid, q);
    }
  }

  lemma KillKeeps(s: State, tid: Tid)
    requires Inv(s) && Enabled(s, Kill(tid))
    ensures Inv(Killed(s, tid))
  {
    KillKeepsProcs(s, tid);
    RowsStay(s.rows, s.signs, s.home, s.rows[tid := Dead]);
  }

  /** Rows change, but none becomes live or pending, or goes without its entry having gone. */
  lemma RowsStay(rows: map<Tid, Row>, signs: map<Tid, Signature>, home: map<Tid, Home>, rows': map<Tid, Row>)
    requires RowsInv(rows, signs, home)
    requires forall tid :: tid in rows && tid in home ==> tid in rows' && !rows'[tid].Pending?
    requires forall tid :: tid in rows' && rows'[tid].Live? ==> tid in rows && rows[tid].Live?
    ensures RowsInv(rows', signs, home)
  {
  }

  lemma BeginVacuumKeepsProc(s: State, p: Pid, dead: set<Tid>, q: Pid)
    requires q in s.procs && q != p && ProcInv(s, q) && forall tid :: tid in dead ==> tid in s.rows && s.rows[tid].Dead?
    ensures ProcInv(VacuumBegun(s, p, dead), q)
  {
  }

  lemma BeginVacuumKeepsProcs(s: State, p: Pid, dead: set<Tid>)
    requires ProcsInv(s) && p !in s.procs && StoreInv(s.words, s.pages, s.home)
    requires forall tid :: tid in dead ==> tid in s.rows && s.rows[tid].Dead?
    ensures ProcsInv(VacuumBegun(s, p, dead))
  {
    var s' := VacuumBegun(s, p, dead);
    forall q | q in s.procs ensures ProcInv(s', q) {
      assert ProcInv(s, q);
      BeginVacuumKeepsProc(s, p, dead, q);
    }
    assert ProcInv(s', p);
  }

  lemma BeginVacuumKeeps(s: State, p: Pid, dead: set<Tid>)
    requires Inv(s) && Enabled(s, BeginVacuum(p, dead))
    ensures Inv(VacuumBegun(s, p, dead))
  {
    BeginVacuumKeepsProcs(s, p, dead);
    RowsStay(s.rows, s.signs, s.home, WithRows(s.rows, dead, Reaping(p)));
  }

  lemma FinishVacuumKeepsProc(s: State, p: Pid, q: Pid)
    requires p in s.procs && s.procs[p].Vacuum? && ProcInv(s, p) && s.holder == [] && MetaInv(s.meta, s.pages)
    requires q in s.procs && q != p && ProcInv(s, q)
    ensures ProcInv(VacuumFinished(s, p), q)
  {
  }

  lemma FinishVacuumKeepsProcs(s: State, p: Pid)
    requires ProcsInv(s) && p in s.procs && s.procs[p].Vacuum? && s.holder == [] && MetaInv(s.meta, s.pages)
    requires |s.procs[p].found| <= |s.meta.notFull|
    ensures ProcsInv(VacuumFinished(s, p))
  {
    assert ProcInv(s, p);
    forall q | q in s.procs && q != p ensures ProcInv(VacuumFinished(s, p), q) {
      assert ProcInv(s, q);
      FinishVacuumKeepsProc(s, p, q);
    }
  }

  lemma FinishVacuumKeeps(s: State, p: Pid)
    requires Inv(s) && Enabled(s, FinishVacuum(p))
    ensures Inv(ApplyVacuum(s, FinishVacuum(p)))
  {
    assert ProcInv(s, p);
    FinishVacuumKeepsProcs(s, p);
    RowsStay(s.rows, s.signs, s.home, s.rows - s.procs[p].dead);
  }

  lemma FailVacuumKeepsProc(s: State, p: Pid, q: Pid)
    requires p in s.procs && s.procs[p].Vacuum? && ProcInv(s, p)
    requires q in s.procs && q != p && ProcInv(s, q)
    ensures ProcInv(VacuumFailed(s, p), q)
  {
  }

  lemma FailVacuumKeepsProcs(s: State, p: Pid)
    requires ProcsInv(s) && p in s.procs && s.procs[p].Vacuum?
    ensures ProcsInv(VacuumFailed(s, p))
  {
    assert ProcInv(s, p);
    forall q | q in s.procs && q != p ensures ProcInv(VacuumFailed(s, p), q) {
      assert ProcInv(s, q);
      FailVacuumKeepsProc(s, p, q);
    }
  }

  lemma FailVacuumKeeps(s: State, p: Pid)
    requires Inv(s) && Enabled(s, FailVacuum(p))
    ensures Inv(VacuumFailed(s, p))
  {
    FailVacuumKeepsProcs(s, p);
    RowsStay(s.rows, s.signs, s.home, WithRows(s.rows, s.procs[p].dead, Dead));
  }

  lemma BeginScanKeeps(s: State, p: Pid, query: Signature)
    requires Inv(s) && Enabled(s, BeginScan(p, query))
    ensures Inv(ScanBegun(s, p, query))
  {
    var s' := ScanBegun(s, p, query);
    forall q | q in s'.procs ensures ProcInv(s', q) { assert q != p ==> ProcInv(s, q); }
  }

  lemma ScanPageKeepsSelf(s: State, p: Pid)
    requires p in s.procs && s.procs[p].Scan? && s.procs[p].next < |s.pages| && ProcInv(s, p)
    requires StoreInv(s.words, s.pages, s.home)
    ensures ProcInv(PageScanned(s, p), p)
  {
    var s', c := PageScanned(s, p), s.procs[p];
    forall tid | tid in c.owed && s.home[tid].block == c.next && Matches(s.home[tid].sign, c.query)
      ensures tid in s'.procs[p].out
    {
      var t :| t in s.pages[c.next].items && t.tid == tid;
    }
  }

  lemma ScanPageKeepsProcs(s: State, p: Pid)
    requires ProcsInv(s) && p in s.procs && s.procs[p].Scan? && s.procs[p].next < |s.pages|
    requires StoreInv(s.words, s.pages, s.home)
    ensures ProcsInv(PageScanned(s, p))
  {
    assert ProcInv(s, p);
    ScanPageKeepsSelf(s, p);
    forall q | q in s.procs && q != p ensures ProcInv(PageScanned(s, p), q) { assert ProcInv(s, q); }
  }

  lemma ScanPageKeeps(s: State, p: Pid)
    requires Inv(s) && p in s.procs && s.procs[p].Scan? && s.procs[p].next < |s.pages|
    ensures Inv(PageScanned(s, p))
  {
    ScanPageKeepsProcs(s, p);
  }

  lemma FinishScanKeeps(s: State, p: Pid)
    requires Inv(s) && Enabled(s, FinishScan(p))
    ensures Inv(s.(procs := s.procs - {p}))
  {
    var s' := s.(procs := s.procs - {p});
    forall q | q in s'.procs ensures ProcInv(s', q) { assert ProcInv(s, q); }
  }

  // ---------------------------------------------------------------------------------------------
  // Steps that change a page

  lemma PlaceKeepsProc(s: State, p: Pid, b: nat, meta: Meta, q: Pid)
    requires Inv(s) && IsInserter(s, p) && DataBlock(s.pages, b) && Takes(s, b)
    requires meta != s.meta ==> s.holder == [p]
    requires q in s.procs && q != p
    ensures ProcInv(Placed(s, p, b).(meta := meta), q)
  {
    assert ProcInv(s, p) && ProcInv(s, q);
  }

  lemma PlaceKeeps(s: State, p: Pid, b: nat, meta: Meta)
    requires Inv(s) && IsInserter(s, p) && DataBlock(s.pages, b) && Takes(s, b)
    requires MetaInv(meta, s.pages) && (meta != s.meta ==> s.holder == [p])
    ensures Inv(Placed(s, p, b).(meta := meta))
  {
    var s' := Placed(s, p, b).(meta := meta);
    assert ProcInv(s, p);
    PlaceKeepsStore(s.words, s.pages, s.home, b, s.procs[p].tuple);
    assert RowsInv(s'.rows, s'.signs, s'.home);
    assert ProcsInv(s') by {
      forall q | q in s'.procs ensures ProcInv(s', q) { PlaceKeepsProc(s, p, b, meta, q); }
    }
  }

  lemma GrowKeeps(s: State)
    requires Inv(s)
    ensures Inv(s.(pages := s.pages + [New]))
  {
    var s' := s.(pages := s.pages + [New]);
    ExtendKeepsStore(s.words, s.pages, s.home);
    forall q | q in s'.procs ensures ProcInv(s', q) { assert ProcInv(s, q); }
  }

  /** The insert is given up: its row is dead. */
  function InsertFailed(s: State, p: Pid): State
    requires IsInserter(s, p)
  {
    Ended(s, p).(rows := s.rows[s.procs[p].tuple.tid := Dead])
  }

  lemma FailInsertKeepsProc(s: State, p: Pid, q: Pid)
    requires IsInserter(s, p) && ProcInv(s, p) && q in s.procs && q != p && ProcInv(s, q)
    requires s.procs[q].Inserter? ==> s.procs[p].tuple.tid != s.procs[q].tuple.tid
    ensures ProcInv(InsertFailed(s, p), q)
  {
  }

  lemma FailInsertKeepsProcs(s: State, p: Pid)
    requires ProcsInv(s) && IsInserter(s, p)
    ensures ProcsInv(InsertFailed(s, p))
  {
    assert ProcInv(s, p);
    forall q | q in s.procs && q != p ensures ProcInv(InsertFailed(s, p), q) {
      assert ProcInv(s, q);
      FailInsertKeepsProc(s, p, q);
    }
  }

  lemma FailInsertKeeps(s: State, p: Pid)
    requires Inv(s) && IsInserter(s, p)
    ensures Inv(InsertFailed(s, p))
  {
    FailInsertKeepsProcs(s, p);
    RowsStay(s.rows, s.signs, s.home, InsertFailed(s, p).rows);
  }

  /** The TIDs a page loses to vacuum. */
  function Gone(page: Page, dead: set<Tid>): set<Tid> { TidsOn(page) - TidsOn(Vacuumed(page, dead)) }

  lemma VacuumPageKeepsOther(s: State, p: Pid, q: Pid)
    requires Inv(s) && p in s.procs && s.procs[p].Vacuum? && s.procs[p].next < |s.pages|
    requires Gone(s.pages[s.procs[p].next], s.procs[p].dead) <= s.procs[p].dead
    requires q in s.procs && q != p
    ensures ProcInv(PageVacuumed(s, p), q)
  {
    assert ProcInv(s, p) && ProcInv(s, q);
    var s', gone := PageVacuumed(s, p), Gone(s.pages[s.procs[p].next], s.procs[p].dead);
    assert s'.home == s.home - gone && s'.rows == s.rows && |s'.pages| == |s.pages|;
  }

  lemma VacuumPageKeepsSelf(s: State, p: Pid)
    requires Inv(s) && p in s.procs && s.procs[p].Vacuum? && s.procs[p].next < s.procs[p].npages
    requires DataBlock(s.pages, s.procs[p].next)
    requires TidsOn(s.pages[s.procs[p].next]) * s.procs[p].dead <= Gone(s.pages[s.procs[p].next], s.procs[p].dead)
    ensures ProcInv(PageVacuumed(s, p), p)
  {
    assert ProcInv(s, p);
    var v, gone := s.procs[p], Gone(s.pages[s.procs[p].next], s.procs[p].dead);
    assert PageVacuumed(s, p).home == s.home - gone;
    assert forall tid :: tid in v.dead && tid in s.home && s.home[tid].block == v.next ==>
                           tid in TidsOn(s.pages[v.next]);
  }

  lemma VacuumPageKeeps(s: State, p: Pid)
    requires Inv(s) && Enabled(s, VacuumPage(p))
    ensures Inv(ApplyVacuum(s, VacuumPage(p)))
  {
    var s', v := PageVacuumed(s, p), s.procs[p];
    assert ProcInv(s, p);
    VacuumKeepsStore(s.words, s.pages, s.home, v.next, v.dead);
    VacuumedTids(s.pages[v.next], v.dead);
    assert RowsInv(s'.rows, s'.signs, s'.home);
    assert ProcsInv(s') by {
      VacuumPageKeepsSelf(s, p);
      forall q | q in s'.procs && q != p ensures ProcInv(s', q) { VacuumPageKeepsOther(s, p, q); }
    }
  }

  // ---------------------------------------------------------------------------------------------
  // The inserter, step by step

  lemma ReadMetaKeeps(s: State, p: Pid)
    requires Inv(s) && Enabled(s, ReadMeta(p))
    ensures Inv(ApplyInsert(s, ReadMeta(p)))
  {
    assert ProcInv(s, p);
    var at := if s.meta.nEnd > s.meta.nStart then AtFirst(s.meta.notFull[s.meta.nStart]) else AtSlow([]);
    MoveKeeps(s, p, at, s.holder);
  }

  lemma TryFirstKeeps(s: State, p: Pid)
    requires Inv(s) && Enabled(s, TryFirst(p))
    ensures Inv(ApplyInsert(s, TryFirst(p)))
  {
    assert ProcInv(s, p);
    var b := s.procs[p].at.block;
    if Takes(s, b) {
      PlaceKeeps(s, p, b, s.meta);
    } else {
      MoveKeeps(s, p, AtSlow([b]), s.holder);
    }
  }

  lemma LockMetaKeeps(s: State, p: Pid)
    requires Inv(s) && Enabled(s, LockMeta(p))
    ensures Inv(MetaLocked(s, p))
  {
    assert ProcInv(s, p);
    var n := s.meta.nStart;
    var skip := n < s.meta.nEnd && s.procs[p].at.tried == [s.meta.notFull[n]];
    MoveKeeps(s, p, AtLoop(if skip then n + 1 else n), [p]);
  }

  lemma TryNextKeeps(s: State, p: Pid)
    requires Inv(s) && Enabled(s, TryNext(p))
    ensures Inv(ApplyInsert(s, TryNext(p)))
  {
    assert ProcInv(s, p);
    var n := s.procs[p].at.nStart;
    if Takes(s, s.meta.notFull[n]) { TookNext(s, p, n); } else { PassedNext(s, p, n); }
  }

  lemma PassedNext(s: State, p: Pid, n: nat)
    requires Inv(s) && IsInserter(s, p) && s.procs[p].at == AtLoop(n) && n < s.meta.nEnd
    ensures Inv(MovedTo(s, p, AtLoop(n + 1)))
  {
    assert ProcInv(s, p);
    MoveKeeps(s, p, AtLoop(n + 1), [p]);
  }

  lemma TookNext(s: State, p: Pid, n: nat)
    requires Inv(s) && IsInserter(s, p) && s.procs[p].at == AtLoop(n) && n < s.meta.nEnd && Takes(s, s.meta.notFull[n])
    ensures Inv(Placed(s, p, s.meta.notFull[n]).(meta := s.meta.(nStart := n)))
  {
    assert ProcInv(s, p);
    PlaceKeeps(s, p, s.meta.notFull[n], s.meta.(nStart := n));
  }

  lemma AllocateKeeps(s: State, p: Pid, b: nat)
    requires Inv(s) && IsInserter(s, p) && s.procs[p].at.AtLoop? && b < |s.pages| && Reusable(s.pages[b])
    ensures Inv(Placed(s, p, b).(meta := OnlyPage(s.meta, b)))
  {
    assert ProcInv(s, p);
    EmptyPageHasRoom(s.words);
    PlaceKeeps(s, p, b, OnlyPage(s.meta, b));
  }

  lemma ExtendKeeps(s: State, p: Pid)
    requires Inv(s) && Enabled(s, Extend(p))
    ensures Inv(ApplyInsert(s, Extend(p)))
  {
    GrowKeeps(s);
    AllocateKeeps(s.(pages := s.pages + [New]), p, |s.pages|);
  }

  lemma GiveUpKeeps(s: State, p: Pid, extended: bool)
    requires Inv(s) && Enabled(s, FailInsert(p, extended))
    ensures Inv(ApplyInsert(s, FailInsert(p, extended)))
  {
    if extended {
      GrowKeeps(s);
      FailInsertKeeps(s.(pages := s.pages + [New]), p);
    } else {
      FailInsertKeeps(s, p);
    }
  }

  // ---------------------------------------------------------------------------------------------
  // Runs

  lemma InsertStepKeepsInv(s: State, e: Step)
    requires Inv(s) && OfInsert(e) && Enabled(s, e)
    ensures Inv(ApplyInsert(s, e))
  {
    match e
    case ReadMeta(p) => ReadMetaKeeps(s, p);
    case TryFirst(p) => TryFirstKeeps(s, p);
    case LockMeta(p) => LockMetaKeeps(s, p);
    case TryNext(p) => TryNextKeeps(s, p);
    case Recycle(p, b) => AllocateKeeps(s, p, b);
    case Extend(p) => ExtendKeeps(s, p);
    case FailInsert(p, extended) => GiveUpKeeps(s, p, extended);
  }

  lemma VacuumStepKeepsInv(s: State, e: Step)
    requires Inv(s) && OfVacuum(e) && Enabled(s, e)
    ensures Inv(ApplyVacuum(s, e))
  {
    match e
    case BeginVacuum(p, dead) => BeginVacuumKeeps(s, p, dead);
    case VacuumPage(p) => VacuumPageKeeps(s, p);
    case FinishVacuum(p) => FinishVacuumKeeps(s, p);
    case FailVacuum(p) => FailVacuumKeeps(s, p);
  }

  /** Whatever any process does next, the invariant holds after it. */
  lemma StepKeepsInv(s: State, e: Step)
    requires Inv(s) && Enabled(s, e)
    ensures Inv(Apply(s, e))
  {
    if OfInsert(e) {
      InsertStepKeepsInv(s, e);
    } else if OfVacuum(e) {
      VacuumStepKeepsInv(s, e);
    } else {
      match e
      case BeginInsert(p, t) => BeginInsertKeeps(s, p, t);
      case Kill(tid) => KillKeeps(s, tid);
      case BeginScan(p, query) => BeginScanKeeps(s, p, query);
      case ScanPage(p) =>
        assert ProcInv(s, p);
        ScanPageKeeps(s, p);
      case FinishScan(p) => FinishScanKeeps(s, p);
    }
  }

  /** tid is stored at slot i of block b. */
  ghost predicate At(s: State, tid: Tid, b: int, i: int) {
    0 <= b < |s.pages| && s.pages[b].Data? && 0 <= i < |s.pages[b].items| && s.pages[b].items[i].tid == tid
  }

  ghost predicate Stored(s: State, tid: Tid) { exists b, i :: At(s, tid, b, i) }

  ghost predicate EachOnce(s: State) {
    forall tid, b, i, c, j :: At(s, tid, b, i) && At(s, tid, c, j) ==> b == c && i == j
  }

  /** The rows are those with an entry, all live, and the bookkeeping agrees with the entries. */
  ghost predicate Recorded(s: State) {
    && (forall tid :: tid in s.rows <==> Stored(s, tid))
    && (forall tid :: tid in s.home <==> Stored(s, tid))
    && (forall tid :: tid in s.rows ==> s.rows[tid].Live?)
    && (forall tid, b, i :: At(s, tid, b, i) ==>
          s.home[tid] == Home(b, s.pages[b].items[i].sign) && tid in s.signs && s.signs[tid] == s.home[tid].sign)
  }

  /**
   * A freshly built index: the metapage with an empty list, and behind it data pages in use that hold
   * the entries of the live rows, each once. No process is at work.
   */
  ghost predicate Init(s: State) {
    && s.words <= MAX_WORDS && |s.pages| >= 1 && s.pages[0].Metapage?
    && (forall b :: 1 <= b < |s.pages| ==>
          s.pages[b].Data? && !s.pages[b].deleted && WithinPage(s.words, |s.pages[b].items|))
    && EachOnce(s) && Recorded(s)
    && |s.meta.notFull| == META_BLOCKS && s.meta.nStart == s.meta.nEnd == 0 && s.holder == [] && s.procs == map[]
  }

  lemma InitStore(s: State)
    requires Init(s)
    ensures StoreInv(s.words, s.pages, s.home)
  {
    forall b | 1 <= b < |s.pages| ensures PageInv(s.words, s.pages[b]) {
      forall i, j | 0 <= i < j < |s.pages[b].items| ensures s.pages[b].items[i].tid != s.pages[b].items[j].tid {
        assert At(s, s.pages[b].items[i].tid, b, i) && At(s, s.pages[b].items[j].tid, b, j);
      }
    }
    forall tid | tid in s.home ensures 1 <= s.home[tid].block < |s.pages| && tid in TidsOn(s.pages[s.home[tid].block]) {
      var b, i :| At(s, tid, b, i);
      assert s.pages[b].items[i] in s.pages[b].items;
    }
    forall b, t | 0 <= b < |s.pages| && s.pages[b].Data? && t in s.pages[b].items
      ensures t.tid in s.home && s.home[t.tid] == Home(b, t.sign)
    {
      var i :| 0 <= i < |s.pages[b].items| && s.pages[b].items[i] == t;
      assert At(s, t.tid, b, i);
    }
  }

  lemma InitRows(s: State)
    requires Init(s)
    ensures RowsInv(s.rows, s.signs, s.home)
  {
    forall tid | tid in s.home ensures tid in s.rows && tid in s.signs && s.signs[tid] == s.home[tid].sign {
      var b, i :| At(s, tid, b, i);
    }
  }

  /** What the index build leaves satisfies the protocol's invariant. */
  lemma InitIsInv(s: State)
    requires Init(s)
    ensures Inv(s)
  {
    InitStore(s);
    InitRows(s);
  }

  /** states is a run: it starts from a built index, and every state follows from the one before by an enabled step. */
  ghost predicate Run(states: seq<State>, steps: seq<Step>) {
    && |states| == |steps| + 1 && Init(states[0])
    && forall i :: 0 <= i < |steps| ==> Follows(states[i], steps[i], states[i + 1])
  }

  ghost predicate Follows(s: State, e: Step, s': State) { Inv(s) ==> Enabled(s, e) && s' == Apply(s, e) }

  lemma {:induction false} RunKeepsInv(states: seq<State>, steps: seq<Step>, i: nat)
    requires Run(states, steps) && i < |states|
    ensures Inv(states[i])
  {
    if i == 0 {
      InitIsInv(states[0]);
    } else {
      RunKeepsInv(states, steps, i - 1);
      assert Follows(states[i - 1], steps[i - 1], states[i]);
      StepKeepsInv(states[i - 1], steps[i - 1]);
    }
  }

  lemma RunStep(states: seq<State>, steps: seq<Step>, i: nat)
    requires Run(states, steps) && i < |steps|
    ensures Inv(states[i]) && Enabled(states[i], steps[i]) && states[i + 1] == Apply(states[i], steps[i])
  {
    RunKeepsInv(states, steps, i);
    assert Follows(states[i], steps[i], states[i + 1]);
  }

  lemma AtHome(s: State, tid: Tid, b: int, i: int)
    requires Inv(s) && At(s, tid, b, i)
    ensures tid in s.home && s.home[tid] == Home(b, s.pages[b].items[i].sign)
  {
    assert s.pages[b].items[i] in s.pages[b].items;
  }

  /**
   * In every reachable state each live row has its entry exactly once, on exactly one page, and that
   * page is not deleted; a deleted page is empty; every entry belongs to a completed insert and
   * carries the signature formed for it; and the metapage lists only data pages, within its bounds.
   */
  lemma StoredExactlyOnce(states: seq<State>, steps: seq<Step>, k: nat)
    requires Run(states, steps) && k < |states|
    ensures var s := states[k];
            && (forall tid :: tid in s.rows && s.rows[tid].Live? ==>
                  exists b, i :: At(s, tid, b, i) && !s.pages[b].deleted)
            && (forall tid, b, i, c, j :: At(s, tid, b, i) && At(s, tid, c, j) ==> b == c && i == j)
            && (forall tid, b, i :: At(s, tid, b, i) ==>
                  && tid in s.rows && !s.rows[tid].Pending?
                  && tid in s.signs && s.pages[b].items[i].sign == s.signs[tid])
            && (forall b :: 0 <= b < |s.pages| && s.pages[b].Data? && s.pages[b].deleted ==> s.pages[b].items == [])
            && s.meta.nStart <= s.meta.nEnd <= META_BLOCKS == |s.meta.notFull|
            && (forall i :: s.meta.nStart <= i < s.meta.nEnd ==> DataBlock(s.pages, s.meta.notFull[i]))
  {
    var s := states[k];
    RunKeepsInv(states, steps, k);
    forall tid | tid in s.rows && s.rows[tid].Live?
      ensures exists b, i :: At(s, tid, b, i) && !s.pages[b].deleted
    {
      var b := s.home[tid].block;
      var t :| t in s.pages[b].items && t.tid == tid;
      var i :| 0 <= i < |s.pages[b].items| && s.pages[b].items[i] == t;
      assert At(s, tid, b, i);
    }
    forall tid, b, i, c, j | At(s, tid, b, i) && At(s, tid, c, j)
      ensures b == c && i == j
    {
      AtHome(s, tid, b, i);
      AtHome(s, tid, c, j);
    }
    forall tid, b, i | At(s, tid, b, i)
      ensures tid in s.rows && !s.rows[tid].Pending?
      ensures tid in s.signs && s.pages[b].items[i].sign == s.signs[tid]
    {
      AtHome(s, tid, b, i);
    }
  }

  /** A vacuum that reaches its end has left none of its TIDs in the index, so they may be reused. */
  lemma VacuumRemovesAll(states: seq<State>, steps: seq<Step>, k: nat, p: Pid)
    requires Run(states, steps) && k < |states| && Enabled(states[k], FinishVacuum(p))
    ensures forall tid, b, i :: At(states[k], tid, b, i) ==> tid !in states[k].procs[p].dead
  {
    var s := states[k];
    RunKeepsInv(states, steps, k);
    assert ProcInv(s, p);
    forall tid, b, i | At(s, tid, b, i)
      ensures tid !in s.procs[p].dead
    {
      AtHome(s, tid, b, i);
    }
  }

  /** An insert leaves every other process alone, and the signatures of all TIDs. */
  lemma InsertLeavesOthers(s: State, e: Step, q: Pid)
    requires Inv(s) && OfInsert(e) && Enabled(s, e) && e.p != q && q in s.procs
    ensures q in ApplyInsert(s, e).procs && ApplyInsert(s, e).procs[q] == s.procs[q]
    ensures ApplyInsert(s, e).signs == s.signs
  {
    if e.TryFirst? { assert ProcInv(s, e.p); }
  }

  /** So does a vacuum. */
  lemma VacuumLeavesOthers(s: State, e: Step, q: Pid)
    requires Inv(s) && OfVacuum(e) && Enabled(s, e) && e.p != q && q in s.procs
    ensures q in ApplyVacuum(s, e).procs && ApplyVacuum(s, e).procs[q] == s.procs[q]
    ensures ApplyVacuum(s, e).signs == s.signs
  {
    if !e.BeginVacuum? { assert ProcInv(s, e.p); }
  }

  /** A scan keeps its query, and keeps owing a row until the row is killed or the scan ends. */
  lemma StaysOwed(s: State, e: Step, p: Pid, tid: Tid)
    requires Inv(s) && Enabled(s, e) && p in s.procs && s.procs[p].Scan? && tid in s.procs[p].owed
    requires e != Kill(tid) && e != FinishScan(p)
    ensures var s' := Apply(s, e);
            p in s'.procs && s'.procs[p].Scan? && tid in s'.procs[p].owed && s'.procs[p].query == s.procs[p].query
  {
    if OfInsert(e) {
      InsertLeavesOthers(s, e, p);
    } else if OfVacuum(e) {
      VacuumLeavesOthers(s, e, p);
    } else if e.ScanPage? {
      assert ProcInv(s, e.p);
    }
  }

  /** Only a new row changes the signature that goes with a TID. */
  lemma SignStays(s: State, e: Step, p: Pid, tid: Tid)
    requires Inv(s) && Enabled(s, e) && p in s.procs && s.procs[p].Scan? && tid in s.rows && tid in s.signs
    ensures tid in Apply(s, e).signs && Apply(s, e).signs[tid] == s.signs[tid]
  {
    if OfInsert(e) {
      InsertLeavesOthers(s, e, p);
    } else if OfVacuum(e) {
      VacuumLeavesOthers(s, e, p);
    } else if e.ScanPage? {
      assert ProcInv(s, e.p);
    }
  }

  /** Scan p is at work with this query, and owes the row that tid stood for when it was signed so. */
  ghost predicate Owes(s: State, p: Pid, query: Signature, tid: Tid, sign: Signature) {
    && p in s.procs && s.procs[p].Scan? && s.procs[p].query == query && tid in s.procs[p].owed
    && tid in s.signs && s.signs[tid] == sign
  }

  lemma OwesAtStart(s: State, p: Pid, query: Signature, tid: Tid)
    requires Inv(s) && Enabled(s, BeginScan(p, query)) && tid in s.rows && s.rows[tid].Live?
    ensures tid in s.signs && Owes(Apply(s, BeginScan(p, query)), p, query, tid, s.signs[tid])
  {
  }

  lemma OwesStep(s: State, e: Step, p: Pid, query: Signature, tid: Tid, sign: Signature)
    requires Inv(s) && Enabled(s, e) && Owes(s, p, query, tid, sign)
    requires e != Kill(tid) && e != FinishScan(p)
    ensures Owes(Apply(s, e), p, query, tid, sign)
  {
    assert ProcInv(s, p);
    StaysOwed(s, e, p, tid);
    SignStays(s, e, p, tid);
  }

  lemma {:induction false} OwedSinceStart(
    states: seq<State>, steps: seq<Step>, j: nat, k: nat, p: Pid, query: Signature, tid: Tid)
    requires Run(states, steps) && j < k < |states| && steps[j] == BeginScan(p, query)
    requires tid in states[j].rows && states[j].rows[tid].Live?
    requires forall i :: j <= i < k ==> steps[i] != Kill(tid) && steps[i] != FinishScan(p)
    ensures tid in states[j].signs && Owes(states[k], p, query, tid, states[j].signs[tid])
  {
    RunStep(states, steps, k - 1);
    if k - 1 == j {
      OwesAtStart(states[j], p, query, tid);
    } else {
      OwedSinceStart(states, steps, j, k - 1, p, query, tid);
      OwesStep(states[k - 1], steps[k - 1], p, query, tid, states[j].signs[tid]);
    }
  }

  /**
   * A scan that reaches its end has emitted every row that was live when it began and was not killed
   * since, whatever inserts and vacuums ran meanwhile, if the row's signature contains the query's.
   */
  lemma ScanMissesNothing(
    states: seq<State>, steps: seq<Step>, j: nat, k: nat, p: Pid, query: Signature, tid: Tid)
    requires Run(states, steps) && j < k < |states|
    requires steps[j] == BeginScan(p, query) && Enabled(states[k], FinishScan(p))
    requires forall n :: j <= n < k ==> steps[n] != Kill(tid) && steps[n] != FinishScan(p)
    requires tid in states[j].rows && states[j].rows[tid].Live?
    requires tid in states[j].signs && Matches(states[j].signs[tid], query)
    ensures tid in states[k].procs[p].out
  {
    RunKeepsInv(states, steps, k);
    OwedSinceStart(states, steps, j, k, p, query, tid);
    assert ProcInv(states[k], p);
  }

  /** What happens to the result of a scan in one step: nothing, or the hits of its next page come behind it. */
  lemma ResultStep(s: State, e: Step, p: Pid)
    requires Inv(s) && Enabled(s, e) && p in s.procs && s.procs[p].Scan? && e != FinishScan(p)
    ensures var s' := Apply(s, e);
            && p in s'.procs && s'.procs[p].Scan? && s'.procs[p].query == s.procs[p].query
            && (e != ScanPage(p) ==> s'.procs[p].out == s.procs[p].out)
            && (e == ScanPage(p) ==>
                  && s'.procs[p].next == s.procs[p].next + 1 && s.procs[p].next < |s.pages|
                  && s'.procs[p].out == s.procs[p].out + PageHits(s.pages[s.procs[p].next], s.procs[p].query))
  {
    if OfInsert(e) {
      InsertLeavesOthers(s, e, p);
    } else if OfVacuum(e) {
      VacuumLeavesOthers(s, e, p);
    } else if e.ScanPage? {
      assert ProcInv(s, e.p);
    }
  }

  /** The matching TIDs of a page in use. */
  function PageHits(page: Page, query: Signature): seq<Tid> {
    if page.Data? && !page.deleted then Hits(page.items, query) else []
  }

  /** At state m the scan looks at a page on which tid is stored with a signature that contains the query. */
  ghost predicate Looked(states: seq<State>, steps: seq<Step>, m: nat, p: Pid, query: Signature, tid: Tid) {
    && m < |steps| && m < |states| && steps[m] == ScanPage(p)
    && exists b, i :: At(states[m], tid, b, i) && Matches(states[m].pages[b].items[i].sign, query)
  }

  lemma HitWasStored(s: State, b: nat, query: Signature, tid: Tid)
    requires b < |s.pages| && tid in PageHits(s.pages[b], query)
    ensures exists b, i :: At(s, tid, b, i) && Matches(s.pages[b].items[i].sign, query)
  {
    var t :| t in s.pages[b].items && t.tid == tid && Matches(t.sign, query);
    var i :| 0 <= i < |s.pages[b].items| && s.pages[b].items[i] == t;
    assert At(s, tid, b, i);
  }

  /** A scan emits only TIDs that were stored, when it looked, with a signature that contains the query. */
  lemma {:induction false} ScanEmitsOnlyMatches(
    states: seq<State>, steps: seq<Step>, j: nat, k: nat, p: Pid, query: Signature, tid: Tid)
    requires Run(states, steps) && j < k < |states| && steps[j] == BeginScan(p, query)
    requires forall n :: j <= n < k ==> steps[n] != FinishScan(p)
    ensures p in states[k].procs && states[k].procs[p].Scan? && states[k].procs[p].query == query
    ensures tid in states[k].procs[p].out ==> exists m: nat :: j < m < k && Looked(states, steps, m, p, query, tid)
  {
    RunStep(states, steps, k - 1);
    if k - 1 > j {
      ScanEmitsOnlyMatches(states, steps, j, k - 1, p, query, tid);
      ResultStep(states[k - 1], steps[k - 1], p);
      var s := states[k - 1];
      if tid in states[k].procs[p].out && tid !in s.procs[p].out {
        HitWasStored(s, s.procs[p].next, query, tid);
        assert Looked(states, steps, k - 1, p, query, tid);
      }
    }
  }
}
