/**
 * The bloom index under concurrency. Each transition is what one process does between taking and
 * releasing a buffer lock: blinsert's fast and slow path, page allocation, blbulkdelete page by page
 * and its final metapage update, and blgetbitmap page by page. Any number of processes interleave.
 */
module BloomProtocol {
  import opened BloomPage
  import Words

  type Tid = nat
  type Pid = nat

  /** BloomMetaBlockN: block numbers that fit in the metapage beside its header and options. */
  const META_BLOCKS: nat := 2004

  /** notFullPage[nStart..nEnd] are the pages believed to have room. */
  datatype Meta = Meta(nStart: nat, nEnd: nat, notFull: seq<nat>)

  /** Where an inserter stands between two lock-delimited steps. */
  datatype InsertAt =
    | AtStart                          // about to read the metapage under a share lock
    | AtFirst(block: nat)              // about to try the page it read there
    | AtSlow(tried: seq<nat>)          // about to lock the metapage exclusively; tried is empty or one block
    | AtLoop(nStart: nat)              // holds the metapage, about to try notFullPage[nStart]

  datatype Proc =
    | Inserter(tuple: Tuple, at: InsertAt)
    | Vacuum(dead: set<Tid>, npages: nat, next: nat, found: seq<nat>)
    | Scan(query: Signature, npages: nat, next: nat, out: seq<Tid>, owed: set<Tid>)

  /**
   * What the heap says about a TID that is in use: an insert is under way, its row counts, its row
   * is dead, or a vacuum is removing its entry. A TID that is not in use may be given to a new row.
   */
  datatype Row = Pending | Live | Dead | Reaping(vacuum: Pid)

  /** Bookkeeping of where the entry of a TID lies, and with which signature. */
  datatype Home = Home(block: nat, sign: Signature)

  datatype State = State(
    words: nat,
    pages: seq<Page>,
    meta: Meta,
    holder: seq<Pid>,                  // process holding the metapage exclusively; empty or one
    procs: map<Pid, Proc>,
    rows: map<Tid, Row>,
    signs: map<Tid, Signature>,        // the signature formed for the latest row given each TID
    home: map<Tid, Home>)

  // ---------------------------------------------------------------------------------------------
  // Steps

  datatype Step =
    | BeginInsert(p: Pid, t: Tuple)
    | ReadMeta(p: Pid)
    | TryFirst(p: Pid)
    | LockMeta(p: Pid)
    | TryNext(p: Pid)
    | Recycle(p: Pid, block: nat)
    | Extend(p: Pid)
    | FailInsert(p: Pid, extended: bool)
    | Kill(tid: Tid)
    | BeginVacuum(p: Pid, dead: set<Tid>)
    | VacuumPage(p: Pid)
    | FinishVacuum(p: Pid)
    | FailVacuum(p: Pid)
    | BeginScan(p: Pid, query: Signature)
    | ScanPage(p: Pid)
    | FinishScan(p: Pid)

  predicate IsInserter(s: State, p: Pid) { p in s.procs && s.procs[p].Inserter? }

  /** BloomPageAddItem succeeds on the page, after reinitialising it if it is new or deleted. */
  predicate Takes(s: State, block: nat)
    requires block < |s.pages|
  {
    var p := Opened(s.pages[block]);
    p.Data? && HasRoom(s.words, |p.items|)
  }

  /** blgetbitmap's test: every word of the query is contained in the tuple's word. */
  predicate Matches(sign: Signature, query: Signature) {
    |sign| == |query| && forall i :: 0 <= i < |sign| ==> Words.And(sign[i], query[i]) == query[i]
  }

  predicate Enabled(s: State, e: Step) {
    match e
    case BeginInsert(p, t) => p !in s.procs && t.tid !in s.rows
    case ReadMeta(p) => IsInserter(s, p) && s.procs[p].at.AtStart? && s.holder == []
    case TryFirst(p) => IsInserter(s, p) && s.procs[p].at.AtFirst?
    case LockMeta(p) => IsInserter(s, p) && s.procs[p].at.AtSlow? && s.holder == []
    case TryNext(p) => IsInserter(s, p) && s.procs[p].at.AtLoop? && s.procs[p].at.nStart < s.meta.nEnd
    case Recycle(p, b) =>
      && IsInserter(s, p) && s.procs[p].at.AtLoop? && s.procs[p].at.nStart >= s.meta.nEnd
      && b < |s.pages| && Reusable(s.pages[b])
    case Extend(p) => IsInserter(s, p) && s.procs[p].at.AtLoop? && s.procs[p].at.nStart >= s.meta.nEnd
    case FailInsert(p, extended) => IsInserter(s, p) && (extended ==> s.procs[p].at.AtLoop?)
    case Kill(tid) => tid in s.rows && s.rows[tid].Live?
    case BeginVacuum(p, dead) =>
      p !in s.procs && forall tid :: tid in dead ==> tid in s.rows && s.rows[tid].Dead?
    case VacuumPage(p) => p in s.procs && s.procs[p].Vacuum? && s.procs[p].next < s.procs[p].npages
    case FinishVacuum(p) =>
      p in s.procs && s.procs[p].Vacuum? && s.procs[p].next >= s.procs[p].npages && s.holder == []
    case FailVacuum(p) => p in s.procs && s.procs[p].Vacuum?
    case BeginScan(p, query) => p !in s.procs
    case ScanPage(p) => p in s.procs && s.procs[p].Scan? && s.procs[p].next < s.procs[p].npages
    case FinishScan(p) => p in s.procs && s.procs[p].Scan? && s.procs[p].next >= s.procs[p].npages
  }

  // ---------------------------------------------------------------------------------------------
  // The invariant

  function TidsOn(p: Page): set<Tid> { if p.Data? then set t | t in p.items :: t.tid else {} }

  ghost predicate PageInv(words: nat, p: Page) {
    p.Data? ==>
      && WithinPage(words, |p.items|)
      && (forall i, j :: 0 <= i < j < |p.items| ==> p.items[i].tid != p.items[j].tid)
      && (p.deleted ==> p.items == [])
  }

  /** Every entry lies where home says, home names nothing else, and pages are within bounds. */
  ghost predicate StoreInv(words: nat, pages: seq<Page>, home: map<Tid, Home>) {
    && words <= MAX_WORDS && |pages| >= 1 && pages[0].Metapage?
    && (forall b :: 1 <= b < |pages| ==> !pages[b].Metapage? && PageInv(words, pages[b]))
    && (forall tid :: tid in home ==> 1 <= home[tid].block < |pages| && tid in TidsOn(pages[home[tid].block]))
    && (forall b, t :: 0 <= b < |pages| && pages[b].Data? && t in pages[b].items ==>
          t.tid in home && home[t.tid] == Home(b, t.sign))
  }

  ghost predicate DataBlock(pages: seq<Page>, b: nat) { 1 <= b < |pages| }

  ghost predicate MetaInv(m: Meta, pages: seq<Page>) {
    && m.nStart <= m.nEnd <= META_BLOCKS == |m.notFull|
    && forall i :: 0 <= i < m.nEnd ==> DataBlock(pages, m.notFull[i])
  }

  /** Only entries of completed inserts are stored, as they were formed, and every live row has one. */
  ghost predicate RowsInv(rows: map<Tid, Row>, signs: map<Tid, Signature>, home: map<Tid, Home>) {
    && (forall tid :: tid in home ==> tid in rows && !rows[tid].Pending?)
    && (forall tid :: tid in home ==> tid in signs && signs[tid] == home[tid].sign)
    && (forall tid :: tid in rows && rows[tid].Live? ==> tid in home)
  }

  ghost predicate InserterInv(s: State, p: Pid, i: Proc)
    requires i.Inserter?
  {
    && i.tuple.tid in s.rows && s.rows[i.tuple.tid].Pending?
    && i.tuple.tid in s.signs && s.signs[i.tuple.tid] == i.tuple.sign
    && (i.at.AtFirst? ==> DataBlock(s.pages, i.at.block))
    && (i.at.AtSlow? ==> |i.at.tried| <= 1)
    && (i.at.AtLoop? ==> s.holder == [p] && s.meta.nStart <= i.at.nStart <= s.meta.nEnd)
  }

  /** What a vacuum has yet to remove lies on pages it has yet to visit. */
  ghost predicate VacuumInv(s: State, p: Pid, v: Proc)
    requires v.Vacuum?
  {
    && v.npages <= |s.pages| && 1 <= v.next && |v.found| <= META_BLOCKS
    && (forall i :: 0 <= i < |v.found| ==> DataBlock(s.pages, v.found[i]))
    && (forall tid :: tid in v.dead ==> tid in s.rows && s.rows[tid] == Reaping(p))
    && (forall tid :: tid in v.dead && tid in s.home ==> v.next <= s.home[tid].block < v.npages)
  }

  /** A row owed to a scan lies on a page the scan covers, and was emitted if its page was passed. */
  ghost predicate ScanInv(s: State, c: Proc)
    requires c.Scan?
  {
    && c.npages <= |s.pages| && 1 <= c.next
    && (forall tid :: tid in c.owed ==> tid in s.rows && s.rows[tid].Live? && tid in s.home)
    && (forall tid :: tid in c.owed ==> s.home[tid].block < c.npages)
    && (forall tid :: tid in c.owed && s.home[tid].block < c.next && Matches(s.home[tid].sign, c.query) ==>
          tid in c.out)
  }

  ghost predicate ProcInv(s: State, p: Pid)
    requires p in s.procs
  {
    match s.procs[p]
    case Inserter(_, _) => InserterInv(s, p, s.procs[p])
    case Vacuum(_, _, _, _) => VacuumInv(s, p, s.procs[p])
    case Scan(_, _, _, _, _) => ScanInv(s, s.procs[p])
  }

  ghost predicate ProcsInv(s: State) {
    && (forall p :: p in s.procs ==> ProcInv(s, p))
    && (forall p, q :: p in s.procs && q in s.procs && p != q && s.procs[p].Inserter? && s.procs[q].Inserter? ==>
          s.procs[p].tuple.tid != s.procs[q].tuple.tid)
    && |s.holder| <= 1
    && (s.holder != [] ==> IsInserter(s, s.holder[0]) && s.procs[s.holder[0]].at.AtLoop?)
  }

  ghost predicate Inv(s: State) {
    StoreInv(s.words, s.pages, s.home) && MetaInv(s.meta, s.pages) && RowsInv(s.rows, s.signs, s.home) && ProcsInv(s)
  }

  // ---------------------------------------------------------------------------------------------
  // Effects

  /** The inserter gives up the metapage if it holds it, and ends. */
  function Ended(s: State, p: Pid): State {
    s.(procs := s.procs - {p}, holder := if s.holder == [p] then [] else s.holder)
  }

  function MovedTo(s: State, p: Pid, at: InsertAt): State
    requires IsInserter(s, p)
  {
    s.(procs := s.procs[p := s.procs[p].(at := at)])
  }

  /** The tuple of inserter p is appended to the (possibly reinitialised) page, and the insert completes. */
  function Placed(s: State, p: Pid, b: nat): State
    requires IsInserter(s, p) && b < |s.pages| && Opened(s.pages[b]).Data?
  {
    var t := s.procs[p].tuple;
    Ended(s, p).(
      pages := s.pages[b := Data(Opened(s.pages[b]).items + [t], false)],
      rows := s.rows[t.tid := Live],
      home := s.home[t.tid := Home(b, t.sign)])
  }

  function OnlyPage(m: Meta, b: nat): Meta
    requires |m.notFull| == META_BLOCKS
  {
    Meta(0, 1, m.notFull[0 := b])
  }

  /** Vacuum of one page: survivors stay in order, and the page is listed if it is kept and has room. */
  function PageVacuumed(s: State, p: Pid): State
    requires p in s.procs && s.procs[p].Vacuum? && s.procs[p].next < |s.pages|
  {
    var v := s.procs[p];
    var page := s.pages[v.next];
    var after := Vacuumed(page, v.dead);
    var gone := TidsOn(page) - TidsOn(after);
    var listed := !Reusable(page) && after.Data? && after.items != []
                  && HasRoom(s.words, |after.items|) && |v.found| < META_BLOCKS;
    s.(pages := s.pages[v.next := after],
       home := s.home - gone,
       procs := s.procs[p := v.(next := v.next + 1, found := if listed then v.found + [v.next] else v.found)])
  }

  function WithRows(rows: map<Tid, Row>, tids: set<Tid>, r: Row): map<Tid, Row> {
    map tid | tid in rows.Keys :: if tid in tids then r else rows[tid]
  }

  /** The TIDs of the matching tuples of a page, in order. */
  function Hits(items: seq<Tuple>, query: Signature): (h: seq<Tid>)
    ensures forall t :: t in items && Matches(t.sign, query) ==> t.tid in h
    ensures forall tid :: tid in h ==> exists t :: t in items && t.tid == tid && Matches(t.sign, query)
  {
    if items == [] then []
    else
      var n := |items| - 1;
      assert items == items[..n] + [items[n]];
      Hits(items[..n], query) + if Matches(items[n].sign, query) then [items[n].tid] else []
  }

  function PageScanned(s: State, p: Pid): State
    requires p in s.procs && s.procs[p].Scan? && s.procs[p].next < |s.pages|
  {
    var c, page := s.procs[p], s.pages[s.procs[p].next];
    var hits := if page.Data? && !page.deleted then Hits(page.items, c.query) else [];
    s.(procs := s.procs[p := c.(next := c.next + 1, out := c.out + hits)])
  }

  function NoLongerOwed(procs: map<Pid, Proc>, tid: Tid): map<Pid, Proc> {
    map p | p in procs.Keys :: if procs[p].Scan? then procs[p].(owed := procs[p].owed - {tid}) else procs[p]
  }

  function InsertBegun(s: State, p: Pid, t: Tuple): State {
    s.(procs := s.procs[p := Inserter(t, AtStart)],
       rows := s.rows[t.tid := Pending], signs := s.signs[t.tid := t.sign])
  }

  /** The metapage is locked and read again; the page already tried is skipped if it is still the first. */
  function MetaLocked(s: State, p: Pid): State
    requires IsInserter(s, p) && s.procs[p].at.AtSlow? && s.meta.nEnd <= |s.meta.notFull|
  {
    var n := s.meta.nStart;
    var skip := n < s.meta.nEnd && s.procs[p].at.tried == [s.meta.notFull[n]];
    MovedTo(s, p, AtLoop(if skip then n + 1 else n)).(holder := [p])
  }

  function Killed(s: State, tid: Tid): State {
    s.(rows := s.rows[tid := Dead], procs := NoLongerOwed(s.procs, tid))
  }

  function VacuumBegun(s: State, p: Pid, dead: set<Tid>): State {
    s.(procs := s.procs[p := Vacuum(dead, |s.pages|, 1, [])], rows := WithRows(s.rows, dead, Reaping(p)))
  }

  /** The list found replaces the metapage's, and the TIDs removed may be used again. */
  function VacuumFinished(s: State, p: Pid): State
    requires p in s.procs && s.procs[p].Vacuum? && |s.procs[p].found| <= |s.meta.notFull|
  {
    var found := s.procs[p].found;
    s.(meta := Meta(0, |found|, found + s.meta.notFull[|found|..]),
       procs := s.procs - {p}, rows := s.rows - s.procs[p].dead)
  }

  function VacuumFailed(s: State, p: Pid): State
    requires p in s.procs && s.procs[p].Vacuum?
  {
    s.(procs := s.procs - {p}, rows := WithRows(s.rows, s.procs[p].dead, Dead))
  }

  /** A scan owes the rows that are live now. */
  function ScanBegun(s: State, p: Pid, query: Signature): State {
    var live := set tid | tid in s.rows.Keys && s.rows[tid].Live?;
    s.(procs := s.procs[p := Scan(query, |s.pages|, 1, [], live)])
  }

  /** What a process does within one insert. */
  predicate OfInsert(e: Step) {
    e.ReadMeta? || e.TryFirst? || e.LockMeta? || e.TryNext? || e.Recycle? || e.Extend? || e.FailInsert?
  }

  ghost function ApplyInsert(s: State, e: Step): State
    requires Inv(s) && OfInsert(e) && Enabled(s, e)
  {
    match e
    case ReadMeta(p) =>
      MovedTo(s, p, if s.meta.nEnd > s.meta.nStart then AtFirst(s.meta.notFull[s.meta.nStart]) else AtSlow([]))
    case TryFirst(p) =>
      assert ProcInv(s, p);
      var b := s.procs[p].at.block;
      if Takes(s, b) then Placed(s, p, b) else MovedTo(s, p, AtSlow([b]))
    case LockMeta(p) => MetaLocked(s, p)
    case TryNext(p) =>
      var n := s.procs[p].at.nStart;
      var b := s.meta.notFull[n];
      if Takes(s, b) then Placed(s, p, b).(meta := s.meta.(nStart := n)) else MovedTo(s, p, AtLoop(n + 1))
    case Recycle(p, b) => Placed(s, p, b).(meta := OnlyPage(s.meta, b))
    case Extend(p) =>
      var grown := s.(pages := s.pages + [New]);
      Placed(grown, p, |s.pages|).(meta := OnlyPage(s.meta, |s.pages|))
    case FailInsert(p, extended) =>
      var after := if extended then s.(pages := s.pages + [New]) else s;
      Ended(after, p).(rows := s.rows[s.procs[p].tuple.tid := Dead])
  }

  /** What a process does within one vacuum. */
  predicate OfVacuum(e: Step) { e.BeginVacuum? || e.VacuumPage? || e.FinishVacuum? || e.FailVacuum? }

  ghost function ApplyVacuum(s: State, e: Step): State
    requires Inv(s) && OfVacuum(e) && Enabled(s, e)
  {
    match e
    case BeginVacuum(p, dead) => VacuumBegun(s, p, dead)
    case VacuumPage(p) => assert ProcInv(s, p); PageVacuumed(s, p)
    case FinishVacuum(p) => assert ProcInv(s, p); VacuumFinished(s, p)
    case FailVacuum(p) => VacuumFailed(s, p)
  }

  ghost function Apply(s: State, e: Step): State
    requires Inv(s) && Enabled(s, e)
  {
    if OfInsert(e) then ApplyInsert(s, e) else if OfVacuum(e) then ApplyVacuum(s, e) else
    match e
    case BeginInsert(p, t) => InsertBegun(s, p, t)
    case Kill(tid) => Killed(s, tid)
    case BeginScan(p, query) => ScanBegun(s, p, query)
    case ScanPage(p) => assert ProcInv(s, p); PageScanned(s, p)
    case FinishScan(p) => s.(procs := s.procs - {p})
  }
}
