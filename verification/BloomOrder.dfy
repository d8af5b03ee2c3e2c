/** Entries do not overtake each other: what every step of the bloom protocol does to the order on a page. */
module BloomOrder {
  import opened BloomPage
  import opened BloomProtocol
  import opened BloomSafety

  function ItemsOf(p: Page): seq<Tuple> { if p.Data? then p.items else [] }

  ghost predicate Distinct(items: seq<Tuple>) {
    forall i, j :: 0 <= i < j < |items| ==> items[i].tid != items[j].tid
  }

  /** TIDs that are in both are in the same order. */
  ghost predicate KeepsOrder(a: seq<Tuple>, b: seq<Tuple>) {
    forall i, j, k, l :: 0 <= i < j < |a| && 0 <= k < |b| && 0 <= l < |b| ==>
      a[i].tid == b[k].tid && a[j].tid == b[l].tid ==> k < l
  }

  lemma SamePageKeepsOrder(items: seq<Tuple>)
    requires Distinct(items)
    ensures KeepsOrder(items, items)
  {
  }

  lemma AppendKeepsOrder(items: seq<Tuple>, t: Tuple)
    requires Distinct(items) && forall i :: 0 <= i < |items| ==> items[i].tid != t.tid
    ensures KeepsOrder(items, items + [t])
  {
    assert Distinct(items + [t]);
  }

  lemma SurvivorsKeepOrder(items: seq<Tuple>, dead: set<Tid>)
    requires Distinct(items)
    ensures KeepsOrder(items, Survivors(items, dead))
  {
    var at := SurvivorsInOrder(items, dead);
    var b := Survivors(items, dead);
    forall i, j, k, l | 0 <= i < j < |items| && 0 <= k < |b| && 0 <= l < |b|
                        && items[i].tid == b[k].tid && items[j].tid == b[l].tid
      ensures k < l
    {
      assert at[k] == i && at[l] == j;
    }
  }

  lemma PageDistinct(s: State, b: nat)
    requires Inv(s) && b < |s.pages|
    ensures Distinct(ItemsOf(s.pages[b])) && KeepsOrder(ItemsOf(s.pages[b]), ItemsOf(s.pages[b]))
  {
    if b > 0 { assert PageInv(s.words, s.pages[b]); }
    SamePageKeepsOrder(ItemsOf(s.pages[b]));
  }

  /** The tuple of an insert under way can be appended to the page. */
  ghost predicate CanTake(page: Page, t: Tuple) {
    && Distinct(ItemsOf(page)) && ItemsOf(Opened(page)) == ItemsOf(page)
    && forall i :: 0 <= i < |ItemsOf(page)| ==> ItemsOf(page)[i].tid != t.tid
  }

  lemma InserterCanTake(s: State, p: Pid, b: nat)
    requires Inv(s) && IsInserter(s, p) && b < |s.pages|
    ensures CanTake(s.pages[b], s.procs[p].tuple)
  {
    assert ProcInv(s, p);
    PageDistinct(s, b);
    if b > 0 { assert PageInv(s.words, s.pages[b]); }
    var items := ItemsOf(s.pages[b]);
    forall i | 0 <= i < |items| ensures items[i].tid != s.procs[p].tuple.tid { assert items[i] in s.pages[b].items; }
  }

  /** What an insert does to a page: nothing, or its tuple is appended. */
  lemma InsertOnPage(s: State, e: Step, b: nat)
    requires Inv(s) && OfInsert(e) && Enabled(s, e) && b < |s.pages|
    ensures var s' := ApplyInsert(s, e);
            b < |s'.pages|
            && (s'.pages[b] == s.pages[b]
                || s'.pages[b] == Data(ItemsOf(Opened(s.pages[b])) + [s.procs[e.p].tuple], false))
  {
    if e.TryFirst? { assert ProcInv(s, e.p); }
  }

  lemma InsertKeepsOrder(s: State, e: Step, b: nat)
    requires Inv(s) && OfInsert(e) && Enabled(s, e) && b < |s.pages|
    ensures b < |ApplyInsert(s, e).pages|
    ensures KeepsOrder(ItemsOf(s.pages[b]), ItemsOf(ApplyInsert(s, e).pages[b]))
  {
    InsertOnPage(s, e, b);
    InserterCanTake(s, e.p, b);
    TakenInOrder(s.pages[b], s.procs[e.p].tuple);
  }

  lemma TakenInOrder(page: Page, t: Tuple)
    requires CanTake(page, t)
    ensures KeepsOrder(ItemsOf(page), ItemsOf(page))
    ensures KeepsOrder(ItemsOf(page), ItemsOf(Opened(page)) + [t])
  {
    SamePageKeepsOrder(ItemsOf(page));
    AppendKeepsOrder(ItemsOf(page), t);
  }

  lemma VacuumedKeepsOrder(page: Page, dead: set<Tid>)
    requires Distinct(ItemsOf(page))
    ensures KeepsOrder(ItemsOf(page), ItemsOf(Vacuumed(page, dead)))
  {
    SamePageKeepsOrder(ItemsOf(page));
    SurvivorsKeepOrder(ItemsOf(page), dead);
  }

  lemma VacuumPageKeepsOrder(s: State, p: Pid, b: nat)
    requires p in s.procs && s.procs[p].Vacuum? && s.procs[p].next < |s.pages| && b < |s.pages|
    requires Distinct(ItemsOf(s.pages[b]))
    ensures KeepsOrder(ItemsOf(s.pages[b]), ItemsOf(PageVacuumed(s, p).pages[b]))
  {
    if b == s.procs[p].next {
      VacuumedKeepsOrder(s.pages[b], s.procs[p].dead);
    } else {
      SamePageKeepsOrder(ItemsOf(s.pages[b]));
    }
  }

  lemma VacuumKeepsOrder(s: State, e: Step, b: nat)
    requires Inv(s) && OfVacuum(e) && Enabled(s, e) && b < |s.pages|
    ensures b < |ApplyVacuum(s, e).pages|
    ensures KeepsOrder(ItemsOf(s.pages[b]), ItemsOf(ApplyVacuum(s, e).pages[b]))
  {
    PageDistinct(s, b);
    if e.VacuumPage? {
      assert ProcInv(s, e.p);
      VacuumPageKeepsOrder(s, e.p, b);
    }
  }

  /** No step makes one entry of a page overtake another. */
  lemma StepKeepsOrder(s: State, e: Step, b: nat)
    requires Inv(s) && Enabled(s, e) && b < |s.pages|
    ensures b < |Apply(s, e).pages| && KeepsOrder(ItemsOf(s.pages[b]), ItemsOf(Apply(s, e).pages[b]))
  {
    if OfInsert(e) {
      InsertKeepsOrder(s, e, b);
    } else if OfVacuum(e) {
      VacuumKeepsOrder(s, e, b);
    } else {
      PageDistinct(s, b);
      if e.ScanPage? { assert ProcInv(s, e.p); }
    }
  }

  lemma InsertKeepsHome(s: State, e: Step, tid: Tid)
    requires Inv(s) && OfInsert(e) && Enabled(s, e) && tid in s.home
    ensures tid in ApplyInsert(s, e).home && ApplyInsert(s, e).home[tid] == s.home[tid]
  {
    assert ProcInv(s, e.p);
    assert s.procs[e.p].tuple.tid != tid;
  }

  lemma VacuumKeepsHome(s: State, e: Step, tid: Tid)
    requires Inv(s) && OfVacuum(e) && Enabled(s, e) && tid in s.home && tid in ApplyVacuum(s, e).home
    ensures ApplyVacuum(s, e).home[tid] == s.home[tid]
  {
    if !e.BeginVacuum? { assert ProcInv(s, e.p); }
  }

  /** Nor does a step move an entry to another page. */
  lemma StepKeepsHome(s: State, e: Step, tid: Tid)
    requires Inv(s) && Enabled(s, e) && tid in s.home && tid in Apply(s, e).home
    ensures Apply(s, e).home[tid] == s.home[tid]
  {
    if OfInsert(e) {
      InsertKeepsHome(s, e, tid);
    } else if OfVacuum(e) {
      VacuumKeepsHome(s, e, tid);
    } else if e.ScanPage? {
      assert ProcInv(s, e.p);
    }
  }

  /** Both TIDs have an entry on block b, the first one's before the second one's. */
  ghost predicate Before(s: State, b: nat, first: Tid, second: Tid) {
    exists i, j :: 0 <= i < j && At(s, first, b, i) && At(s, second, b, j)
  }

  ghost predicate BothStored(s: State, first: Tid, second: Tid) { Stored(s, first) && Stored(s, second) }

  lemma AtSamePlace(s: State, e: Step, tid: Tid, b: nat, i: nat) returns (k: nat)
    requires Inv(s) && Enabled(s, e) && At(s, tid, b, i) && Stored(Apply(s, e), tid)
    ensures At(Apply(s, e), tid, b, k)
  {
    var s' := Apply(s, e);
    var c, l :| At(s', tid, c, l);
    StepKeepsInv(s, e);
    AtHome(s, tid, b, i);
    AtHome(s', tid, c, l);
    StepKeepsHome(s, e, tid);
    k := l;
  }

  lemma StepKeepsBefore(s: State, e: Step, b: nat, first: Tid, second: Tid)
    requires Inv(s) && Enabled(s, e) && Before(s, b, first, second)
    requires BothStored(Apply(s, e), first, second)
    ensures Before(Apply(s, e), b, first, second)
  {
    var i, j :| 0 <= i < j && At(s, first, b, i) && At(s, second, b, j);
    var k := AtSamePlace(s, e, first, b, i);
    var l := AtSamePlace(s, e, second, b, j);
    StepKeepsOrder(s, e, b);
    assert ItemsOf(s.pages[b])[i].tid == ItemsOf(Apply(s, e).pages[b])[k].tid;
  }

  lemma RunKeepsBefore(states: seq<State>, steps: seq<Step>, n: nat, b: nat, first: Tid, second: Tid)
    requires Run(states, steps) && n < |steps|
    requires Before(states[n], b, first, second) && BothStored(states[n + 1], first, second)
    ensures Before(states[n + 1], b, first, second)
  {
    RunStep(states, steps, n);
    StepKeepsBefore(states[n], steps[n], b, first, second);
  }

  /** In every run, two entries of a page keep their order for as long as both are stored. */
  lemma {:induction false} OrderKept(
    states: seq<State>, steps: seq<Step>, m: nat, n: nat, b: nat, first: Tid, second: Tid)
    requires Run(states, steps) && m <= n < |states| && Before(states[m], b, first, second)
    requires forall k :: m <= k <= n ==> BothStored(states[k], first, second)
    ensures Before(states[n], b, first, second)
  {
    if m < n {
      OrderKept(states, steps, m, n - 1, b, first, second);
      assert BothStored(states[n], first, second);
      RunKeepsBefore(states, steps, n - 1, b, first, second);
    }
  }
}
