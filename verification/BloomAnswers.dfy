/**
 * What a bloom index is for, end to end: signatures, page loops and protocol put together. A row that
 * satisfies the scan keys is in the answer, for a scan on its own and for a scan among other processes.
 */
module BloomAnswers {
  import opened BloomPage
  import opened BloomRandom
  import opened BloomSignature
  import BloomIndex
  import P = BloomProtocol
  import S = BloomSafety

  // ---------------------------------------------------------------------------------------------
  // A scan on its own

  /** The signature is the one BloomFormTuple gives the row. */
  ghost predicate Signs<D>(o: Options, hash: HashFn<D>, row: seq<Column<D>>, sign: Signature)
    requires ValidOptions(o)
  {
    |row| <= |o.bitSize| && |sign| == o.length && BitsOf(sign) == RowBits(o, hash, row)
  }

  lemma {:induction false} HitsMembers(items: seq<Tuple>, query: Signature)
    ensures forall tid :: tid in P.Hits(items, query) <==>
              exists t :: t in items && t.tid == tid && P.Matches(t.sign, query)
  {
    if items != [] {
      var n := |items| - 1;
      HitsMembers(items[..n], query);
      assert items == items[..n] + [items[n]];
    }
  }

  /** The TIDs a scan emits are those of the tuples whose signature has all bits of the keys. */
  lemma HitsByBits<D>(o: Options, hash: HashFn<D>, keys: seq<ScanKey<D>>, items: seq<Tuple>, query: Signature)
    requires ValidOptions(o) && ValidKeys(o, keys)
    requires |query| == o.length && BitsOf(query) == KeyBits(o, hash, keys)
    requires forall t :: t in items ==> |t.sign| == o.length
    ensures forall tid :: tid in P.Hits(items, query) <==>
              exists t :: t in items && t.tid == tid && KeyBits(o, hash, keys) <= BitsOf(t.sign)
  {
    HitsMembers(items, query);
    forall t | t in items ensures P.Matches(t.sign, query) <==> KeyBits(o, hash, keys) <= BitsOf(t.sign) {
      MatchesIsContainment(t.sign, query);
    }
  }

  lemma {:induction false} SignLengths(words: nat, pages: seq<Page>)
    requires forall b :: 0 <= b < |pages| ==> BloomIndex.PageOk(words, pages[b])
    ensures forall t :: t in BloomIndex.AllItems(pages) ==> |t.sign| == words
  {
    if pages != [] {
      var n := |pages| - 1;
      SignLengths(words, pages[..n]);
      assert BloomIndex.PageOk(words, pages[n]);
    }
  }

  /**
   * blgetbitmap from keys to TIDs. Nothing is found for a null key; otherwise the TIDs are those whose
   * signature has all bits of the keys, and so among them every indexed row that satisfies the keys.
   */
  method GetBitmap<D(!new)>(
    index: BloomIndex.Index, o: Options, gen: Generator, hash: HashFn<D>, keys: seq<ScanKey<D>>,
    ghost eq: (nat, D, D) -> bool)
    returns (tids: seq<nat>)
    requires ValidOptions(o) && ValidKeys(o, keys) && index.Valid() && index.words == o.length
    requires RespectsEquality(eq, hash)
    modifies gen
    ensures (exists i :: 0 <= i < |keys| && keys[i].arg.Null?) ==> tids == []
    ensures (forall i :: 0 <= i < |keys| ==> keys[i].arg.Value?) ==>
              forall tid :: tid in tids <==>
                exists t :: t in BloomIndex.AllItems(index.pages) && t.tid == tid
                            && KeyBits(o, hash, keys) <= BitsOf(t.sign)
    ensures forall t, row ::
              t in BloomIndex.AllItems(index.pages) && Signs(o, hash, row, t.sign) && Satisfies(eq, row, keys) ==>
                t.tid in tids
  {
    var hopeless, query := FormQuery(o, gen, hash, keys);
    if hopeless { return []; }
    tids := index.GetBitmap(query);
    ghost var items := BloomIndex.AllItems(index.pages);
    assert BloomIndex.PageOk(index.words, index.pages[0]);
    SignLengths(index.words, index.pages);
    HitsByBits(o, hash, keys, items, query);
    forall t, row | t in items && Signs(o, hash, row, t.sign) && Satisfies(eq, row, keys) ensures t.tid in tids {
      NoFalseNegatives(o, eq, hash, row, keys, t.sign, query);
    }
  }

  // ---------------------------------------------------------------------------------------------
  // A scan among other processes

  /**
   * A scan for keys that reaches its end has emitted every row that satisfies them, if the row was live
   * when the scan began and was not killed since, whatever inserts and vacuums ran meanwhile.
   */
  lemma SatisfyingRowIsEmitted<D(!new)>(
    states: seq<P.State>, steps: seq<P.Step>, j: nat, k: nat, p: P.Pid, query: Signature, tid: P.Tid,
    o: Options, eq: (nat, D, D) -> bool, hash: HashFn<D>, row: seq<Column<D>>, keys: seq<ScanKey<D>>)
    requires S.Run(states, steps) && j < k < |states|
    requires steps[j] == P.BeginScan(p, query) && P.Enabled(states[k], P.FinishScan(p))
    requires forall n :: j <= n < k ==> steps[n] != P.Kill(tid) && steps[n] != P.FinishScan(p)
    requires tid in states[j].rows && states[j].rows[tid].Live?
    requires ValidOptions(o) && ValidKeys(o, keys) && RespectsEquality(eq, hash) && Satisfies(eq, row, keys)
    requires |query| == o.length && BitsOf(query) == KeyBits(o, hash, keys)
    requires tid in states[j].signs && Signs(o, hash, row, states[j].signs[tid])
    ensures tid in states[k].procs[p].out
  {
    NoFalseNegatives(o, eq, hash, row, keys, states[j].signs[tid], query);
    S.ScanMissesNothing(states, steps, j, k, p, query, tid);
  }

  // ---------------------------------------------------------------------------------------------
  // Where runs start

  lemma {:induction false} CountGrows(pages: seq<Page>, b: nat, c: nat)
    requires b <= c <= |pages|
    ensures BloomIndex.CountUpto(pages, b) <= BloomIndex.CountUpto(pages, c)
    decreases c
  {
    if b < c { CountGrows(pages, b, c - 1); }
  }

  lemma AllItemsStep(pages: seq<Page>, n: nat)
    requires 0 < n <= |pages|
    ensures BloomIndex.AllItems(pages[..n]) == BloomIndex.AllItems(pages[..n - 1]) + BloomIndex.ItemsOn(pages[n - 1])
  {
    assert pages[..n][..n - 1] == pages[..n - 1];
  }

  /** Where a tuple of a page is among all tuples. */
  lemma {:induction false} PlaceAmongAll(pages: seq<Page>, n: nat, b: nat, i: nat)
    requires b < n <= |pages| && i < |BloomIndex.ItemsOn(pages[b])|
    ensures var at := BloomIndex.CountUpto(pages, b) + i;
            0 <= at < |BloomIndex.AllItems(pages[..n])|
            && BloomIndex.AllItems(pages[..n])[at] == BloomIndex.ItemsOn(pages[b])[i]
    decreases n
  {
    AllItemsStep(pages, n);
    BloomIndex.CountIsTotal(pages, n - 1);
    if b < n - 1 { PlaceAmongAll(pages, n - 1, b, i); }
  }

  lemma {:induction false} FoundOnPage(pages: seq<Page>, n: nat, t: Tuple) returns (b: nat)
    requires n <= |pages| && t in BloomIndex.AllItems(pages[..n])
    ensures b < n && t in BloomIndex.ItemsOn(pages[b])
  {
    assert pages[..n][..n - 1] == pages[..n - 1];
    if t in BloomIndex.ItemsOn(pages[n - 1]) { b := n - 1; } else { b := FoundOnPage(pages, n - 1, t); }
  }

  ghost predicate DistinctTids(items: seq<Tuple>) {
    forall i, j :: 0 <= i < j < |items| ==> items[i].tid != items[j].tid
  }

  /** Different places of the pages are different among all tuples. */
  lemma PlacesDiffer(pages: seq<Page>, b: nat, i: nat, c: nat, j: nat)
    requires b < |pages| && c < |pages| && i < |BloomIndex.ItemsOn(pages[b])| && j < |BloomIndex.ItemsOn(pages[c])|
    ensures BloomIndex.CountUpto(pages, b) + i == BloomIndex.CountUpto(pages, c) + j ==> b == c && i == j
  {
    if b < c { CountGrows(pages, b + 1, c); } else if c < b { CountGrows(pages, c + 1, b); }
  }

  /** Where a tuple is in the whole index. */
  lemma PlaceInIndex(pages: seq<Page>, b: nat, i: nat)
    requires b < |pages| && i < |BloomIndex.ItemsOn(pages[b])|
    ensures var at := BloomIndex.CountUpto(pages, b) + i;
            0 <= at < |BloomIndex.AllItems(pages)| && BloomIndex.AllItems(pages)[at] == BloomIndex.ItemsOn(pages[b])[i]
  {
    assert pages[..|pages|] == pages;
    PlaceAmongAll(pages, |pages|, b, i);
  }

  /** No TID is on the pages twice. */
  lemma StoredOnce(s: P.State, tid: nat, b: nat, i: nat, c: nat, j: nat)
    requires DistinctTids(BloomIndex.AllItems(s.pages)) && S.At(s, tid, b, i) && S.At(s, tid, c, j)
    ensures b == c && i == j
  {
    PlaceInIndex(s.pages, b, i);
    PlaceInIndex(s.pages, c, j);
    PlacesDiffer(s.pages, b, i, c, j);
  }

  function TidsIn(pages: seq<Page>): set<nat> {
    set b, t | 0 <= b < |pages| && t in BloomIndex.ItemsOn(pages[b]) :: t.tid
  }

  /** The state with these pages in which the stored tuples belong to live rows and nobody is at work. */
  ghost function Built(words: nat, pages: seq<Page>, notFull: seq<nat>): P.State {
    P.State(words, pages, P.Meta(0, 0, notFull), [], map[],
            map tid | tid in TidsIn(pages) :: P.Live, map tid | tid in TidsIn(pages) :: HomeOf(pages, tid).sign,
            map tid | tid in TidsIn(pages) :: HomeOf(pages, tid))
  }

  ghost function HomeOf(pages: seq<Page>, tid: nat): P.Home
    requires exists b, t :: 0 <= b < |pages| && t in BloomIndex.ItemsOn(pages[b]) && t.tid == tid
  {
    var b, t :| 0 <= b < |pages| && t in BloomIndex.ItemsOn(pages[b]) && t.tid == tid;
    P.Home(b, t.sign)
  }

  /** The home of a stored TID is where it is stored. */
  lemma HomeIsPlace(s: P.State, tid: nat, b: nat, i: nat)
    requires DistinctTids(BloomIndex.AllItems(s.pages)) && S.At(s, tid, b, i)
    ensures exists c, t :: 0 <= c < |s.pages| && t in BloomIndex.ItemsOn(s.pages[c]) && t.tid == tid
    ensures HomeOf(s.pages, tid) == P.Home(b, s.pages[b].items[i].sign)
  {
    assert s.pages[b].items[i] in BloomIndex.ItemsOn(s.pages[b]);
    var home := HomeOf(s.pages, tid);
    var c, t :| 0 <= c < |s.pages| && t in BloomIndex.ItemsOn(s.pages[c]) && t.tid == tid && home == P.Home(c, t.sign);
    var j :| 0 <= j < |s.pages[c].items| && s.pages[c].items[j] == t;
    StoredOnce(s, tid, b, i, c, j);
  }

  lemma BuiltPlace(words: nat, pages: seq<Page>, notFull: seq<nat>, tid: nat, b: nat, i: nat)
    requires DistinctTids(BloomIndex.AllItems(pages)) && S.At(Built(words, pages, notFull), tid, b, i)
    ensures var s := Built(words, pages, notFull);
            && tid in s.rows && tid in s.home && tid in s.signs
            && s.home[tid] == P.Home(b, pages[b].items[i].sign) && s.signs[tid] == pages[b].items[i].sign
  {
    var s := Built(words, pages, notFull);
    HomeIsPlace(s, tid, b, i);
  }

  lemma OnSomePage(pages: seq<Page>, tid: nat) returns (b: nat, i: nat)
    requires tid in TidsIn(pages)
    ensures b < |pages| && pages[b].Data? && i < |pages[b].items| && pages[b].items[i].tid == tid
  {
    var c, t :| 0 <= c < |pages| && t in BloomIndex.ItemsOn(pages[c]) && t.tid == tid;
    b := c;
    i :| 0 <= i < |pages[b].items| && pages[b].items[i] == t;
  }

  lemma BuiltStored(words: nat, pages: seq<Page>, notFull: seq<nat>, tid: nat)
    requires tid in TidsIn(pages)
    ensures S.Stored(Built(words, pages, notFull), tid)
  {
    var b, i := OnSomePage(pages, tid);
    assert S.At(Built(words, pages, notFull), tid, b, i);
  }

  lemma BuiltTuple(words: nat, pages: seq<Page>, notFull: seq<nat>, t: Tuple)
    requires DistinctTids(BloomIndex.AllItems(pages)) && t in BloomIndex.AllItems(pages)
    ensures var s := Built(words, pages, notFull);
            t.tid in s.rows && s.rows[t.tid].Live? && t.tid in s.signs && s.signs[t.tid] == t.sign
  {
    assert pages[..|pages|] == pages;
    var b := FoundOnPage(pages, |pages|, t);
    var i :| 0 <= i < |pages[b].items| && pages[b].items[i] == t;
    BuiltPlace(words, pages, notFull, t.tid, b, i);
  }

  lemma BuiltRecorded(words: nat, pages: seq<Page>, notFull: seq<nat>)
    requires DistinctTids(BloomIndex.AllItems(pages))
    ensures S.EachOnce(Built(words, pages, notFull)) && S.Recorded(Built(words, pages, notFull))
  {
    var s := Built(words, pages, notFull);
    forall tid, b, i, c, j | S.At(s, tid, b, i) && S.At(s, tid, c, j) ensures b == c && i == j {
      StoredOnce(s, tid, b, i, c, j);
    }
    forall tid, b, i | S.At(s, tid, b, i)
      ensures tid in s.rows && tid in s.home && tid in s.signs
      ensures s.home[tid] == P.Home(b, pages[b].items[i].sign) && s.signs[tid] == pages[b].items[i].sign
    {
      BuiltPlace(words, pages, notFull, tid, b, i);
    }
    forall tid | tid in s.rows ensures S.Stored(s, tid) { BuiltStored(words, pages, notFull, tid); }
  }

  /** What blbuild leaves for rows with distinct TIDs is a state the runs start from, with these rows live. */
  lemma BuildIsInit(words: nat, pages: seq<Page>, notFull: seq<nat>)
    requires BloomIndex.PagesOk(words, pages) && BloomIndex.InUse(pages) && |notFull| == P.META_BLOCKS
    requires DistinctTids(BloomIndex.AllItems(pages))
    ensures var s := Built(words, pages, notFull);
            && S.Init(s) && s.pages == pages
            && forall t :: t in BloomIndex.AllItems(pages) ==>
                 t.tid in s.rows && s.rows[t.tid].Live? && t.tid in s.signs && s.signs[t.tid] == t.sign
  {
    BuiltRecorded(words, pages, notFull);
    assert forall b :: 1 <= b < |pages| ==> BloomIndex.PageOk(words, pages[b]);
    var s := Built(words, pages, notFull);
    forall t | t in BloomIndex.AllItems(pages)
      ensures t.tid in s.rows && s.rows[t.tid].Live? && t.tid in s.signs && s.signs[t.tid] == t.sign
    {
      BuiltTuple(words, pages, notFull, t);
    }
  }
}
