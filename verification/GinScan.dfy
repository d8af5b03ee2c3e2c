/**
 * Range queries of contrib/btree_gin: a query becomes a key to start from and a callback that says match,
 * stop or go on. Values of the indexed type and of the query's type live in one totally ordered type.
 */
module GinScan {

  import opened Filtering
  import opened Optional

  // B-tree strategy numbers
  const LESS := 1
  const LESS_EQUAL := 2
  const EQUAL := 3
  const GREATER_EQUAL := 4
  const GREATER := 5

  type Order<!T> = (T, T) -> bool

  ghost predicate TotalOrder<T(!new)>(le: Order<T>) {
    && (forall a, b :: le(a, b) || le(b, a))
    && (forall a, b :: le(a, b) && le(b, a) ==> a == b)
    && (forall a, b, c :: le(a, b) && le(b, c) ==> le(a, c))
  }

  predicate Lt<T>(le: Order<T>, a: T, b: T) { !le(b, a) }

  /** The comparison function of the operator: query value first, key second. */
  function Compare<T>(le: Order<T>, v: T, k: T): int { if !le(v, k) then 1 else if !le(k, v) then -1 else 0 }

  /** The low four bits are the strategy, the others name the query's type. */
  function BtreeStrategy(strategy: nat): nat { strategy % 16 }

  function RhsCode(strategy: nat): nat { strategy / 16 }

  predicate Known(strategy: nat) { 1 <= BtreeStrategy(strategy) <= 5 }

  // ---------------------------------------------------------------------------------------------
  // gin_btree_extract_query and gin_btree_compare_prefix

  /** The entry to start from, whether to go on from there, and what the callback needs. */
  datatype Query<T> = Query(entry: T, partial: bool, strategy: nat, orig: T)

  method ExtractQuery<T>(datum: T, strategy: nat, leftmost: T, convert: seq<Option<T -> T>>)
    returns (q: Option<Query<T>>)
    requires RhsCode(strategy) < |convert|
    ensures q == Extracted(datum, strategy, leftmost, convert[RhsCode(strategy)])
  {
    var strat := BtreeStrategy(strategy);
    var entry, partial := datum, false;
    if strat == LESS || strat == LESS_EQUAL {
      entry, partial := leftmost, true;
    } else if strat == GREATER_EQUAL || strat == GREATER || strat == EQUAL {
      if strat != EQUAL { partial := true; }
      match convert[RhsCode(strategy)] {
        case Some(f) => entry, partial := f(datum), true;
        case None =>
      }
    } else {
      return None;
    }
    return Some(Query(entry, partial, strategy, datum));
  }

  /** Only an equality search without conversion is not a partial match. */
  function Extracted<T>(datum: T, strategy: nat, leftmost: T, convert: Option<T -> T>): Option<Query<T>> {
    var strat := BtreeStrategy(strategy);
    if !Known(strategy) then None
    else if strat <= LESS_EQUAL then Some(Query(leftmost, true, strategy, datum))
    else if convert.None? then Some(Query(datum, strat != EQUAL, strategy, datum))
    else Some(Query(convert.value(datum), true, strategy, datum))
  }

  /** gin_btree_compare_prefix: 0 for a match, positive to end the scan, negative to go on. */
  function ComparePrefix<T>(le: Order<T>, q: Query<T>, key: T): int
    requires Known(q.strategy)
  {
    var cmp := Compare(le, q.orig, key);
    var strat := BtreeStrategy(q.strategy);
    if strat == LESS then if cmp > 0 then 0 else 1
    else if strat == LESS_EQUAL then if cmp >= 0 then 0 else 1
    else if strat == EQUAL then if cmp == 0 then 0 else 1
    else if strat == GREATER_EQUAL then if cmp <= 0 then 0 else -1
    else if cmp < 0 then 0 else -1
  }

  /** The operator of a strategy. */
  predicate Satisfies<T>(le: Order<T>, k: T, strategy: nat, v: T)
    requires Known(strategy)
  {
    var strat := BtreeStrategy(strategy);
    if strat == LESS then Lt(le, k, v)
    else if strat == LESS_EQUAL then le(k, v)
    else if strat == EQUAL then le(k, v) && le(v, k)
    else if strat == GREATER_EQUAL then le(v, k)
    else Lt(le, v, k)
  }

  /** A match is what the operator accepts; the callback ends the scan only above the value, or off it for equality. */
  lemma CallbackIsOperator<T(!new)>(le: Order<T>, q: Query<T>, key: T)
    requires TotalOrder(le) && Known(q.strategy)
    ensures var res := ComparePrefix(le, q, key);
            && (res == 0 <==> Satisfies(le, key, q.strategy, q.orig))
            && (res > 0 ==> le(q.orig, key) || BtreeStrategy(q.strategy) == EQUAL)
            && (res < 0 ==> le(key, q.orig))
  {
  }

  // ---------------------------------------------------------------------------------------------
  // The scan over the entries of the index

  ghost predicate Sorted<T>(le: Order<T>, keys: seq<T>) {
    forall i, j :: 0 <= i < j < |keys| ==> Lt(le, keys[i], keys[j])
  }

  /** From here on: collect matches until the callback ends the scan. */
  function Collected<T>(le: Order<T>, keys: seq<T>, q: Query<T>): seq<T>
    requires Known(q.strategy)
  {
    if keys == [] then []
    else
      var res := ComparePrefix(le, q, keys[0]);
      if res > 0 then []
      else if res < 0 then Collected(le, keys[1..], q)
      else [keys[0]] + Collected(le, keys[1..], q)
  }

  /** Without partial match, only the entry itself. */
  function Exactly<T>(le: Order<T>, keys: seq<T>, entry: T): seq<T> {
    if keys == [] then []
    else (if Compare(le, entry, keys[0]) == 0 then [keys[0]] else []) + Exactly(le, keys[1..], entry)
  }

  /** The keys that are not below the entry. */
  function From<T>(le: Order<T>, keys: seq<T>, entry: T): seq<T> {
    if keys == [] || le(entry, keys[0]) then keys else From(le, keys[1..], entry)
  }

  function Scanned<T>(le: Order<T>, keys: seq<T>, q: Query<T>): seq<T>
    requires Known(q.strategy)
  {
    if q.partial then Collected(le, From(le, keys, q.entry), q) else Exactly(le, keys, q.entry)
  }

  /** The loop that gathers matches, from the first key that is not below the entry. */
  method Scan<T>(le: Order<T>, keys: seq<T>, q: Query<T>) returns (found: seq<T>)
    requires Known(q.strategy) && q.partial
    ensures found == Scanned(le, keys, q)
  {
    var at := 0;
    while at < |keys| && !le(q.entry, keys[at])
      invariant at <= |keys| && From(le, keys, q.entry) == From(le, keys[at..], q.entry)
    {
      assert keys[at..][1..] == keys[at + 1..];
      at := at + 1;
    }
    assert From(le, keys[at..], q.entry) == keys[at..];
    found := [];
    while at < |keys|
      invariant at <= |keys| && Scanned(le, keys, q) == found + Collected(le, keys[at..], q)
    {
      assert keys[at..][1..] == keys[at + 1..];
      var res := ComparePrefix(le, q, keys[at]);
      if res > 0 { return; }
      if res == 0 { found := found + [keys[at]]; }
      at := at + 1;
    }
  }

  // ---------------------------------------------------------------------------------------------
  // The scan against plain filtering

  function Test<T>(le: Order<T>, strategy: nat, v: T): T -> bool
    requires Known(strategy)
  {
    k => Satisfies(le, k, strategy, v)
  }

  function Filtered<T>(le: Order<T>, keys: seq<T>, strategy: nat, v: T): seq<T>
    requires Known(strategy)
  {
    Filter(keys, Test(le, strategy, v))
  }

  /** The values that the indexed type can hold. */
  type Domain<!T> = T -> bool

  ghost predicate AllIn<T>(rep: Domain<T>, keys: seq<T>) { forall i :: 0 <= i < |keys| ==> rep(keys[i]) }

  /**
   * Where a partial-match scan may start: at or before every key that satisfies the operator, and for
   * equality not before the value itself, as the scan ends at the first key that differs.
   */
  ghost predicate GoodEntry<T(!new)>(le: Order<T>, rep: Domain<T>, strategy: nat, v: T, entry: T)
    requires Known(strategy)
  {
    && (forall k :: rep(k) && Satisfies(le, k, strategy, v) ==> le(entry, k))
    && (BtreeStrategy(strategy) == EQUAL && rep(v) ==> forall k :: rep(k) && le(entry, k) ==> le(v, k))
  }

  /** Dropping the keys below a good entry loses no match. */
  lemma {:induction false} DropIsSafe<T(!new)>(
    le: Order<T>, rep: Domain<T>, keys: seq<T>, strategy: nat, v: T, entry: T)
    requires TotalOrder(le) && Known(strategy) && AllIn(rep, keys) && GoodEntry(le, rep, strategy, v, entry)
    ensures Filtered(le, From(le, keys, entry), strategy, v) == Filtered(le, keys, strategy, v)
  {
    if keys != [] && !le(entry, keys[0]) { DropIsSafe(le, rep, keys[1..], strategy, v, entry); }
  }

  lemma {:induction false} FromKeeps<T(!new)>(le: Order<T>, rep: Domain<T>, keys: seq<T>, entry: T)
    requires TotalOrder(le) && Sorted(le, keys) && AllIn(rep, keys)
    ensures var rest := From(le, keys, entry);
            Sorted(le, rest) && AllIn(rep, rest) && forall i :: 0 <= i < |rest| ==> le(entry, rest[i])
  {
    if keys != [] && !le(entry, keys[0]) {
      FromKeeps(le, rep, keys[1..], entry);
    } else if keys != [] {
      forall i | 0 <= i < |keys| ensures le(entry, keys[i]) { assert i > 0 ==> Lt(le, keys[0], keys[i]); }
    }
  }

  /** Where the callback ends the scan, nothing that follows would match. */
  lemma StopIsFinal<T(!new)>(le: Order<T>, rep: Domain<T>, keys: seq<T>, q: Query<T>)
    requires TotalOrder(le) && Known(q.strategy) && Sorted(le, keys) && AllIn(rep, keys) && keys != []
    requires GoodEntry(le, rep, q.strategy, q.orig, q.entry)
    requires le(q.entry, keys[0]) && ComparePrefix(le, q, keys[0]) > 0
    ensures Filtered(le, keys, q.strategy, q.orig) == []
  {
    forall i | 0 <= i < |keys| ensures !Satisfies(le, keys[i], q.strategy, q.orig) {
      assert i > 0 ==> Lt(le, keys[0], keys[i]);
      assert rep(keys[0]) && rep(keys[i]);
    }
    FilterNone(keys, Test(le, q.strategy, q.orig));
  }

  lemma {:induction false} CollectedIsFiltered<T(!new)>(le: Order<T>, rep: Domain<T>, keys: seq<T>, q: Query<T>)
    requires TotalOrder(le) && Known(q.strategy) && Sorted(le, keys) && AllIn(rep, keys)
    requires GoodEntry(le, rep, q.strategy, q.orig, q.entry) && forall i :: 0 <= i < |keys| ==> le(q.entry, keys[i])
    ensures Collected(le, keys, q) == Filtered(le, keys, q.strategy, q.orig)
  {
    if keys != [] {
      if ComparePrefix(le, q, keys[0]) > 0 {
        StopIsFinal(le, rep, keys, q);
      } else {
        CollectedIsFiltered(le, rep, keys[1..], q);
      }
    }
  }

  /** The scan gives the same answer as a filter over all the keys. */
  ghost predicate ScanIsFilter<T(!new)>(le: Order<T>, rep: Domain<T>, q: Query<T>)
    requires Known(q.strategy)
  {
    forall keys: seq<T> :: Sorted(le, keys) && AllIn(rep, keys) ==>
      Scanned(le, keys, q) == Filtered(le, keys, q.strategy, q.orig)
  }

  lemma GoodEntrySuffices<T(!new)>(le: Order<T>, rep: Domain<T>, q: Query<T>)
    requires TotalOrder(le) && Known(q.strategy) && q.partial && GoodEntry(le, rep, q.strategy, q.orig, q.entry)
    ensures ScanIsFilter(le, rep, q)
  {
    forall keys: seq<T> | Sorted(le, keys) && AllIn(rep, keys)
      ensures Scanned(le, keys, q) == Filtered(le, keys, q.strategy, q.orig)
    {
      DropIsSafe(le, rep, keys, q.strategy, q.orig, q.entry);
      FromKeeps(le, rep, keys, q.entry);
      CollectedIsFiltered(le, rep, From(le, keys, q.entry), q);
    }
  }

  /** An index of one key that a scan from this entry skips. */
  lemma SkippedKey<T(!new)>(le: Order<T>, rep: Domain<T>, q: Query<T>, k: T)
    requires TotalOrder(le) && Known(q.strategy) && q.partial && rep(k) && Satisfies(le, k, q.strategy, q.orig)
    ensures !le(q.entry, k) ==> !ScanIsFilter(le, rep, q)
  {
    if !le(q.entry, k) {
      var keys := [k];
      assert Sorted(le, keys) && AllIn(rep, keys) && keys[1..] == [];
      FilterOne(k, Test(le, q.strategy, q.orig));
      assert From(le, keys, q.entry) == From(le, keys[1..], q.entry) == [];
      assert Scanned(le, keys, q) == [];
    }
  }

  /** An index of two keys where an equality scan stops at the first. */
  lemma StoppedShort<T(!new)>(le: Order<T>, rep: Domain<T>, q: Query<T>, k: T)
    requires TotalOrder(le) && Known(q.strategy) && q.partial
    requires BtreeStrategy(q.strategy) == EQUAL && rep(q.orig) && rep(k) && le(q.entry, k)
    ensures !le(q.orig, k) ==> !ScanIsFilter(le, rep, q)
  {
    if !le(q.orig, k) {
      var keys := [k, q.orig];
      assert Sorted(le, keys) && AllIn(rep, keys) && keys[1..] == [q.orig] && keys[1..][1..] == [];
      FilterOne(q.orig, Test(le, q.strategy, q.orig));
      assert Filtered(le, keys, q.strategy, q.orig) == [q.orig];
      assert From(le, keys, q.entry) == keys && Scanned(le, keys, q) == [];
    }
  }

  /** A partial-match scan agrees with filtering, on every index, exactly if it starts at a good entry. */
  lemma ScanExactly<T(!new)>(le: Order<T>, rep: Domain<T>, q: Query<T>)
    requires TotalOrder(le) && Known(q.strategy) && q.partial
    ensures ScanIsFilter(le, rep, q) <==> GoodEntry(le, rep, q.strategy, q.orig, q.entry)
  {
    if GoodEntry(le, rep, q.strategy, q.orig, q.entry) { GoodEntrySuffices(le, rep, q); }
    if ScanIsFilter(le, rep, q) {
      forall k | rep(k) && Satisfies(le, k, q.strategy, q.orig) ensures le(q.entry, k) { SkippedKey(le, rep, q, k); }
      if BtreeStrategy(q.strategy) == EQUAL && rep(q.orig) {
        forall k | rep(k) && le(q.entry, k) ensures le(q.orig, k) { StoppedShort(le, rep, q, k); }
      }
    }
  }

  lemma {:induction false} ExactIsFiltered<T(!new)>(le: Order<T>, keys: seq<T>, strategy: nat, v: T)
    requires TotalOrder(le) && BtreeStrategy(strategy) == EQUAL
    ensures Exactly(le, keys, v) == Filtered(le, keys, strategy, v)
  {
    if keys != [] { ExactIsFiltered(le, keys[1..], strategy, v); }
  }

  // ---------------------------------------------------------------------------------------------
  // Conversions

  /** Exact on the values the indexed type can hold, and no such value lies between the query and its conversion. */
  ghost predicate GoodConversion<T(!new)>(le: Order<T>, rep: Domain<T>, f: T -> T) {
    && (forall v :: rep(v) ==> f(v) == v)
    && (forall v, k :: rep(k) && le(v, k) ==> le(f(v), k))
  }

  /** Every query that gin_btree_extract_query makes with a good conversion is answered like a filter. */
  lemma ConvertedQueryIsFilter<T(!new)>(
    le: Order<T>, rep: Domain<T>, v: T, strategy: nat, leftmost: T, convert: Option<T -> T>)
    requires TotalOrder(le) && Known(strategy) && (forall k :: rep(k) ==> le(leftmost, k))
    requires convert.Some? ==> GoodConversion(le, rep, convert.value)
    ensures ScanIsFilter(le, rep, Extracted(v, strategy, leftmost, convert).value)
  {
    var q := Extracted(v, strategy, leftmost, convert).value;
    if q.partial {
      assert q.entry == v || q.entry == leftmost || q.entry == convert.value(v);
      GoodEntrySuffices(le, rep, q);
    } else {
      forall keys: seq<T> | Sorted(le, keys) && AllIn(rep, keys)
        ensures Scanned(le, keys, q) == Filtered(le, keys, q.strategy, q.orig)
      {
        ExactIsFiltered(le, keys, strategy, v);
      }
    }
  }

  /** The integer conversions: clamp to the range of the indexed type. */
  function Clamp(lo: int, hi: int): int -> int {
    v => var w := if v < lo then lo else v; if w > hi then hi else w
  }

  const INT_ORDER: Order<int> := (a: int, b: int) => a <= b

  /** A query of any integer type against an index of any integer type lo..hi, for all five operators. */
  lemma IntegerQueryIsFilter(lo: int, hi: int, v: int, strategy: nat, converted: bool)
    requires lo <= hi && Known(strategy)
    ensures ScanIsFilter(INT_ORDER, k => lo <= k <= hi,
                         Extracted(v, strategy, lo, if converted then Some(Clamp(lo, hi)) else None).value)
  {
    var rep := k => lo <= k <= hi;
    assert TotalOrder(INT_ORDER);
    ConvertedQueryIsFilter(INT_ORDER, rep, v, strategy, lo, if converted then Some(Clamp(lo, hi)) else None);
  }
}
