/**
 * Searching a GiST tree whose inner keys came from any nesting, over time, of gbt_var_union and of
 * page splits that shadow no entry (leaf page splits never do).
 */
module GistVarTree {
  import opened ByteStrings
  import opened GistVarKey
  import opened GistVarSplit
  import opened Filtering

  /** How a key was made: a row's own key, a union of keys, or one side of a page split. */
  datatype Term =
    | Row(x: Bytes)
    | UnionOf(parts: seq<Term>)
    | SideOf(parts: seq<Term>, cut: nat)

  /** The key itself; a union or a split of nothing does not occur (see Formed). */
  function KeyOf(t: Term): Key {
    match t
    case Row(x) => LeafKey(x)
    case UnionOf(parts) => if parts == [] then LeafKey([]) else UnionKey(KeysOf(parts))
    case SideOf(parts, cut) => if parts == [] then LeafKey([]) else SideKey(KeysOf(parts), cut)
  }

  function KeysOf(parts: seq<Term>): (ks: seq<Key>)
    ensures |ks| == |parts| && forall i :: 0 <= i < |ks| ==> ks[i] == KeyOf(parts[i])
  {
    seq(|parts|, i requires 0 <= i < |parts| => KeyOf(parts[i]))
  }

  /** Nothing is empty, and a split cuts past the common prefix and shadows no entry. */
  ghost predicate Formed(t: Term) {
    match t
    case Row(_) => true
    case UnionOf(parts) => parts != [] && forall i :: 0 <= i < |parts| ==> Formed(parts[i])
    case SideOf(parts, cut) =>
      && parts != [] && (forall i :: 0 <= i < |parts| ==> Formed(parts[i]))
      && cut > CpLen(UnionAll(KeysOf(parts)))
      && forall i :: 0 <= i < |parts| ==> !Shadowed(KeyOf(parts[i]), KeyOf(t))
  }

  /** x is one of the rows that went into the key. */
  ghost predicate Within(x: Bytes, t: Term) {
    match t
    case Row(y) => x == y
    case UnionOf(parts) => exists i :: 0 <= i < |parts| && Within(x, parts[i])
    case SideOf(parts, _) => exists i :: 0 <= i < |parts| && Within(x, parts[i])
  }

  lemma {:induction false} KeyOfOrdered(t: Term)
    requires Formed(t)
    ensures Ordered(KeyOf(t))
  {
    match t
    case Row(x) =>
    case UnionOf(parts) =>
      forall i | 0 <= i < |parts| ensures Ordered(KeysOf(parts)[i]) { KeyOfOrdered(parts[i]); }
      UnionAllBounds(KeysOf(parts), 0);
      TruncateOrdered(UnionAll(KeysOf(parts)), CpLen(UnionAll(KeysOf(parts))) + 1);
    case SideOf(parts, cut) =>
      forall i | 0 <= i < |parts| ensures Ordered(KeysOf(parts)[i]) { KeyOfOrdered(parts[i]); }
      UnionAllBounds(KeysOf(parts), 0);
      TruncateOrdered(UnionAll(KeysOf(parts)), cut);
  }

  /** However a key was made, it admits every row that went into it. */
  lemma {:induction false} KeyAdmitsItsRows(t: Term, x: Bytes)
    requires Formed(t) && Within(x, t)
    ensures Admits(KeyOf(t), x)
  {
    match t
    case Row(_) =>
    case UnionOf(parts) =>
      var i :| 0 <= i < |parts| && Within(x, parts[i]);
      KeyAdmitsItsRows(parts[i], x);
      forall j | 0 <= j < |parts| ensures Ordered(KeysOf(parts)[j]) { KeyOfOrdered(parts[j]); }
      UnionAdmits(KeysOf(parts), i, x);
    case SideOf(parts, cut) =>
      var i :| 0 <= i < |parts| && Within(x, parts[i]);
      KeyAdmitsItsRows(parts[i], x);
      forall j | 0 <= j < |parts| ensures Ordered(KeysOf(parts)[j]) { KeyOfOrdered(parts[j]); }
      UnshadowedAdmits(KeysOf(parts), cut, i, x);
  }

  /** Splitting a leaf page makes well-formed keys, whatever the cut. */
  lemma LeafPageSplitIsFormed(rows: seq<Bytes>, cut: nat)
    requires rows != [] && cut > CpLen(UnionAll(KeysOf(AsTerms(rows))))
    ensures Formed(SideOf(AsTerms(rows), cut))
  {
    forall i | 0 <= i < |rows| ensures !Shadowed(KeyOf(AsTerms(rows)[i]), KeyOf(SideOf(AsTerms(rows), cut))) {
      LcpUnique(rows[i], rows[i], |rows[i]|);
    }
  }

  function AsTerms(rows: seq<Bytes>): (ts: seq<Term>)
    ensures |ts| == |rows| && forall i :: 0 <= i < |ts| ==> ts[i] == Row(rows[i])
  {
    seq(|rows|, i requires 0 <= i < |rows| => Row(rows[i]))
  }

  // ---------------------------------------------------------------------------------------------
  // The tree and its search

  datatype Tree = Leaf(row: Bytes) | Inner(made: Term, kids: seq<Tree>)

  /** Rows below, left to right. */
  function Rows(t: Tree): seq<Bytes>
    decreases t, 0
  {
    match t
    case Leaf(x) => [x]
    case Inner(_, kids) => RowsOfAll(kids)
  }

  function RowsOfAll(ts: seq<Tree>): seq<Bytes>
    decreases ts, 1
  {
    if ts == [] then [] else Rows(ts[0]) + RowsOfAll(ts[1..])
  }

  /** Every inner key was made from, among others, all the rows now below it. */
  ghost predicate Keyed(t: Tree)
    decreases t, 0
  {
    match t
    case Leaf(_) => true
    case Inner(made, kids) => Formed(made) && KeyedAll(kids) && forall x :: x in RowsOfAll(kids) ==> Within(x, made)
  }

  ghost predicate KeyedAll(ts: seq<Tree>)
    decreases ts, 1
  {
    ts == [] || (Keyed(ts[0]) && KeyedAll(ts[1..]))
  }

  /** An index scan: descend where gbt_var_consistent says so, emit the leaves it accepts. */
  function Search(t: Tree, s: Strategy, q: Bytes): seq<Bytes>
    decreases t, 0
  {
    match t
    case Leaf(x) => if Consistent(LeafKey(x), s, q, true) then [x] else []
    case Inner(made, kids) => if Consistent(KeyOf(made), s, q, false) then SearchAll(kids, s, q) else []
  }

  function SearchAll(ts: seq<Tree>, s: Strategy, q: Bytes): seq<Bytes>
    decreases ts, 1
  {
    if ts == [] then [] else Search(ts[0], s, q) + SearchAll(ts[1..], s, q)
  }

  function Test(s: Strategy, q: Bytes): Bytes -> bool { x => Satisfies(x, s, q) }

  // ---------------------------------------------------------------------------------------------
  // When the search is exact

  /** Every inner key has its bounds in order. */
  predicate KeysOrdered(t: Tree)
    decreases t, 0
  {
    t.Leaf? || (Ordered(KeyOf(t.made)) && KeysOrderedAll(t.kids))
  }

  predicate KeysOrderedAll(ts: seq<Tree>)
    decreases ts, 1
  {
    ts == [] || (KeysOrdered(ts[0]) && KeysOrderedAll(ts[1..]))
  }

  /** Every inner key is prune-safe for every row below it. */
  predicate Sound(t: Tree)
    decreases t, 0
  {
    t.Leaf? || (SoundAll(t.kids) && forall x :: x in RowsOfAll(t.kids) ==> PruneSafe(KeyOf(t.made), x))
  }

  predicate SoundAll(ts: seq<Tree>)
    decreases ts, 1
  {
    ts == [] || (Sound(ts[0]) && SoundAll(ts[1..]))
  }

  lemma {:induction false} SoundSearch(t: Tree, s: Strategy, q: Bytes)
    requires KeysOrdered(t) && Sound(t)
    ensures Search(t, s, q) == Filter(Rows(t), Test(s, q))
    decreases t, 0
  {
    match t
    case Leaf(x) =>
      LeafTestIsExact(x, s, q);
      FilterOne(x, Test(s, q));
    case Inner(made, kids) =>
      if Consistent(KeyOf(made), s, q, false) {
        SoundSearchAll(kids, s, q);
      } else {
        forall x | x in Rows(t) ensures !Satisfies(x, s, q) {
          if Satisfies(x, s, q) { PruneSafeOne(KeyOf(made), x, s, q); }
        }
        FilterNone(Rows(t), Test(s, q));
      }
  }

  lemma {:induction false} SoundSearchAll(ts: seq<Tree>, s: Strategy, q: Bytes)
    requires KeysOrderedAll(ts) && SoundAll(ts)
    ensures SearchAll(ts, s, q) == Filter(RowsOfAll(ts), Test(s, q))
    decreases ts, 1
  {
    if ts != [] {
      SoundSearch(ts[0], s, q);
      SoundSearchAll(ts[1..], s, q);
      FilterConcat(Rows(ts[0]), RowsOfAll(ts[1..]), Test(s, q));
    }
  }

  /** Pruning never adds rows. */
  lemma {:induction false} FindsAtMost(t: Tree, s: Strategy, q: Bytes)
    ensures |Search(t, s, q)| <= |Filter(Rows(t), Test(s, q))|
    decreases t, 0
  {
    match t
    case Leaf(x) =>
      LeafTestIsExact(x, s, q);
      FilterOne(x, Test(s, q));
    case Inner(_, kids) => FindsAtMostAll(kids, s, q);
  }

  lemma {:induction false} FindsAtMostAll(ts: seq<Tree>, s: Strategy, q: Bytes)
    ensures |SearchAll(ts, s, q)| <= |Filter(RowsOfAll(ts), Test(s, q))|
    decreases ts, 1
  {
    if ts != [] {
      FindsAtMost(ts[0], s, q);
      FindsAtMostAll(ts[1..], s, q);
      FilterConcat(Rows(ts[0]), RowsOfAll(ts[1..]), Test(s, q));
    }
  }

  /** A tree that is not sound misses a row for some query. */
  lemma {:induction false} UnsoundMisses(t: Tree) returns (s: Strategy, q: Bytes)
    requires KeysOrdered(t) && !Sound(t)
    ensures |Search(t, s, q)| < |Filter(Rows(t), Test(s, q))|
    decreases t, 0
  {
    var k := KeyOf(t.made);
    if SoundAll(t.kids) {
      var x :| x in RowsOfAll(t.kids) && !PruneSafe(k, x);
      NeverLostExactly(k, x);
      s, q :| Satisfies(x, s, q) && !Consistent(k, s, q, false);
      FilterSome(Rows(t), x, Test(s, q));
    } else {
      s, q := UnsoundMissesAll(t.kids);
    }
  }

  lemma {:induction false} UnsoundMissesAll(ts: seq<Tree>) returns (s: Strategy, q: Bytes)
    requires KeysOrderedAll(ts) && !SoundAll(ts)
    ensures |SearchAll(ts, s, q)| < |Filter(RowsOfAll(ts), Test(s, q))|
    decreases ts, 1
  {
    if Sound(ts[0]) {
      s, q := UnsoundMissesAll(ts[1..]);
      FindsAtMost(ts[0], s, q);
    } else {
      s, q := UnsoundMisses(ts[0]);
      FindsAtMostAll(ts[1..], s, q);
    }
    FilterConcat(Rows(ts[0]), RowsOfAll(ts[1..]), Test(s, q));
  }

  /** The search answers every query like a scan of all rows, exactly if each key is prune-safe for the rows below. */
  lemma SearchExactly(t: Tree)
    requires KeysOrdered(t)
    ensures (forall s, q :: Search(t, s, q) == Filter(Rows(t), Test(s, q))) <==> Sound(t)
  {
    if Sound(t) {
      forall s, q ensures Search(t, s, q) == Filter(Rows(t), Test(s, q)) { SoundSearch(t, s, q); }
    } else {
      var s, q := UnsoundMisses(t);
    }
  }

  lemma {:induction false} KeyedIsSound(t: Tree)
    requires Keyed(t)
    ensures KeysOrdered(t) && Sound(t)
    decreases t, 0
  {
    if t.Inner? {
      KeyOfOrdered(t.made);
      KeyedAllIsSound(t.kids);
      forall x | x in RowsOfAll(t.kids) ensures PruneSafe(KeyOf(t.made), x) {
        KeyAdmitsItsRows(t.made, x);
        AdmitsIsPruneSafe(KeyOf(t.made), x);
      }
    }
  }

  lemma {:induction false} KeyedAllIsSound(ts: seq<Tree>)
    requires KeyedAll(ts)
    ensures KeysOrderedAll(ts) && SoundAll(ts)
    decreases ts, 1
  {
    if ts != [] {
      KeyedIsSound(ts[0]);
      KeyedAllIsSound(ts[1..]);
    }
  }

  /** So it is with keys made by unions and by splits that shadow nothing, in whatever nesting. */
  lemma SearchIsExact(t: Tree, s: Strategy, q: Bytes)
    requires Keyed(t)
    ensures Search(t, s, q) == Filter(Rows(t), Test(s, q))
  {
    KeyedIsSound(t);
    SoundSearch(t, s, q);
  }
}
