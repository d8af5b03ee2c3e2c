/** The GiST support of contrib/cube: union, consistency of keys, and the search that relies on them. */
module CubeIndex {
  import opened CubeBoxes
  import opened CubeOrder
  import opened Filtering
  import opened Optional

  // R-tree strategy numbers
  const OVERLAP := 3
  const SAME := 6
  const CONTAINS := 7
  const CONTAINED_BY := 8
  const OLD_CONTAINS := 13
  const OLD_CONTAINED_BY := 14

  // ---------------------------------------------------------------------------------------------
  // Union of the entries of a page

  ghost predicate CoversAll(k: Box, cs: seq<Cube>) { forall i: nat :: i < |cs| ==> Covers(k, Shape(cs[i])) }

  /** k covers all of the cubes, and no more than that takes. */
  ghost predicate Least(k: Box, cs: seq<Cube>) {
    CoversAll(k, cs) && forall w: Box :: CoversAll(w, cs) ==> Covers(w, k)
  }

  lemma LeastSnoc(k: Box, cs: seq<Cube>, c: Cube)
    requires Least(k, cs)
    ensures Least(Hulls(k, Shape(c)), cs + [c])
  {
    var k' := Hulls(k, Shape(c));
    forall i: nat | i < |cs + [c]| ensures Covers(k', Shape((cs + [c])[i])) {
      UnionIsLeast(k, Shape(c), k');
      if i < |cs| { CoversTransitive(k', k, Shape(cs[i])); }
    }
    forall w: Box | CoversAll(w, cs + [c]) ensures Covers(w, k') {
      assert Covers(w, Shape((cs + [c])[|cs|]));
      forall i: nat | i < |cs| ensures Covers(w, Shape(cs[i])) { assert (cs + [c])[i] == cs[i]; }
      UnionIsLeast(k, Shape(c), w);
    }
  }

  /** g_cube_union: a single entry yields no key at all; aliased says that two entries are one datum. */
  method UnionEntries(entries: seq<Cube>, aliased: bool) returns (out: Option<Cube>)
    requires |entries| >= 1 && (aliased ==> |entries| == 2 && entries[0] == entries[1])
    ensures out.None? <==> |entries| == 1
    ensures out.Some? ==> Least(Shape(out.value), entries)
  {
    out := None;
    var tmp := entries[0];
    CoversItself(Shape(tmp));
    for i := 1 to |entries|
      invariant Least(Shape(tmp), entries[..i]) && (out == if i == 1 then None else Some(tmp))
      invariant i == 1 ==> tmp == entries[0]
    {
      LeastSnoc(Shape(tmp), entries[..i], entries[i]);
      assert entries[..i] + [entries[i]] == entries[..i + 1];
      tmp := Union(tmp, entries[i], aliased);
      out := Some(tmp);
    }
    assert entries[..|entries|] == entries;
  }

  lemma CoversItself(b: Box)
    ensures Covers(b, b)
  {
  }

  // ---------------------------------------------------------------------------------------------
  // Consistency

  /** g_cube_leaf_consistent: the operator itself. */
  ghost predicate LeafConsistent(x: Box, q: Box, s: nat) {
    if s == OVERLAP then Overlaps(x, q)
    else if s == SAME then Cmp(x, q) == 0
    else if s == CONTAINS || s == OLD_CONTAINS then Contains(x, q)
    else if s == CONTAINED_BY || s == OLD_CONTAINED_BY then Contains(q, x)
    else false
  }

  /** g_cube_internal_consistent: whether to look below a key. */
  ghost predicate InternalConsistent(k: Box, q: Box, s: nat) {
    if s == OVERLAP then Overlaps(k, q)
    else if s == SAME || s == CONTAINS || s == OLD_CONTAINS then Contains(k, q)
    else if s == CONTAINED_BY || s == OLD_CONTAINED_BY then Overlaps(k, q)
    else false
  }

  method Consistent(key: Cube, q: Cube, s: nat, leaf: bool) returns (r: bool)
    ensures r == if leaf then LeafConsistent(Shape(key), Shape(q), s) else InternalConsistent(Shape(key), Shape(q), s)
  {
    if s == OVERLAP {
      r := OverlapTest(key, q);
    } else if s == SAME && leaf {
      var c := Compare(key, q);
      r := c == 0;
    } else if s == SAME || s == CONTAINS || s == OLD_CONTAINS {
      r := ContainsTest(key, q);
    } else if s == CONTAINED_BY || s == OLD_CONTAINED_BY {
      if leaf { r := ContainsTest(q, key); } else { r := OverlapTest(key, q); }
    } else {
      r := false;
    }
  }

  predicate IsContainedBy(s: nat) { s == CONTAINED_BY || s == OLD_CONTAINED_BY }

  /** In every dimension from n on, the query reaches zero. */
  ghost predicate Straddles(q: Box, n: nat) { forall i: nat :: n <= i < |q| ==> Touch(q[i], ZERO) }

  /** A key never hides a cube below it from a query, except for contained-by with excess dimensions. */
  lemma KeyAdmits(k: Box, x: Box, q: Box, s: nat)
    requires Covers(k, x) && LeafConsistent(x, q, s)
    requires IsContainedBy(s) ==> Straddles(q, |x|)
    ensures InternalConsistent(k, q, s)
  {
    if s == SAME { EqualIsSameBox(x, q); }
    if s == OVERLAP || IsContainedBy(s) {
      forall i: nat | i < MaxDim(|k|, |q|) ensures Touch(At(k, i), At(q, i)) {
        assert i < |k| ==> Inside(At(x, i), k[i]);
        if s == OVERLAP {
          assert i < MaxDim(|x|, |q|) ==> Touch(At(x, i), At(q, i));
        } else {
          assert i < |x| ==> Inside(x[i], At(q, i));
          assert |x| <= i < |q| ==> Touch(q[i], ZERO);
        }
      }
    } else {
      forall i: nat | i < |q| ensures Inside(q[i], At(k, i)) {
        assert i < |k| ==> Inside(At(x, i), k[i]);
        assert s != SAME ==> Inside(q[i], At(x, i));
      }
    }
  }

  /** Equality is sought below keys that contain the query on its own dimensions, even if they cannot cover it. */
  ghost predicate Idle(k: Box, q: Box, s: nat) { s == SAME && Contains(k, q) && !Covers(k, q) }

  /** A box below the key that the query is after, and that the key may not hide. */
  ghost predicate Sought(k: Box, q: Box, s: nat, x: Box) {
    Covers(k, x) && LeafConsistent(x, q, s) && (IsContainedBy(s) ==> Straddles(q, |x|))
  }

  /** The common part of two cubes that overlap, in the dimensions of the key. */
  lemma SharedIsSought(k: Box, q: Box, s: nat)
    requires IsContainedBy(s) && Overlaps(k, q)
    ensures Sought(k, q, s, Meets(k, q)[..|k|])
  {
    var x := Meets(k, q)[..|k|];
    forall i: nat | i < |k| ensures Inside(At(x, i), k[i]) && Inside(x[i], At(q, i)) {
      assert Touch(At(k, i), At(q, i));
    }
    forall i: nat | |k| <= i < |q| ensures Touch(q[i], ZERO) { assert Touch(At(k, i), At(q, i)); }
  }

  /** When the test on an inner key accepts, and so when it rejects: exactly if a box below asks for it, or idly. */
  lemma AcceptsExactly(k: Box, q: Box, s: nat)
    ensures InternalConsistent(k, q, s) <==> Idle(k, q, s) || exists x: Box :: Sought(k, q, s, x)
  {
    if InternalConsistent(k, q, s) && !Idle(k, q, s) {
      if IsContainedBy(s) {
        SharedIsSought(k, q, s);
      } else if s == SAME {
        EqualIsSameBox(q, q);
        assert Sought(k, q, s, q);
      } else {
        CoversItself(k);
        assert Sought(k, q, s, k);
      }
    }
    if x: Box :| Sought(k, q, s, x) { KeyAdmits(k, x, q, s); }
  }

  /** For contained-by, the excess dimensions of the query decide, exactly. */
  lemma ContainedByExactly(x: Box, q: Box, s: nat)
    requires IsContainedBy(s) && LeafConsistent(x, q, s)
    ensures (forall k: Box :: Covers(k, x) ==> InternalConsistent(k, q, s)) <==> Straddles(q, |x|)
  {
    if Straddles(q, |x|) {
      forall k: Box | Covers(k, x) ensures InternalConsistent(k, q, s) { KeyAdmits(k, x, q, s); }
    }
    if forall k: Box :: Covers(k, x) ==> InternalConsistent(k, q, s) {
      CoversItself(x);
      assert Overlaps(x, q);
      forall i: nat | |x| <= i < |q| ensures Touch(q[i], ZERO) { assert Touch(At(x, i), At(q, i)); }
    }
  }

  // ---------------------------------------------------------------------------------------------
  // The tree

  datatype Tree = Row(cube: Cube) | Node(key: Cube, kids: seq<Tree>)

  function EntryKey(t: Tree): Cube { if t.Row? then t.cube else t.key }

  function Rows(t: Tree): seq<Cube>
    decreases t, 0
  {
    match t
    case Row(c) => [c]
    case Node(_, kids) => RowsOfAll(kids)
  }

  function RowsOfAll(ts: seq<Tree>): seq<Cube>
    decreases ts, 1
  {
    if ts == [] then [] else Rows(ts[0]) + RowsOfAll(ts[1..])
  }

  /** Every key covers the keys of the entries on the page it points to. */
  ghost predicate Keyed(t: Tree)
    decreases t, 0
  {
    match t
    case Row(_) => true
    case Node(key, kids) => KeyedAll(Shape(key), kids)
  }

  ghost predicate KeyedAll(k: Box, ts: seq<Tree>)
    decreases ts, 1
  {
    ts == [] || (Keyed(ts[0]) && Covers(k, Shape(EntryKey(ts[0]))) && KeyedAll(k, ts[1..]))
  }

  /** A page whose key is the union of its entries is one. */
  lemma {:induction false} UnionKeyed(k: Box, ts: seq<Tree>, cs: seq<Cube>)
    requires |cs| == |ts| && forall i :: 0 <= i < |ts| ==> Keyed(ts[i]) && cs[i] == EntryKey(ts[i])
    requires CoversAll(k, cs)
    ensures KeyedAll(k, ts)
  {
    if ts != [] {
      assert Covers(k, Shape(cs[0]));
      forall i: nat | i < |cs[1..]| ensures Covers(k, Shape(cs[1..][i])) { assert cs[1..][i] == cs[i + 1]; }
      UnionKeyed(k, ts[1..], cs[1..]);
    }
  }

  /** Descend where the key is consistent with the query, emit the consistent rows. */
  ghost function Search(t: Tree, q: Box, s: nat): seq<Cube>
    decreases t, 0
  {
    match t
    case Row(c) => if LeafConsistent(Shape(c), q, s) then [c] else []
    case Node(key, kids) => if InternalConsistent(Shape(key), q, s) then SearchAll(kids, q, s) else []
  }

  ghost function SearchAll(ts: seq<Tree>, q: Box, s: nat): seq<Cube>
    decreases ts, 1
  {
    if ts == [] then [] else Search(ts[0], q, s) + SearchAll(ts[1..], q, s)
  }

  ghost function Test(q: Box, s: nat): Cube -> bool { (c: Cube) => LeafConsistent(Shape(c), q, s) }

  /** A key covers all the rows below it, at whatever depth. */
  lemma {:induction false} KeyCoversRows(k: Box, t: Tree, c: Cube)
    requires Keyed(t) && Covers(k, Shape(EntryKey(t))) && c in Rows(t)
    ensures Covers(k, Shape(c))
    decreases t, 0
  {
    if t.Node? {
      KeyCoversAllRows(Shape(t.key), t.kids, c);
      CoversTransitive(k, Shape(t.key), Shape(c));
    }
  }

  lemma {:induction false} KeyCoversAllRows(k: Box, ts: seq<Tree>, c: Cube)
    requires KeyedAll(k, ts) && c in RowsOfAll(ts)
    ensures Covers(k, Shape(c))
    decreases ts, 1
  {
    if c in Rows(ts[0]) { KeyCoversRows(k, ts[0], c); } else { KeyCoversAllRows(k, ts[1..], c); }
  }

  /** What contained-by asks of the rows it should find. */
  ghost predicate Findable(cs: seq<Cube>, q: Box, s: nat) {
    IsContainedBy(s) ==> forall c :: c in cs && LeafConsistent(Shape(c), q, s) ==> Straddles(q, c.dim)
  }

  /** The index returns exactly what the operator accepts, for every strategy and any mix of dimensions. */
  lemma {:induction false} SearchIsExact(t: Tree, q: Box, s: nat)
    requires Keyed(t) && Findable(Rows(t), q, s)
    ensures Search(t, q, s) == Filter(Rows(t), Test(q, s))
    decreases t, 0
  {
    if t.Node? {
      if InternalConsistent(Shape(t.key), q, s) {
        SearchAllIsExact(Shape(t.key), t.kids, q, s);
      } else {
        forall c | c in Rows(t) ensures !LeafConsistent(Shape(c), q, s) {
          KeyCoversAllRows(Shape(t.key), t.kids, c);
          if LeafConsistent(Shape(c), q, s) { KeyAdmits(Shape(t.key), Shape(c), q, s); }
        }
        FilterNone(Rows(t), Test(q, s));
      }
    }
  }

  lemma {:induction false} SearchAllIsExact(k: Box, ts: seq<Tree>, q: Box, s: nat)
    requires KeyedAll(k, ts) && Findable(RowsOfAll(ts), q, s)
    ensures SearchAll(ts, q, s) == Filter(RowsOfAll(ts), Test(q, s))
    decreases ts, 1
  {
    if ts != [] {
      SearchIsExact(ts[0], q, s);
      SearchAllIsExact(k, ts[1..], q, s);
      FilterConcat(Rows(ts[0]), RowsOfAll(ts[1..]), Test(q, s));
    }
  }

  /** A row that contained-by accepts and the index does not return: the query lies off zero in a second dimension. */
  lemma ContainedByLosesARow() returns (t: Tree, q: Box)
    ensures Keyed(t) && |Rows(t)| == 1
    ensures Search(t, q, CONTAINED_BY) == [] && Filter(Rows(t), Test(q, CONTAINED_BY)) == Rows(t)
  {
    var c: Cube := NDBox(1, true, [1.0]);
    var kids := [Row(c)];
    t := Node(c, kids);
    q := [Interval(0.0, 2.0), Interval(5.0, 6.0)];
    assert kids[1..] == [];
    assert Rows(kids[0]) == [c] && RowsOfAll(kids[1..]) == [];
    assert Rows(t) == [c] && [c][1..] == [];
    CoversItself(Shape(c));
    assert !Touch(At(Shape(c), 1), At(q, 1));
    assert Contains(q, Shape(c));
  }
}
