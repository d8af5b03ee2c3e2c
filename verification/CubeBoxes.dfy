/**
 * Cubes as contrib/cube stores them, and the boxes they stand for. Coordinates are reals. A cube's two
 * corners may be given in any order, and a dimension a cube lacks counts as the interval [0, 0].
 */
module CubeBoxes {

  datatype NDBox = NDBox(dim: nat, isPoint: bool, x: seq<real>) {
    predicate Valid() { |x| == if isPoint then dim else 2 * dim }

    function LL(i: nat): real
      requires Valid() && i < dim
    {
      x[i]
    }

    function UR(i: nat): real
      requires Valid() && i < dim
    {
      if isPoint then x[i] else x[i + dim]
    }
  }

  type Cube = c: NDBox | c.Valid() witness NDBox(0, true, [])

  function Min(a: real, b: real): real { if a <= b then a else b }

  function Max(a: real, b: real): real { if a >= b then a else b }

  function MaxDim(a: nat, b: nat): nat { if a >= b then a else b }

  // ---------------------------------------------------------------------------------------------
  // Boxes: one interval per dimension

  datatype Interval = Interval(lo: real, hi: real)

  type Span = s: Interval | s.lo <= s.hi witness Interval(0.0, 0.0)

  type Box = seq<Span>

  const ZERO: Span := Interval(0.0, 0.0)

  /** Dimension i of a box, zero where the box has none. */
  function At(b: Box, i: nat): Span { if i < |b| then b[i] else ZERO }

  /** The box a cube stands for, whichever way round its corners are. */
  function Shape(c: Cube): (b: Box)
    ensures |b| == c.dim
  {
    seq(c.dim, i requires 0 <= i < c.dim => Interval(Min(c.LL(i), c.UR(i)), Max(c.LL(i), c.UR(i))))
  }

  predicate Inside(s: Span, t: Span) { t.lo <= s.lo && s.hi <= t.hi }

  predicate Touch(s: Span, t: Span) { s.lo <= t.hi && t.lo <= s.hi }

  function Hull(s: Span, t: Span): Span { Interval(Min(s.lo, t.lo), Max(s.hi, t.hi)) }

  /** The common part of two intervals; between disjoint ones, the gap. */
  function Meet(s: Span, t: Span): Span {
    var lo, hi := Max(s.lo, t.lo), Min(s.hi, t.hi);
    Interval(Min(lo, hi), Max(lo, hi))
  }

  function Hulls(p: Box, q: Box): (b: Box)
    ensures |b| == MaxDim(|p|, |q|)
  {
    seq(MaxDim(|p|, |q|), i requires 0 <= i => Hull(At(p, i), At(q, i)))
  }

  function Meets(p: Box, q: Box): (b: Box)
    ensures |b| == MaxDim(|p|, |q|)
  {
    seq(MaxDim(|p|, |q|), i requires 0 <= i => Meet(At(p, i), At(q, i)))
  }

  // ---------------------------------------------------------------------------------------------
  // What the boxes mean: sets of points with finitely many coordinates, zero beyond them

  type Point = seq<real>

  function Coord(pt: Point, i: nat): real { if i < |pt| then pt[i] else 0.0 }

  predicate OnSide(pt: Point, b: Box, i: nat) { At(b, i).lo <= Coord(pt, i) <= At(b, i).hi }

  ghost predicate In(pt: Point, b: Box) { forall i: nat :: OnSide(pt, b, i) }

  /** A key covers a box when it has at least its dimensions and contains it, zero-padded. */
  ghost predicate Covers(k: Box, b: Box) {
    |k| >= |b| && forall i: nat :: i < |k| ==> Inside(At(b, i), k[i])
  }

  /** cube_contains_v0: the excess dimensions of q must be zero, those of p do not matter. */
  ghost predicate Contains(p: Box, q: Box) { forall i: nat :: i < |q| ==> Inside(q[i], At(p, i)) }

  ghost predicate Overlaps(p: Box, q: Box) {
    forall i: nat :: i < MaxDim(|p|, |q|) ==> Touch(At(p, i), At(q, i))
  }

  /** A point with given lower or upper bounds as coordinates. */
  function Lowest(b: Box, n: nat): (pt: Point)
    ensures |pt| == n
  {
    seq(n, i requires 0 <= i => At(b, i).lo)
  }

  function Highest(b: Box, n: nat): (pt: Point)
    ensures |pt| == n
  {
    seq(n, i requires 0 <= i => At(b, i).hi)
  }

  lemma CornersIn(b: Box)
    ensures In(Lowest(b, |b|), b) && In(Highest(b, |b|), b)
  {
    forall i: nat ensures OnSide(Lowest(b, |b|), b, i) && OnSide(Highest(b, |b|), b, i) {}
  }

  /** Two cubes overlap exactly if they share a point, whatever their dimensions. */
  lemma OverlapIsCommonPoint(p: Box, q: Box)
    ensures Overlaps(p, q) <==> exists pt :: In(pt, p) && In(pt, q)
  {
    var n := MaxDim(|p|, |q|);
    if Overlaps(p, q) {
      var pt := seq(n, i requires 0 <= i => Max(At(p, i).lo, At(q, i).lo));
      forall i: nat ensures OnSide(pt, p, i) && OnSide(pt, q, i) {
        if i < n { assert Touch(At(p, i), At(q, i)); }
      }
      assert In(pt, p) && In(pt, q);
    }
    if pt :| In(pt, p) && In(pt, q) {
      forall i: nat | i < n ensures Touch(At(p, i), At(q, i)) { assert OnSide(pt, p, i) && OnSide(pt, q, i); }
    }
  }

  ghost predicate Subset(q: Box, p: Box) { forall pt :: In(pt, q) ==> In(pt, p) }

  lemma SubsetIsInside(q: Box, p: Box)
    ensures Subset(q, p) <==> forall i: nat :: Inside(At(q, i), At(p, i))
  {
    if Subset(q, p) {
      CornersIn(q);
      forall i: nat ensures Inside(At(q, i), At(p, i)) {
        assert OnSide(Lowest(q, |q|), p, i) && OnSide(Highest(q, |q|), p, i);
      }
    }
    if forall i: nat :: Inside(At(q, i), At(p, i)) {
      forall pt | In(pt, q) ensures In(pt, p) {
        forall i: nat ensures OnSide(pt, p, i) { assert OnSide(pt, q, i) && Inside(At(q, i), At(p, i)); }
      }
    }
  }

  /** Covering is containing every point, in enough dimensions. */
  lemma CoversIsSubset(k: Box, b: Box)
    ensures Covers(k, b) <==> |k| >= |b| && Subset(b, k)
  {
    SubsetIsInside(b, k);
    if |k| >= |b| && Subset(b, k) {
      forall i: nat | i < |k| ensures Inside(At(b, i), k[i]) { assert Inside(At(b, i), At(k, i)); }
    }
  }

  /** contains() is inclusion of points, but only on the dimensions of the second cube. */
  lemma ContainsIsSubset(p: Box, q: Box)
    ensures Contains(p, q) <==> Subset(q, if |p| > |q| then p[..|q|] else p)
  {
    var p' := if |p| > |q| then p[..|q|] else p;
    SubsetIsInside(q, p');
    if forall i: nat :: Inside(At(q, i), At(p', i)) {
      forall i: nat | i < |q| ensures Inside(q[i], At(p, i)) { assert Inside(At(q, i), At(p', i)); }
    }
    if Contains(p, q) {
      forall i: nat ensures Inside(At(q, i), At(p', i)) { if i < |q| { assert Inside(q[i], At(p, i)); } }
    }
  }

  lemma CoversTransitive(k: Box, b: Box, c: Box)
    requires Covers(k, b) && Covers(b, c)
    ensures Covers(k, c)
  {
    forall i: nat | i < |k| ensures Inside(At(c, i), k[i]) {
      assert Inside(At(b, i), k[i]) && (i < |b| ==> Inside(At(c, i), b[i]));
    }
  }

  /** The union covers both boxes, and anything that covers both covers it. */
  lemma UnionIsLeast(p: Box, q: Box, k: Box)
    ensures Covers(Hulls(p, q), p) && Covers(Hulls(p, q), q)
    ensures Covers(k, p) && Covers(k, q) ==> Covers(k, Hulls(p, q))
  {
    if Covers(k, p) && Covers(k, q) {
      forall i: nat | i < |k| ensures Inside(At(Hulls(p, q), i), k[i]) {
        assert Inside(At(p, i), k[i]) && Inside(At(q, i), k[i]);
      }
    }
  }

  /** Of overlapping cubes, the intersection holds exactly the common points. */
  lemma IntersectionIsCommonPoints(p: Box, q: Box, pt: Point)
    requires Overlaps(p, q)
    ensures In(pt, Meets(p, q)) <==> In(pt, p) && In(pt, q)
  {
    forall i: nat ensures OnSide(pt, Meets(p, q), i) <==> OnSide(pt, p, i) && OnSide(pt, q, i) {
      if i < MaxDim(|p|, |q|) { assert Touch(At(p, i), At(q, i)); }
    }
  }

  // ---------------------------------------------------------------------------------------------
  // Union, intersection, size

  /** Turn filled corners into a cube, as a point if it is one. */
  method Finish(dim: nat, x: array<real>) returns (r: Cube)
    requires x.Length == 2 * dim
    ensures r.dim == dim
    ensures forall i :: 0 <= i < dim ==> r.LL(i) == x[i] && r.UR(i) == x[i + dim]
    ensures r.isPoint <==> forall i :: 0 <= i < dim ==> x[i] == x[i + dim]
  {
    for i := 0 to dim
      invariant forall j :: 0 <= j < i ==> x[j] == x[j + dim]
    {
      if x[i] != x[i + dim] { return NDBox(dim, false, x[..]); }
    }
    return NDBox(dim, true, x[..dim]);
  }

  /** The corners of the union, dimension by dimension; a has at least the dimensions of b. */
  method UnionCorners(a: Cube, b: Cube) returns (x: array<real>)
    requires a.dim >= b.dim
    ensures x.Length == 2 * a.dim
    ensures forall j :: 0 <= j < a.dim ==> Interval(x[j], x[j + a.dim]) == Hull(At(Shape(a), j), At(Shape(b), j))
  {
    var dim := a.dim;
    ghost var p, q := Shape(a), Shape(b);
    x := new real[2 * dim];
    for i := 0 to b.dim
      invariant forall j :: 0 <= j < i ==> Interval(x[j], x[j + dim]) == Hull(At(p, j), At(q, j))
    {
      x[i] := Min(Min(a.LL(i), a.UR(i)), Min(b.LL(i), b.UR(i)));
      x[i + dim] := Max(Max(a.LL(i), a.UR(i)), Max(b.LL(i), b.UR(i)));
    }
    for i := b.dim to dim
      invariant forall j :: 0 <= j < i ==> Interval(x[j], x[j + dim]) == Hull(At(p, j), At(q, j))
    {
      x[i] := Min(0.0, Min(a.LL(i), a.UR(i)));
      x[i + dim] := Max(0.0, Max(a.LL(i), a.UR(i)));
    }
  }

  /** cube_union_v0; aliased says that both arguments are the same datum, which is then returned. */
  method Union(a0: Cube, b0: Cube, aliased: bool) returns (r: Cube)
    requires aliased ==> a0 == b0
    ensures Shape(r) == Hulls(Shape(a0), Shape(b0))
    ensures !aliased ==> (r.isPoint <==> forall i :: 0 <= i < r.dim ==> r.LL(i) == r.UR(i))
  {
    if aliased { return a0; }
    var a, b := a0, b0;
    if a.dim < b.dim { a, b := b, a; }
    var x := UnionCorners(a, b);
    r := Finish(a.dim, x);
    forall i | 0 <= i < a.dim ensures Shape(r)[i] == Hull(At(Shape(a), i), At(Shape(b), i)) {
      assert Interval(r.LL(i), r.UR(i)) == Interval(x[i], x[i + a.dim]);
    }
  }

  /** The corners of the intersection; they may be the wrong way round. */
  method InterCorners(a: Cube, b: Cube) returns (x: array<real>)
    requires a.dim >= b.dim
    ensures x.Length == 2 * a.dim
    ensures forall j :: 0 <= j < a.dim ==> Crossing(At(Shape(a), j), At(Shape(b), j), x[j], x[j + a.dim])
  {
    var dim := a.dim;
    ghost var p, q := Shape(a), Shape(b);
    x := new real[2 * dim];
    for i := 0 to b.dim
      invariant forall j :: 0 <= j < i ==> Crossing(At(p, j), At(q, j), x[j], x[j + dim])
    {
      x[i] := Max(Min(a.LL(i), a.UR(i)), Min(b.LL(i), b.UR(i)));
      x[i + dim] := Min(Max(a.LL(i), a.UR(i)), Max(b.LL(i), b.UR(i)));
    }
    for i := b.dim to dim
      invariant forall j :: 0 <= j < i ==> Crossing(At(p, j), At(q, j), x[j], x[j + dim])
    {
      x[i] := Max(0.0, Min(a.LL(i), a.UR(i)));
      x[i + dim] := Min(0.0, Max(a.LL(i), a.UR(i)));
    }
  }

  predicate Crossing(s: Span, t: Span, from: real, to: real) { from == Max(s.lo, t.lo) && to == Min(s.hi, t.hi) }

  /** cube_inter; for disjoint cubes the result is the box between them. */
  method Inter(a0: Cube, b0: Cube) returns (r: Cube)
    ensures Shape(r) == Meets(Shape(a0), Shape(b0))
  {
    var a, b := a0, b0;
    if a.dim < b.dim { a, b := b, a; }
    var x := InterCorners(a, b);
    r := Finish(a.dim, x);
    forall i | 0 <= i < a.dim ensures Shape(r)[i] == Meet(At(Shape(a), i), At(Shape(b), i)) {
      assert r.LL(i) == x[i] && r.UR(i) == x[i + a.dim];
    }
  }

  /** The product of the first n side lengths. */
  function Product(b: Box, n: nat): real
    requires n <= |b|
  {
    if n == 0 then 1.0 else Product(b, n - 1) * (b[n - 1].hi - b[n - 1].lo)
  }

  function Volume(b: Box): real { if |b| == 0 then 0.0 else Product(b, |b|) }

  lemma {:induction false} FlatProduct(b: Box, n: nat)
    requires 0 < n <= |b| && forall i: nat :: i < |b| ==> b[i].lo == b[i].hi
    ensures Product(b, n) == 0.0
  {
    assert b[n - 1].hi - b[n - 1].lo == 0.0;
  }

  /** Stretching one side by c multiplies the volume by c. */
  lemma {:induction false} StretchedProduct(b: Box, b': Box, i: nat, c: real, n: nat)
    requires i < |b| == |b'| && n <= |b| && b' == b[i := b'[i]] && b'[i].hi - b'[i].lo == c * (b[i].hi - b[i].lo)
    ensures Product(b', n) == if i < n then c * Product(b, n) else Product(b, n)
  {
    if n > 0 {
      StretchedProduct(b, b', i, c, n - 1);
      var p, side := Product(b, n - 1), b[n - 1].hi - b[n - 1].lo;
      if i == n - 1 {
        assert p * (c * side) == c * (p * side);
      } else if i < n {
        assert (c * p) * side == c * (p * side);
      }
    }
  }

  lemma StretchedVolume(b: Box, b': Box, i: nat, c: real)
    requires i < |b| == |b'| && b' == b[i := b'[i]] && b'[i].hi - b'[i].lo == c * (b[i].hi - b[i].lo)
    ensures Volume(b') == c * Volume(b)
  {
    StretchedProduct(b, b', i, c, |b|);
  }

  lemma {:induction false} UnitProduct(b: Box, n: nat)
    requires n <= |b| && forall i: nat :: i < |b| ==> b[i].hi - b[i].lo == 1.0
    ensures Product(b, n) == 1.0
  {
    if n > 0 { UnitProduct(b, n - 1); }
  }

  /** A box with sides of length 1 has volume 1, and the box of no dimensions has volume 0. */
  lemma UnitVolume(b: Box)
    requires forall i: nat :: i < |b| ==> b[i].hi - b[i].lo == 1.0
    ensures Volume(b) == if |b| == 0 then 0.0 else 1.0
  {
    UnitProduct(b, |b|);
  }

  /** rt_cube_size: the shortcut for points agrees with the product. */
  method Size(a: Cube) returns (size: real)
    ensures size == Volume(Shape(a))
  {
    if a.isPoint || a.dim == 0 {
      if a.dim > 0 { FlatProduct(Shape(a), a.dim); }
      return 0.0;
    }
    size := 1.0;
    for i := 0 to a.dim
      invariant size == Product(Shape(a), i)
    {
      var d := a.UR(i) - a.LL(i);
      size := size * (if d < 0.0 then -d else d);
    }
  }

  // ---------------------------------------------------------------------------------------------
  // Contains, overlap

  /** cube_contains_v0. */
  method ContainsTest(a: Cube, b: Cube) returns (r: bool)
    ensures r == Contains(Shape(a), Shape(b))
  {
    var common := if a.dim < b.dim then a.dim else b.dim;
    if a.dim < b.dim {
      for i := a.dim to b.dim
        invariant forall j: nat :: a.dim <= j < i ==> Inside(Shape(b)[j], ZERO)
      {
        if b.LL(i) != 0.0 || b.UR(i) != 0.0 {
          assert !Inside(Shape(b)[i], At(Shape(a), i));
          return false;
        }
      }
    }
    for i := 0 to common
      invariant forall j: nat :: j < i ==> Inside(Shape(b)[j], Shape(a)[j])
    {
      if Min(a.LL(i), a.UR(i)) > Min(b.LL(i), b.UR(i)) || Max(a.LL(i), a.UR(i)) < Max(b.LL(i), b.UR(i)) {
        assert !Inside(Shape(b)[i], At(Shape(a), i));
        return false;
      }
    }
    return true;
  }

  /** cube_overlap_v0. */
  method OverlapTest(a0: Cube, b0: Cube) returns (r: bool)
    ensures r == Overlaps(Shape(a0), Shape(b0))
  {
    var a, b := a0, b0;
    if a.dim < b.dim { a, b := b, a; }
    for i := 0 to b.dim
      invariant forall j: nat :: j < i ==> Touch(At(Shape(a0), j), At(Shape(b0), j))
    {
      if Min(a.LL(i), a.UR(i)) > Max(b.LL(i), b.UR(i)) || Max(a.LL(i), a.UR(i)) < Min(b.LL(i), b.UR(i)) {
        assert !Touch(At(Shape(a0), i), At(Shape(b0), i));
        return false;
      }
    }
    for i := b.dim to a.dim
      invariant forall j: nat :: j < i ==> Touch(At(Shape(a0), j), At(Shape(b0), j))
    {
      if Min(a.LL(i), a.UR(i)) > 0.0 || Max(a.LL(i), a.UR(i)) < 0.0 {
        assert !Touch(At(Shape(a0), i), At(Shape(b0), i));
        return false;
      }
    }
    return true;
  }
}
