/**
 * The distances of contrib/cube, the lower bounds its nearest-neighbour search relies on, and cube_enlarge.
 * The Euclidean distance is taken squared; taking the root does not change any order.
 */
module CubeDistance {
  import opened CubeBoxes

  function Abs(x: real): real { if x < 0.0 then -x else x }

  /** How far two intervals are apart. */
  function Gap(s: Span, t: Span): real { Max(0.0, Max(t.lo - s.hi, s.lo - t.hi)) }

  /** distance_1D, on the corners as stored. */
  function Distance1D(a1: real, a2: real, b1: real, b2: real): (d: real)
    ensures Abs(d) == Gap(Interval(Min(a1, a2), Max(a1, a2)), Interval(Min(b1, b2), Max(b1, b2)))
    ensures d >= 0.0
  {
    if a1 <= b1 && a2 <= b1 && a1 <= b2 && a2 <= b2 then Min(b1, b2) - Max(a1, a2)
    else if a1 > b1 && a2 > b1 && a1 > b2 && a2 > b2 then Min(a1, a2) - Max(b1, b2)
    else 0.0
  }

  // ---------------------------------------------------------------------------------------------
  // Distances over the first n dimensions

  datatype Metric = Taxicab | EuclidSquared | Chebyshev

  function Times(x: real, y: real): real { x * y }

  function Square(x: real): real { Times(x, x) }

  /** Add the gap of one more dimension. */
  function Add(m: Metric, sum: real, gap: real): real {
    match m
    case Taxicab => sum + gap
    case EuclidSquared => sum + Square(gap)
    case Chebyshev => if gap > sum then gap else sum
  }

  function Upto(m: Metric, p: Box, q: Box, n: nat): real {
    if n == 0 then 0.0 else Add(m, Upto(m, p, q, n - 1), Gap(At(p, n - 1), At(q, n - 1)))
  }

  function Distance(m: Metric, p: Box, q: Box): real { Upto(m, p, q, MaxDim(|p|, |q|)) }

  /** The loops of cube_distance, distance_taxicab and distance_chebyshev; a has at least the dimensions of b. */
  method SumDistance(m: Metric, a: Cube, b: Cube) returns (d: real)
    requires a.dim >= b.dim
    ensures d == Upto(m, Shape(a), Shape(b), a.dim)
  {
    ghost var p, q := Shape(a), Shape(b);
    d := 0.0;
    for i := 0 to b.dim
      invariant d == Upto(m, p, q, i)
    {
      var gap := Abs(Distance1D(a.LL(i), a.UR(i), b.LL(i), b.UR(i)));
      assert gap == Gap(At(p, i), At(q, i));
      d := Add(m, d, gap);
    }
    for i := b.dim to a.dim
      invariant d == Upto(m, p, q, i)
    {
      var gap := Abs(Distance1D(a.LL(i), a.UR(i), 0.0, 0.0));
      assert gap == Gap(At(p, i), At(q, i));
      d := Add(m, d, gap);
    }
  }

  /** The three distances. */
  method ComputeDistance(m: Metric, a: Cube, b: Cube) returns (d: real)
    ensures d == Distance(m, Shape(a), Shape(b))
  {
    if a.dim < b.dim {
      d := SumDistance(m, b, a);
      DistanceSymmetric(m, Shape(a), Shape(b), b.dim);
    } else {
      d := SumDistance(m, a, b);
    }
  }

  lemma {:induction false} DistanceSymmetric(m: Metric, p: Box, q: Box, n: nat)
    ensures Upto(m, p, q, n) == Upto(m, q, p, n)
  {
    if n > 0 { DistanceSymmetric(m, p, q, n - 1); }
  }

  lemma {:induction false} DistanceNonNegative(m: Metric, p: Box, q: Box, n: nat)
    ensures Upto(m, p, q, n) >= 0.0
  {
    if n > 0 {
      DistanceNonNegative(m, p, q, n - 1);
      SquareNonNegative(Gap(At(p, n - 1), At(q, n - 1)));
    }
  }

  lemma SquareNonNegative(x: real)
    ensures Square(x) >= 0.0 && (x > 0.0 ==> Square(x) > 0.0)
  {
    if x > 0.0 { PositiveProduct(x, x); }
  }

  lemma PositiveProduct(x: real, y: real)
    requires x > 0.0 && y > 0.0
    ensures Times(x, y) > 0.0
  {
  }

  /** Dimensions that neither cube has add nothing. */
  lemma {:induction false} BeyondBoth(m: Metric, p: Box, q: Box, n: nat)
    requires n >= MaxDim(|p|, |q|)
    ensures Upto(m, p, q, n) == Distance(m, p, q)
    decreases n
  {
    if n > MaxDim(|p|, |q|) {
      BeyondBoth(m, p, q, n - 1);
      DistanceNonNegative(m, p, q, n - 1);
    }
  }

  lemma Monotone(m: Metric, sum: real, sum': real, gap: real, gap': real)
    requires 0.0 <= sum <= sum' && 0.0 <= gap <= gap'
    ensures Add(m, sum, gap) <= Add(m, sum', gap')
  {
    if m.EuclidSquared? {
      assert gap' * gap' - gap * gap == (gap' - gap) * (gap' + gap);
      assert (gap' - gap) * (gap' + gap) >= 0.0;
    }
  }

  lemma {:induction false} CloserThanCovered(m: Metric, k: Box, x: Box, q: Box, n: nat)
    requires Covers(k, x)
    ensures Upto(m, k, q, n) <= Upto(m, x, q, n)
  {
    if n > 0 {
      CloserThanCovered(m, k, x, q, n - 1);
      DistanceNonNegative(m, k, q, n - 1);
      assert n - 1 < |k| ==> Inside(At(x, n - 1), k[n - 1]);
      Monotone(m, Upto(m, k, q, n - 1), Upto(m, x, q, n - 1),
               Gap(At(k, n - 1), At(q, n - 1)), Gap(At(x, n - 1), At(q, n - 1)));
    }
  }

  /** A key is never farther from the query than a cube below it. */
  lemma DistanceAdmissible(m: Metric, k: Box, x: Box, q: Box)
    requires Covers(k, x)
    ensures Distance(m, k, q) <= Distance(m, x, q)
  {
    var n := MaxDim(|k|, |q|);
    BeyondBoth(m, k, q, n);
    BeyondBoth(m, x, q, n);
    CloserThanCovered(m, k, x, q, n);
  }

  lemma AddZero(m: Metric, sum: real, gap: real)
    requires sum >= 0.0 && gap >= 0.0
    ensures Add(m, sum, gap) == 0.0 <==> sum == 0.0 && gap == 0.0
  {
    match m
    case Taxicab =>
    case Chebyshev =>
    case EuclidSquared =>
      SquareNonNegative(gap);
  }

  lemma {:induction false} AllGapsZero(m: Metric, p: Box, q: Box, n: nat)
    ensures Upto(m, p, q, n) == 0.0 <==> forall i: nat :: i < n ==> Touch(At(p, i), At(q, i))
  {
    if n > 0 {
      AllGapsZero(m, p, q, n - 1);
      DistanceNonNegative(m, p, q, n - 1);
      var gap := Gap(At(p, n - 1), At(q, n - 1));
      AddZero(m, Upto(m, p, q, n - 1), gap);
      assert gap == 0.0 <==> Touch(At(p, n - 1), At(q, n - 1));
      assert (forall i: nat :: i < n ==> Touch(At(p, i), At(q, i))) <==>
             (forall i: nat :: i < n - 1 ==> Touch(At(p, i), At(q, i))) && Touch(At(p, n - 1), At(q, n - 1));
    }
  }

  /** Each of the distances vanishes exactly between cubes that overlap. */
  lemma ZeroIsOverlap(m: Metric, p: Box, q: Box)
    ensures Distance(m, p, q) == 0.0 <==> Overlaps(p, q)
  {
    AllGapsZero(m, p, q, MaxDim(|p|, |q|));
  }

  // ---------------------------------------------------------------------------------------------
  // What the distances are

  /** Multiply all coordinates by c. */
  function ScaledSpan(s: Span, c: real): Span {
    if c >= 0.0 then ScaledUp(s, c) else Negated(ScaledUp(s, -c))
  }

  function Negated(s: Span): Span { Interval(-s.hi, -s.lo) }

  function ScaledUp(s: Span, c: real): Span
    requires c >= 0.0
  {
    OrderKept(s.lo, s.hi, c);
    Interval(Times(c, s.lo), Times(c, s.hi))
  }

  lemma OrderKept(x: real, y: real, c: real)
    requires c >= 0.0 && x <= y
    ensures Times(c, x) <= Times(c, y)
  {
    assert Times(c, y) - Times(c, x) == c * (y - x);
  }

  function Scaled(b: Box, c: real): (r: Box)
    ensures |r| == |b|
  {
    seq(|b|, i requires 0 <= i < |b| => ScaledSpan(b[i], c))
  }

  lemma GapScales(s: Span, t: Span, c: real)
    ensures Gap(ScaledSpan(s, c), ScaledSpan(t, c)) == Times(Abs(c), Gap(s, t))
  {
    var m := Abs(c);
    assert Times(m, t.lo) - Times(m, s.hi) == Times(m, t.lo - s.hi);
    assert Times(m, s.lo) - Times(m, t.hi) == Times(m, s.lo - t.hi);
    MaxScales(t.lo - s.hi, s.lo - t.hi, m);
    MaxScales(0.0, Max(t.lo - s.hi, s.lo - t.hi), m);
  }

  lemma MaxScales(x: real, y: real, c: real)
    requires c >= 0.0
    ensures Max(Times(c, x), Times(c, y)) == Times(c, Max(x, y))
  {
    if x <= y { OrderKept(x, y, c); } else { OrderKept(y, x, c); }
  }

  /** By how much a distance grows when all coordinates grow by c. */
  function Factor(m: Metric, c: real): real { if m.EuclidSquared? then Square(c) else Abs(c) }

  lemma SquareOfProduct(c: real, x: real)
    ensures Square(Times(c, x)) == Times(Square(c), Square(x))
  {
    assert (c * x) * (c * x) == (c * c) * (x * x);
  }

  lemma SquareOfAbs(c: real)
    ensures Square(Abs(c)) == Square(c)
  {
  }

  lemma AddScales(m: Metric, sum: real, gap: real, c: real)
    ensures Add(m, Times(Factor(m, c), sum), Times(Abs(c), gap)) == Times(Factor(m, c), Add(m, sum, gap))
  {
    match m
    case Taxicab =>
    case EuclidSquared =>
      SquareOfProduct(Abs(c), gap);
      SquareOfAbs(c);
    case Chebyshev =>
      MaxScales(sum, gap, Abs(c));
  }

  lemma ZeroScales(c: real)
    ensures ScaledSpan(ZERO, c) == ZERO
  {
  }

  lemma SideScales(p: Box, c: real, i: nat)
    ensures At(Scaled(p, c), i) == ScaledSpan(At(p, i), c)
  {
    if i >= |p| { ZeroScales(c); }
  }

  /** In every dimension the gap is k times as large. */
  ghost predicate GapsScaled(p: Box, q: Box, p': Box, q': Box, k: real) {
    forall i: nat :: Gap(At(p', i), At(q', i)) == Times(k, Gap(At(p, i), At(q, i)))
  }

  lemma AllGapsScale(p: Box, q: Box, c: real)
    ensures GapsScaled(p, q, Scaled(p, c), Scaled(q, c), Abs(c))
  {
    forall i: nat ensures Gap(At(Scaled(p, c), i), At(Scaled(q, c), i)) == Times(Abs(c), Gap(At(p, i), At(q, i))) {
      SideScales(p, c, i);
      SideScales(q, c, i);
      GapScales(At(p, i), At(q, i), c);
    }
  }

  lemma {:induction false} UptoScales(m: Metric, p: Box, q: Box, p': Box, q': Box, n: nat, c: real)
    requires GapsScaled(p, q, p', q', Abs(c))
    ensures Upto(m, p', q', n) == Times(Factor(m, c), Upto(m, p, q, n))
  {
    if n > 0 {
      UptoScales(m, p, q, p', q', n - 1, c);
      AddScales(m, Upto(m, p, q, n - 1), Gap(At(p, n - 1), At(q, n - 1)), c);
    }
  }

  /** Scaling both cubes by c scales the squared Euclidean distance by c * c and the other two by |c|. */
  lemma DistanceScales(m: Metric, p: Box, q: Box, c: real)
    ensures Distance(m, Scaled(p, c), Scaled(q, c)) ==
            Times(if m.EuclidSquared? then Times(c, c) else Abs(c), Distance(m, p, q))
  {
    AllGapsScale(p, q, c);
    UptoScales(m, p, q, Scaled(p, c), Scaled(q, c), MaxDim(|p|, |q|), c);
  }

  /** The distance over some dimensions and more of them: a sum, or for the third metric the greater one. */
  lemma {:induction false} UptoConcat(m: Metric, p: Box, q: Box, p': Box, q': Box, n: nat)
    requires |p| == |q| && |p'| == |q'| && n <= |p'|
    ensures var near, far := Distance(m, p, q), Upto(m, p', q', n);
            Upto(m, p + p', q + q', |p| + n) == if m.Chebyshev? then Max(near, far) else near + far
  {
    if n == 0 {
      SameFront(m, p, q, p + p', q + q', |p|);
      DistanceNonNegative(m, p, q, |p|);
    } else {
      UptoConcat(m, p, q, p', q', n - 1);
      assert At(p + p', |p| + n - 1) == At(p', n - 1) && At(q + q', |p| + n - 1) == At(q', n - 1);
    }
  }

  lemma {:induction false} SameFront(m: Metric, p: Box, q: Box, p': Box, q': Box, n: nat)
    requires forall i: nat :: i < n ==> At(p, i) == At(p', i) && At(q, i) == At(q', i)
    ensures Upto(m, p, q, n) == Upto(m, p', q', n)
  {
    if n > 0 { SameFront(m, p, q, p', q', n - 1); }
  }

  /** Independent dimensions: the first two distances add up, of the third the greater one counts. */
  lemma DistanceOfConcat(m: Metric, p: Box, q: Box, p': Box, q': Box)
    requires |p| == |q| && |p'| == |q'|
    ensures var near, far := Distance(m, p, q), Distance(m, p', q');
            Distance(m, p + p', q + q') == if m.Chebyshev? then Max(near, far) else near + far
  {
    UptoConcat(m, p, q, p', q', |p'|);
  }

  /** A point as a cube. */
  function Dot(pt: Point): (b: Box)
    ensures |b| == |pt|
  {
    seq(|pt|, i requires 0 <= i < |pt| => Interval(pt[i], pt[i]))
  }

  /** The distance of two numbers. */
  lemma DistanceOnLine(m: Metric, x: real, y: real)
    ensures Distance(m, Dot([x]), Dot([y])) == if m.EuclidSquared? then Square(x - y) else Abs(x - y)
  {
    var p, q := Dot([x]), Dot([y]);
    assert Upto(m, p, q, 1) == Add(m, Upto(m, p, q, 0), Gap(At(p, 0), At(q, 0)));
    SquareOfAbs(x - y);
  }

  /** A point of s that no point of t is nearer to than to any other of s. */
  function Nearest(s: Span, t: Span): real {
    if s.hi < t.lo then s.hi else if t.hi < s.lo then s.lo else Max(s.lo, t.lo)
  }

  function NearestIn(p: Box, q: Box, n: nat): (pt: Point)
    ensures |pt| == n
  {
    seq(n, i requires 0 <= i < n => Nearest(At(p, i), At(q, i)))
  }

  lemma {:induction false} PointsNotCloser(m: Metric, p: Box, q: Box, x: Point, y: Point, n: nat)
    requires In(x, p) && In(y, q)
    ensures Upto(m, p, q, n) <= Upto(m, Dot(x), Dot(y), n)
  {
    if n > 0 {
      PointsNotCloser(m, p, q, x, y, n - 1);
      DistanceNonNegative(m, p, q, n - 1);
      assert OnSide(x, p, n - 1) && OnSide(y, q, n - 1);
      Monotone(m, Upto(m, p, q, n - 1), Upto(m, Dot(x), Dot(y), n - 1),
               Gap(At(p, n - 1), At(q, n - 1)), Gap(At(Dot(x), n - 1), At(Dot(y), n - 1)));
    }
  }

  lemma {:induction false} NearestAttains(m: Metric, p: Box, q: Box, d: nat, n: nat)
    requires n <= d
    ensures Upto(m, p, q, n) == Upto(m, Dot(NearestIn(p, q, d)), Dot(NearestIn(q, p, d)), n)
  {
    if n > 0 {
      NearestAttains(m, p, q, d, n - 1);
      var s, t := At(p, n - 1), At(q, n - 1);
      assert Gap(s, t) == Abs(Nearest(s, t) - Nearest(t, s));
    }
  }

  /** Each distance of two cubes is the least one between a point of the one and a point of the other. */
  lemma DistanceIsNearest(m: Metric, p: Box, q: Box)
    ensures forall x, y :: In(x, p) && In(y, q) ==> Distance(m, p, q) <= Distance(m, Dot(x), Dot(y))
    ensures exists x, y :: In(x, p) && In(y, q) && Distance(m, p, q) == Distance(m, Dot(x), Dot(y))
  {
    var d := MaxDim(|p|, |q|);
    forall x, y | In(x, p) && In(y, q) ensures Distance(m, p, q) <= Distance(m, Dot(x), Dot(y)) {
      var n := MaxDim(d, MaxDim(|x|, |y|));
      PointsNotCloser(m, p, q, x, y, n);
      BeyondBoth(m, p, q, n);
      BeyondBoth(m, Dot(x), Dot(y), n);
    }
    var x, y := NearestIn(p, q, d), NearestIn(q, p, d);
    NearestAttains(m, p, q, d, d);
    assert In(x, p) && In(y, q);
  }

  /** Where two cubes are apart, cube_inter yields the gap between them. */
  lemma MeetsIsGap(p: Box, q: Box, i: nat)
    requires i < MaxDim(|p|, |q|) && !Touch(At(p, i), At(q, i))
    ensures Meets(p, q)[i].hi - Meets(p, q)[i].lo == Gap(At(p, i), At(q, i))
  {
  }

  // ---------------------------------------------------------------------------------------------
  // Order by one coordinate

  datatype Result = Value(value: real) | ZeroIndex

  function AbsInt(x: int): nat { if x < 0 then -x else x }

  /** Coordinates 1 and 2 are the two bounds of dimension 0, and so on. */
  function DimensionOf(coord: int): nat
    requires coord != 0
  {
    (AbsInt(coord) - 1) / 2
  }

  predicate IsUpper(coord: int)
    requires coord != 0
  {
    (AbsInt(coord) - 1) % 2 == 1
  }

  /** The bound that a coordinate number stands for, negated if the number is negative. */
  function Bound(b: Box, coord: int): real
    requires coord != 0
  {
    var s := At(b, DimensionOf(coord));
    var v := if IsUpper(coord) then s.hi else s.lo;
    if coord < 0 then -v else v
  }

  type Int32 = x: int | -0x8000_0000 <= x < 0x8000_0000

  /** Signed arithmetic wraps around, as the server is compiled with -fwrapv. */
  function Wrap32(x: int): int {
    var m := x % 0x1_0000_0000;
    if m >= 0x8000_0000 then m - 0x1_0000_0000 else m
  }

  /** The conversion to unsigned that the comparison with 2 * DIM(cube) brings about. */
  function Unsigned(x: int): int { if x < 0 then x + 0x1_0000_0000 else x }

  /** The coordinate number without its sign, as the code computes it; the least integer stays negative. */
  function Magnitude(coord: int): int { if coord < 0 then Wrap32(-coord) else coord }

  /** For every coordinate number the two tests and the index come out as over unbounded integers. */
  lemma MagnitudeIsAbs(coord: int)
    requires -0x8000_0000 <= coord < 0x8000_0000 && coord != 0
    ensures Unsigned(Magnitude(coord)) == AbsInt(coord) && Wrap32(Magnitude(coord) - 1) == AbsInt(coord) - 1
  {
  }

  /** One bound of a dimension the cube has. */
  method Corner(cube: Cube, index: nat, takeMax: bool) returns (v: real)
    requires index < cube.dim
    ensures v == if takeMax then At(Shape(cube), index).hi else At(Shape(cube), index).lo
  {
    if cube.isPoint { return cube.x[index]; }
    return if takeMax then Max(cube.x[index], cube.x[index + cube.dim])
           else Min(cube.x[index], cube.x[index + cube.dim]);
  }

  /** The bound of the dimension a coordinate number stands for, zero if the cube does not have it. */
  method CornerOf(cube: Cube, coord: Int32, takeMax: bool) returns (v: real)
    requires coord != 0
    ensures var s := At(Shape(cube), DimensionOf(coord)); v == if takeMax then s.hi else s.lo
  {
    MagnitudeIsAbs(coord);
    var c := Magnitude(coord);
    if Unsigned(c) > 2 * cube.dim { return 0.0; }
    v := Corner(cube, Wrap32(c - 1) / 2, takeMax);
  }

  /** cube_coord_llur, the operator ~>. */
  method CoordLlur(cube: Cube, coord: Int32) returns (r: Result)
    ensures r == if coord == 0 then ZeroIndex else Value(Bound(Shape(cube), coord))
  {
    if coord == 0 { return ZeroIndex; }
    MagnitudeIsAbs(coord);
    var v := CornerOf(cube, coord, Wrap32(Magnitude(coord) - 1) % 2 == 1);
    return Value(if coord < 0 then -v else v);
  }

  /** Odd numbers name lower bounds, even ones upper bounds, two to a dimension; the sign carries over. */
  lemma BoundExactly(b: Box, k: nat)
    ensures Bound(b, 2 * k + 1) == At(b, k).lo && Bound(b, 2 * k + 2) == At(b, k).hi
    ensures Bound(b, -(2 * k + 1)) == -At(b, k).lo && Bound(b, -(2 * k + 2)) == -At(b, k).hi
  {
    assert (2 * k + 1) / 2 == k && (2 * k + 1) % 2 == 1;
  }

  /** The least value the coordinate can take for a cube below the key. */
  function LeastBound(k: Box, coord: int): real
    requires coord != 0
  {
    var s := At(k, DimensionOf(coord));
    if coord < 0 then -s.hi else s.lo
  }

  /** g_cube_distance for ~>: on inner pages the bound that serves all cubes below. */
  method CoordDistance(cube: Cube, coord: Int32, leaf: bool) returns (r: Result)
    ensures r == if coord == 0 then ZeroIndex
                 else Value(if leaf then Bound(Shape(cube), coord) else LeastBound(Shape(cube), coord))
  {
    if coord == 0 { return ZeroIndex; }
    MagnitudeIsAbs(coord);
    var upper, inverse := Wrap32(Magnitude(coord) - 1) % 2 == 1, coord < 0;
    var v := CornerOf(cube, coord, if leaf then upper else inverse);
    return Value(if inverse then -v else v);
  }

  /** The value at a key is at most the operator's value for any cube below it, for both directions. */
  lemma CoordAdmissible(k: Box, x: Box, coord: int)
    requires Covers(k, x) && coord != 0
    ensures LeastBound(k, coord) <= Bound(x, coord)
  {
    var i := DimensionOf(coord);
    assert i < |k| ==> Inside(At(x, i), k[i]);
  }

  // ---------------------------------------------------------------------------------------------
  // cube_enlarge

  const CUBE_MAX_DIM := 100

  /** How many dimensions the result has; only a positive radius adds any. */
  function EnlargedDim(d: nat, r: real, n: int): nat {
    var n' := if n > CUBE_MAX_DIM then CUBE_MAX_DIM else n;
    if r > 0.0 && n' > d then n' else d
  }

  /** An interval pushed out by r, or pulled in as far as its midpoint. */
  function Widened(s: Span, r: real): Span {
    if s.lo - r <= s.hi + r then Interval(s.lo - r, s.hi + r)
    else Interval((s.lo + s.hi) / 2.0, (s.lo + s.hi) / 2.0)
  }

  function Enlarged(b: Box, r: real, n: int): (e: Box)
    ensures |e| == EnlargedDim(|b|, r, n)
  {
    seq(EnlargedDim(|b|, r, n), i requires 0 <= i => Widened(At(b, i), r))
  }

  /** The corners of the enlarged cube. */
  method EnlargedCorners(a: Cube, r: real, dim: nat) returns (x: array<real>)
    requires dim >= a.dim && (dim > a.dim ==> r > 0.0)
    ensures x.Length == 2 * dim
    ensures forall j :: 0 <= j < dim ==> Interval(x[j], x[j + dim]) == Widened(At(Shape(a), j), r)
  {
    x := new real[2 * dim];
    ghost var p := Shape(a);
    for i := 0 to a.dim
      invariant forall j :: 0 <= j < i ==> Interval(x[j], x[j + dim]) == Widened(At(p, j), r)
    {
      if a.LL(i) >= a.UR(i) {
        x[i], x[i + dim] := a.UR(i) - r, a.LL(i) + r;
      } else {
        x[i], x[i + dim] := a.LL(i) - r, a.UR(i) + r;
      }
      if x[i] > x[i + dim] {
        x[i] := (x[i] + x[i + dim]) / 2.0;
        x[i + dim] := x[i];
      }
    }
    for i := a.dim to dim
      invariant forall j :: 0 <= j < i ==> Interval(x[j], x[j + dim]) == Widened(At(p, j), r)
    {
      x[i], x[i + dim] := -r, r;
    }
  }

  /** cube_enlarge. */
  method Enlarge(a: Cube, r: real, n0: int) returns (e: Cube)
    ensures Shape(e) == Enlarged(Shape(a), r, n0)
  {
    var n, dim := n0, 0;
    if n > CUBE_MAX_DIM { n := CUBE_MAX_DIM; }
    if r > 0.0 && n > 0 { dim := n; }
    if a.dim > dim { dim := a.dim; }
    var x := EnlargedCorners(a, r, dim);
    e := Finish(dim, x);
    forall i | 0 <= i < dim ensures Shape(e)[i] == Enlarged(Shape(a), r, n0)[i] {
      assert Interval(x[i], x[i + dim]) == Widened(At(Shape(a), i), r);
    }
  }

  /** Enlarging reaches p exactly if p is within r in every dimension of the result, and touches in the others. */
  lemma EnlargedOverlaps(a: Box, r: real, n: int, p: Box)
    requires r >= 0.0
    ensures Overlaps(Enlarged(a, r, n), p) <==>
            forall i: nat :: i < MaxDim(EnlargedDim(|a|, r, n), |p|) ==>
              Gap(At(a, i), At(p, i)) <= if i < EnlargedDim(|a|, r, n) then r else 0.0
  {
    var e := Enlarged(a, r, n);
    forall i: nat | i < MaxDim(|e|, |p|)
      ensures Touch(At(e, i), At(p, i)) <==> Gap(At(a, i), At(p, i)) <= if i < |e| then r else 0.0
    {
    }
  }

  lemma {:induction false} ChebyshevWithin(p: Box, q: Box, n: nat, r: real)
    requires r >= 0.0
    ensures Upto(Chebyshev, p, q, n) <= r <==> forall i: nat :: i < n ==> Gap(At(p, i), At(q, i)) <= r
  {
    if n > 0 { ChebyshevWithin(p, q, n - 1, r); }
  }

  /** The box of radius r around a reaches the cubes within Chebyshev distance r, up to the dimensions asked for. */
  lemma EnlargeIsChebyshevBall(a: Box, r: real, n: int, p: Box)
    requires r >= 0.0 && |p| <= MaxDim(|a|, if n < 0 then 0 else if n > CUBE_MAX_DIM then CUBE_MAX_DIM else n)
    ensures Overlaps(Enlarged(a, r, n), p) <==> Distance(Chebyshev, a, p) <= r
  {
    var m := MaxDim(EnlargedDim(|a|, r, n), |p|);
    EnlargedOverlaps(a, r, n, p);
    BeyondBoth(Chebyshev, a, p, m);
    ChebyshevWithin(a, p, m, r);
    assert r > 0.0 ==> |p| <= EnlargedDim(|a|, r, n);
  }

  /** With more dimensions than that, p also has to touch zero in them. */
  lemma EnlargeExactly(a: Box, r: real, n: int, p: Box)
    requires r >= 0.0
    ensures var d := EnlargedDim(|a|, r, n);
            Overlaps(Enlarged(a, r, n), p) <==>
            Distance(Chebyshev, a, p) <= r && forall i: nat :: d <= i < |p| ==> Touch(p[i], ZERO)
  {
    var m := MaxDim(EnlargedDim(|a|, r, n), |p|);
    EnlargedOverlaps(a, r, n, p);
    BeyondBoth(Chebyshev, a, p, m);
    ChebyshevWithin(a, p, m, r);
    forall i: nat | EnlargedDim(|a|, r, n) <= i < |p| ensures Gap(At(a, i), At(p, i)) <= 0.0 <==> Touch(p[i], ZERO) {}
  }

  /** A cube one dimension too high: near enough, yet not reached. */
  lemma EnlargeMissesHigherDimensions()
    ensures Distance(Chebyshev, [], [Interval(1.0, 1.0)]) <= 2.0
    ensures !Overlaps(Enlarged([], 2.0, 0), [Interval(1.0, 1.0)])
  {
    var p: Box := [Interval(1.0, 1.0)];
    assert Upto(Chebyshev, [], p, 1) == Add(Chebyshev, Upto(Chebyshev, [], p, 0), Gap(At([], 0), At(p, 0)));
    assert !Touch(At(Enlarged([], 2.0, 0), 0), At(p, 0));
  }

  /** Every side keeps its middle and is longer by 2 * r, or a point where that is negative. */
  lemma EnlargedExactly(b: Box, r: real, n: int, i: nat)
    requires i < |Enlarged(b, r, n)|
    ensures var s, e := At(b, i), Enlarged(b, r, n)[i];
            e.lo + e.hi == s.lo + s.hi && e.hi - e.lo == Max(0.0, s.hi - s.lo + 2.0 * r)
  {
    assert Enlarged(b, r, n)[i] == Widened(At(b, i), r);
  }

  /** The same box, with zeros for further dimensions. */
  function Padded(b: Box, n: nat): Box { b + if n <= |b| then [] else seq(n - |b|, i => ZERO) }

  /** Shrinking by r undoes enlarging by r, except that added dimensions stay, as zeros. */
  lemma ShrinkUndoesEnlarge(b: Box, r: real, n: int, m: int)
    requires r >= 0.0
    ensures Enlarged(Enlarged(b, r, n), -r, m) == Padded(b, EnlargedDim(|b|, r, n))
  {
    var e, back := Enlarged(b, r, n), Enlarged(Enlarged(b, r, n), -r, m);
    forall i | 0 <= i < |e| ensures back[i] == At(b, i) {
      assert e[i] == Interval(At(b, i).lo - r, At(b, i).hi + r);
      assert back[i] == Widened(e[i], -r);
    }
  }

  /** A negative radius stays inside, whatever its size. */
  lemma ShrinkStaysInside(b: Box, r: real, n: int)
    requires r <= 0.0
    ensures |Enlarged(b, r, n)| == |b| && Covers(b, Enlarged(b, r, n))
  {
    forall i: nat | i < |b| ensures Inside(At(Enlarged(b, r, n), i), b[i]) {
      assert Enlarged(b, r, n)[i] == Widened(At(b, i), r);
    }
  }
}
