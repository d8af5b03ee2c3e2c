/** cube_cmp_v0, the comparison behind the B-tree operators of contrib/cube and behind equality. */
module CubeOrder {
  import opened CubeBoxes

  /** Sign of the lexicographic comparison. */
  function Lex(s: seq<real>, t: seq<real>): int
    requires |s| == |t|
  {
    if s == [] then 0 else if s[0] > t[0] then 1 else if s[0] < t[0] then -1 else Lex(s[1..], t[1..])
  }

  lemma {:induction false} LexAt(s: seq<real>, t: seq<real>, k: nat)
    requires |s| == |t| && k < |s| && s[k] != t[k] && forall i :: 0 <= i < k ==> s[i] == t[i]
    ensures Lex(s, t) == if s[k] > t[k] then 1 else -1
  {
    if k > 0 { LexAt(s[1..], t[1..], k - 1); }
  }

  lemma {:induction false} LexZero(s: seq<real>, t: seq<real>)
    requires |s| == |t|
    ensures Lex(s, t) == 0 <==> s == t
  {
    if s != [] {
      LexZero(s[1..], t[1..]);
      assert s == [s[0]] + s[1..] && t == [t[0]] + t[1..];
    }
  }

  lemma {:induction false} LexAntisymmetric(s: seq<real>, t: seq<real>)
    requires |s| == |t|
    ensures Lex(s, t) == -Lex(t, s)
  {
    if s != [] { LexAntisymmetric(s[1..], t[1..]); }
  }

  lemma {:induction false} LexTransitive(s: seq<real>, t: seq<real>, u: seq<real>)
    requires |s| == |t| == |u| && Lex(s, t) <= 0 && Lex(t, u) <= 0
    ensures Lex(s, u) <= 0
  {
    if s != [] && s[0] == t[0] == u[0] { LexTransitive(s[1..], t[1..], u[1..]); }
  }

  lemma {:induction false} LexConcat(s: seq<real>, t: seq<real>, s': seq<real>, t': seq<real>)
    requires |s| == |t| && |s'| == |t'|
    ensures Lex(s + s', t + t') == if Lex(s, t) != 0 then Lex(s, t) else Lex(s', t')
  {
    if s == [] {
      assert s + s' == s' && t + t' == t';
    } else {
      assert (s + s')[1..] == s[1..] + s' && (t + t')[1..] == t[1..] + t';
      LexConcat(s[1..], t[1..], s', t');
    }
  }

  // ---------------------------------------------------------------------------------------------
  // The comparison

  /** Lower bounds, then upper bounds, of the dimensions from..to. */
  function Key(b: Box, from: nat, to: nat): (k: seq<real>)
    requires from <= to
    ensures |k| == 2 * (to - from)
  {
    seq(to - from, i requires 0 <= i => At(b, from + i).lo) + seq(to - from, i requires 0 <= i => At(b, from + i).hi)
  }

  lemma KeyAt(b: Box, from: nat, to: nat, i: nat)
    requires from <= i < to
    ensures Key(b, from, to)[i - from] == At(b, i).lo && Key(b, from, to)[to - from + (i - from)] == At(b, i).hi
  {
    assert from + (i - from) == i;
  }

  function MinDim(a: nat, b: nat): nat { if a <= b then a else b }

  function Sign(x: int): int { if x > 0 then 1 else if x < 0 then -1 else 0 }

  /** The common dimensions decide, then the others against zero, then the number of dimensions. */
  function Cmp(p: Box, q: Box): int {
    var d, e := MinDim(|p|, |q|), MaxDim(|p|, |q|);
    var common := Lex(Key(p, 0, d), Key(q, 0, d));
    var excess := Lex(Key(p, d, e), Key(q, d, e));
    if common != 0 then common else if excess != 0 then excess else Sign(|p| - |q|)
  }

  function Low(c: Cube, i: nat): real { if i < c.dim then Min(c.LL(i), c.UR(i)) else 0.0 }

  function High(c: Cube, i: nat): real { if i < c.dim then Max(c.LL(i), c.UR(i)) else 0.0 }

  /** The first loop of such a pair: lower bounds. */
  method CompareLows(a: Cube, b: Cube, from: nat, to: nat) returns (r: int)
    requires from <= to
    ensures var s, t := Key(Shape(a), from, to), Key(Shape(b), from, to);
            if r == 0 then forall j :: 0 <= j < to - from ==> s[j] == t[j] else r == Lex(s, t)
  {
    ghost var s, t := Key(Shape(a), from, to), Key(Shape(b), from, to);
    for i := from to to
      invariant forall j :: 0 <= j < i - from ==> s[j] == t[j]
    {
      KeyAt(Shape(a), from, to, i);
      KeyAt(Shape(b), from, to, i);
      if Low(a, i) > Low(b, i) { LexAt(s, t, i - from); return 1; }
      if Low(a, i) < Low(b, i) { LexAt(s, t, i - from); return -1; }
    }
    return 0;
  }

  /** The second loop: upper bounds. */
  method CompareHighs(a: Cube, b: Cube, from: nat, to: nat) returns (r: int)
    requires from <= to
    requires var s, t := Key(Shape(a), from, to), Key(Shape(b), from, to);
             forall j :: 0 <= j < to - from ==> s[j] == t[j]
    ensures r == Lex(Key(Shape(a), from, to), Key(Shape(b), from, to))
  {
    ghost var s, t, n := Key(Shape(a), from, to), Key(Shape(b), from, to), to - from;
    for i := from to to
      invariant forall j :: 0 <= j < n + i - from ==> s[j] == t[j]
    {
      KeyAt(Shape(a), from, to, i);
      KeyAt(Shape(b), from, to, i);
      if High(a, i) > High(b, i) { LexAt(s, t, n + i - from); return 1; }
      if High(a, i) < High(b, i) { LexAt(s, t, n + i - from); return -1; }
    }
    LexZero(s, t);
    return 0;
  }

  /** One of the pairs of loops of cube_cmp_v0: lower bounds first, then upper bounds. */
  method CompareRange(a: Cube, b: Cube, from: nat, to: nat) returns (r: int)
    requires from <= to
    ensures r == Lex(Key(Shape(a), from, to), Key(Shape(b), from, to))
  {
    r := CompareLows(a, b, from, to);
    if r == 0 { r := CompareHighs(a, b, from, to); }
  }

  /** cube_cmp_v0. */
  method Compare(a: Cube, b: Cube) returns (r: int)
    ensures r == Cmp(Shape(a), Shape(b))
  {
    r := CompareRange(a, b, 0, MinDim(a.dim, b.dim));
    if r != 0 { return; }
    if a.dim > b.dim {
      r := CompareRange(a, b, b.dim, a.dim);
      return if r != 0 then r else 1;
    }
    if a.dim < b.dim {
      r := CompareRange(a, b, a.dim, b.dim);
      return if r != 0 then r else -1;
    }
    return 0;
  }

  /** Cubes compare as equal exactly if they have the same dimensions and the same bounds. */
  lemma EqualIsSameBox(p: Box, q: Box)
    ensures Cmp(p, q) == 0 <==> p == q
  {
    if Cmp(p, q) == 0 {
      LexZero(Key(p, 0, |p|), Key(q, 0, |p|));
      forall i | 0 <= i < |p| ensures p[i] == q[i] {
        assert Key(p, 0, |p|)[i] == p[i].lo && Key(q, 0, |p|)[i] == q[i].lo;
        assert Key(p, 0, |p|)[|p| + i] == p[i].hi && Key(q, 0, |p|)[|p| + i] == q[i].hi;
      }
    }
    if p == q { LexZero(Key(p, 0, |p|), Key(q, 0, |p|)); }
  }

  lemma CmpAntisymmetric(p: Box, q: Box)
    ensures Cmp(p, q) == -Cmp(q, p)
  {
    var d, e := MinDim(|p|, |q|), MaxDim(|p|, |q|);
    LexAntisymmetric(Key(p, 0, d), Key(q, 0, d));
    LexAntisymmetric(Key(p, d, e), Key(q, d, e));
  }

  // ---------------------------------------------------------------------------------------------
  // Transitivity, and where it ends

  /** Among these dimensions, given in ascending order, the comparison is transitive. */
  predicate Orderly(l: nat, m: nat, n: nat) { l == m || (l == 0 && m == n) }

  ghost predicate WithDims(p: Box, q: Box, r: Box, l: nat, m: nat, n: nat) {
    multiset{|p|, |q|, |r|} == multiset{l, m, n}
  }

  ghost predicate TransitiveOn(l: nat, m: nat, n: nat) {
    forall p: Box, q: Box, r: Box :: WithDims(p, q, r, l, m, n) && Cmp(p, q) <= 0 && Cmp(q, r) <= 0 ==> Cmp(p, r) <= 0
  }

  /** The comparison of two of the cubes, as a plain lexicographic one. */
  function Rank(b: Box, d: nat, e: nat): (k: seq<real>)
    requires d <= e
    ensures |k| == 2 * e + 1
  {
    Key(b, 0, d) + Key(b, d, e) + [|b| as real]
  }

  lemma CmpIsRank(p: Box, q: Box, d: nat, e: nat)
    requires d <= e && {|p|, |q|} <= {d, e} && (|p| == |q| == e ==> d == 0 || d == e)
    ensures Cmp(p, q) == Lex(Rank(p, d, e), Rank(q, d, e))
  {
    var s, t, s', t' := Key(p, 0, d), Key(q, 0, d), Key(p, d, e), Key(q, d, e);
    LexConcat(s + s', t + t', [|p| as real], [|q| as real]);
    LexConcat(s, t, s', t');
    if |p| == |q| == d { LexZero(s', t'); }
  }

  lemma OrderlyIsTransitive(p: Box, q: Box, r: Box, l: nat, m: nat, n: nat)
    requires l <= m <= n && Orderly(l, m, n) && WithDims(p, q, r, l, m, n) && Cmp(p, q) <= 0 && Cmp(q, r) <= 0
    ensures Cmp(p, r) <= 0
  {
    Among(p, q, r, l, m, n);
    CmpIsRank(p, q, l, n);
    CmpIsRank(q, r, l, n);
    CmpIsRank(p, r, l, n);
    LexTransitive(Rank(p, l, n), Rank(q, l, n), Rank(r, l, n));
  }

  lemma Among(p: Box, q: Box, r: Box, l: nat, m: nat, n: nat)
    requires l <= m <= n && Orderly(l, m, n) && WithDims(p, q, r, l, m, n)
    ensures {|p|, |q|, |r|} <= {l, n}
    ensures l == m < n ==> multiset{|p|, |q|, |r|}[n] == 1
  {
    var w := multiset{|p|, |q|, |r|};
    assert |p| in w && |q| in w && |r| in w;
    assert multiset{l, m, n}[n] == 1 || m == n;
  }

  function Flat(n: nat): (b: Box)
    ensures |b| == n && forall i :: 0 <= i < n ==> b[i] == ZERO
  {
    seq(n, i => ZERO)
  }

  /** Three cubes that each precede the next, in a circle. */
  ghost predicate Circle(p: Box, q: Box, r: Box) { Cmp(p, q) < 0 && Cmp(q, r) < 0 && Cmp(r, p) < 0 }

  lemma CmpAtLow(p: Box, q: Box, k: nat)
    requires k < MinDim(|p|, |q|) && p[k].lo < q[k].lo && forall i: nat :: i < k ==> p[i].lo == q[i].lo
    ensures Cmp(p, q) < 0
  {
    var d := MinDim(|p|, |q|);
    LexAt(Key(p, 0, d), Key(q, 0, d), k);
  }

  lemma CmpAtHigh(p: Box, q: Box, k: nat)
    requires k < MinDim(|p|, |q|) && p[k].hi < q[k].hi
    requires forall i: nat :: i < MinDim(|p|, |q|) ==> p[i].lo == q[i].lo && (i < k ==> p[i].hi == q[i].hi)
    ensures Cmp(p, q) < 0
  {
    var d := MinDim(|p|, |q|);
    var s, t := Key(p, 0, d), Key(q, 0, d);
    forall i | 0 <= i < d + k ensures s[i] == t[i] {
      if i >= d { assert s[i] == p[i - d].hi && t[i] == q[i - d].hi; }
    }
    LexAt(s, t, d + k);
  }

  /** The lower bounds from d up to k are zero. */
  predicate FlatUpto(p: Box, d: nat, k: nat)
    requires k <= |p|
  {
    forall i: nat :: d <= i < k ==> p[i].lo == 0.0
  }

  lemma FlatLows(p: Box, q: Box, d: nat, e: nat)
    requires |q| == d < e == |p| && FlatUpto(p, d, e)
    ensures Lex(Key(p, d, e), Key(q, d, e)) >= 0
  {
    var s, t, n := Key(p, d, e), Key(q, d, e), e - d;
    forall i | 0 <= i < |s| ensures s[i] >= t[i] {
      var k := if i < n then d + i else d + (i - n);
      KeyAt(p, d, e, k);
      KeyAt(q, d, e, k);
      assert At(p, k) == p[k] && p[k].lo <= p[k].hi && At(q, k) == ZERO;
    }
    LexAbove(s, t);
  }

  lemma LowDecides(p: Box, q: Box, k: nat)
    requires |q| <= k < |p| && FlatUpto(p, |q|, k) && p[k].lo != 0.0
    ensures Lex(Key(p, |q|, |p|), Key(q, |q|, |p|)) == if p[k].lo > 0.0 then 1 else -1
  {
    var d, e := |q|, |p|;
    var s, t := Key(p, d, e), Key(q, d, e);
    KeyAt(p, d, e, k);
    KeyAt(q, d, e, k);
    forall i | 0 <= i < k - d ensures s[i] == t[i] {
      KeyAt(p, d, e, d + i);
      KeyAt(q, d, e, d + i);
    }
    LexAt(s, t, k - d);
  }

  /** Where the common dimensions agree, more dimensions count as more, unless a lower bound below zero comes first. */
  lemma CmpBeyond(p: Box, q: Box)
    requires |p| > |q| && p[..|q|] == q
    ensures Cmp(p, q) < 0 <==> exists k: nat :: |q| <= k < |p| && FlatUpto(p, |q|, k) && p[k].lo < 0.0
    ensures Cmp(p, q) != 0
  {
    var d, e := |q|, |p|;
    assert Key(p, 0, d) == Key(q, 0, d);
    LexZero(Key(p, 0, d), Key(q, 0, d));
    var k := d;
    while k < e && p[k].lo == 0.0
      invariant d <= k <= e && FlatUpto(p, d, k)
    {
      k := k + 1;
    }
    if k == e { FlatLows(p, q, d, e); } else { LowDecides(p, q, k); }
  }

  lemma {:induction false} LexAbove(s: seq<real>, t: seq<real>)
    requires |s| == |t| && forall i :: 0 <= i < |s| ==> s[i] >= t[i]
    ensures Lex(s, t) >= 0
  {
    if s != [] { LexAbove(s[1..], t[1..]); }
  }

  lemma CircleAboveTwo(l: nat, m: nat, n: nat) returns (p: Box, q: Box, r: Box)
    requires 0 < l < m <= n
    ensures |p| == m && |q| == l && |r| == n && Circle(p, q, r)
  {
    q := Flat(l)[0 := Interval(0.0, 1.0)];
    p := Flat(m)[l := Interval(1.0, 1.0)];
    r := Flat(n)[0 := Interval(0.0, 2.0)];
    CmpAtHigh(p, q, 0);
    CmpAtHigh(q, r, 0);
    CmpAtLow(r, p, l);
  }

  lemma CircleAboveNone(m: nat, n: nat) returns (p: Box, q: Box, r: Box)
    requires 0 < m < n
    ensures |p| == 0 && |q| == m && |r| == n && Circle(p, q, r)
  {
    p := [];
    q := Flat(m)[0 := Interval(0.0, 1.0)];
    r := Flat(n)[0 := Interval(0.0, 2.0)][m := Interval(-1.0, -1.0)];
    LexAt(Key(p, 0, m), Key(q, 0, m), m);
    CmpAtHigh(q, r, 0);
    LexAt(Key(r, 0, n), Key(p, 0, n), m);
  }

  /**
   * The comparison is a total order on cubes of one dimension, and no further than this: among
   * dimensions l <= m <= n it is transitive exactly if the two smaller ones agree, or the smallest
   * is 0 and the others agree.
   */
  lemma TransitiveExactly(l: nat, m: nat, n: nat)
    requires l <= m <= n
    ensures TransitiveOn(l, m, n) <==> Orderly(l, m, n)
  {
    if Orderly(l, m, n) {
      forall p: Box, q: Box, r: Box | WithDims(p, q, r, l, m, n) && Cmp(p, q) <= 0 && Cmp(q, r) <= 0
        ensures Cmp(p, r) <= 0
      {
        OrderlyIsTransitive(p, q, r, l, m, n);
      }
    } else if l > 0 {
      var p, q, r := CircleAboveTwo(l, m, n);
      CmpAntisymmetric(p, r);
      assert WithDims(p, q, r, l, m, n);
    } else {
      var p, q, r := CircleAboveNone(m, n);
      CmpAntisymmetric(p, r);
      assert WithDims(p, q, r, l, m, n);
    }
  }
}
