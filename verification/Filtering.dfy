/** The answer to a query without an index: look at every row in turn. */
module Filtering {

  function Filter<T>(xs: seq<T>, p: T -> bool): seq<T> {
    if xs == [] then [] else (if p(xs[0]) then [xs[0]] else []) + Filter(xs[1..], p)
  }

  lemma FilterOne<T>(x: T, p: T -> bool)
    ensures Filter([x], p) == if p(x) then [x] else []
  {
    assert Filter([x][1..], p) == [];
  }

  lemma {:induction false} FilterConcat<T>(xs: seq<T>, ys: seq<T>, p: T -> bool)
    ensures Filter(xs + ys, p) == Filter(xs, p) + Filter(ys, p)
  {
    if xs == [] {
      assert xs + ys == ys;
    } else {
      FilterConcat(xs[1..], ys, p);
      FilterFirst(xs, ys, p);
    }
  }

  lemma FilterFirst<T>(xs: seq<T>, ys: seq<T>, p: T -> bool)
    requires xs != []
    ensures Filter(xs + ys, p) == (if p(xs[0]) then [xs[0]] else []) + Filter(xs[1..] + ys, p)
  {
    assert (xs + ys)[1..] == xs[1..] + ys;
  }

  lemma {:induction false} FilterNone<T>(xs: seq<T>, p: T -> bool)
    requires forall i :: 0 <= i < |xs| ==> !p(xs[i])
    ensures Filter(xs, p) == []
  {
    if xs != [] { FilterNone(xs[1..], p); }
  }

  lemma {:induction false} FilterSome<T>(xs: seq<T>, x: T, p: T -> bool)
    requires x in xs && p(x)
    ensures Filter(xs, p) != []
  {
    if x != xs[0] { FilterSome(xs[1..], x, p); }
  }
}
