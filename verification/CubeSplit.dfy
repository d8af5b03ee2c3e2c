/**
 * g_cube_picksplit, Guttman's quadratic split. Slot 0 of the entry vector is unused, and the last entry
 * takes part in the distribution but not in the choice of seeds.
 */
module CubeSplit {
  import opened CubeBoxes

  /** What is lost by putting two entries together. */
  function Waste(cs: seq<Cube>, i: nat, j: nat): real
    requires i < |cs| && j < |cs|
  {
    Volume(Hulls(Shape(cs[i]), Shape(cs[j]))) - Volume(Meets(Shape(cs[i]), Shape(cs[j])))
  }

  /** The waste is the volume of the least box over both, less that of what they share or have between them. */
  lemma WasteExactly(cs: seq<Cube>, i: nat, j: nat, u: Box)
    requires i < |cs| && j < |cs| && LeastOver(u, cs, {i, j})
    ensures Waste(cs, i, j) == Volume(u) - Volume(Meets(Shape(cs[i]), Shape(cs[j])))
  {
    var h := Hulls(Shape(cs[i]), Shape(cs[j]));
    UnionIsLeast(Shape(cs[i]), Shape(cs[j]), h);
    forall w: Box | CoversSet(w, cs, {i, j}) ensures Covers(w, h) { UnionIsLeast(Shape(cs[i]), Shape(cs[j]), w); }
    LeastIsUnique(u, h, cs, {i, j});
  }

  predicate Before(a: nat, b: nat, i: nat, j: nat) { a < i || (a == i && b < j) }

  /** Among the pairs before (i, j), the first one with the greatest waste. */
  ghost predicate BestBefore(cs: seq<Cube>, m: nat, i: nat, j: nat, s1: nat, s2: nat) {
    && m < |cs| && 1 <= s1 < s2 <= m && Before(s1, s2, i, j)
    && forall a: nat, b: nat :: 1 <= a < b <= m && Before(a, b, i, j) ==>
         Waste(cs, a, b) <= Waste(cs, s1, s2) && (Before(a, b, s1, s2) ==> Waste(cs, a, b) < Waste(cs, s1, s2))
  }

  lemma BestStep(cs: seq<Cube>, m: nat, i: nat, j: nat, s1: nat, s2: nat, first: bool)
    requires 1 <= i < j <= m < |cs|
    requires if first then i == 1 && j == 2 else BestBefore(cs, m, i, j, s1, s2)
    ensures if first || Waste(cs, i, j) > Waste(cs, s1, s2) then BestBefore(cs, m, i, j + 1, i, j)
            else BestBefore(cs, m, i, j + 1, s1, s2)
  {
    forall a: nat, b: nat | Before(a, b, i, j + 1) ensures Before(a, b, i, j) || (a == i && b == j) {
    }
  }

  lemma BestRow(cs: seq<Cube>, m: nat, i: nat, s1: nat, s2: nat)
    requires BestBefore(cs, m, i, m + 1, s1, s2)
    ensures BestBefore(cs, m, i + 1, i + 2, s1, s2)
  {
  }

  /** The nested loops over all pairs of entries but the last. */
  method PickSeeds(entries: seq<Cube>) returns (seed1: nat, seed2: nat)
    requires |entries| >= 3
    ensures SeedsOf(entries, seed1, seed2)
  {
    var maxoff := |entries| - 2;
    var first, waste := true, 0.0;
    seed1, seed2 := 1, 2;
    for i := 1 to maxoff
      invariant first == (i == 1) && (first ==> seed1 == 1 && seed2 == 2)
      invariant !first ==> BestBefore(entries, maxoff, i, i + 1, seed1, seed2) && waste == Waste(entries, seed1, seed2)
    {
      for j := i + 1 to maxoff + 1
        invariant first == (i == 1 && j == 2)
        invariant !first ==> BestBefore(entries, maxoff, i, j, seed1, seed2) && waste == Waste(entries, seed1, seed2)
      {
        BestStep(entries, maxoff, i, j, seed1, seed2, first);
        var sizeWaste := PairWaste(entries, i, j);
        if sizeWaste > waste || first {
          waste, seed1, seed2, first := sizeWaste, i, j, false;
        }
      }
      BestRow(entries, maxoff, i, seed1, seed2);
    }
  }

  method PairWaste(entries: seq<Cube>, i: nat, j: nat) returns (waste: real)
    requires i < |entries| && j < |entries|
    ensures waste == Waste(entries, i, j)
  {
    var union := Union(entries[i], entries[j], false);
    var inter := Inter(entries[i], entries[j]);
    var sizeUnion := Size(union);
    var sizeInter := Size(inter);
    waste := sizeUnion - sizeInter;
  }

  // ---------------------------------------------------------------------------------------------
  // Distribution

  /** The two lists of offsets and the two boxes. */
  datatype Sides = Sides(left: seq<nat>, right: seq<nat>, l: Box, r: Box)

  /** How much a box grows to take in one more cube. */
  function Enlargement(b: Box, c: Cube): real { Volume(Hulls(b, Shape(c))) - Volume(b) }

  /** The left box is the one that needs the least enlargement; ties go right. */
  predicate PrefersLeft(l: Box, r: Box, c: Cube) { Enlargement(l, c) < Enlargement(r, c) }

  /** A rule for the entries that are not seeds. */
  type Rule = (Box, Box, Cube) -> bool

  /** Offsets 1..n: seeds go to their own side, the others by the rule. */
  function Distribute(cs: seq<Cube>, s1: nat, s2: nat, n: nat, rule: Rule): Sides
    requires s1 < |cs| && s2 < |cs| && n < |cs|
  {
    if n == 0 then Sides([], [], Shape(cs[s1]), Shape(cs[s2]))
    else
      var d := Distribute(cs, s1, s2, n - 1, rule);
      if n == s1 then d.(left := d.left + [n])
      else if n == s2 then d.(right := d.right + [n])
      else Placed(d, n, cs[n], rule(d.l, d.r, cs[n]))
  }

  /** Put one more entry on a side. */
  function Placed(d: Sides, o: nat, c: Cube, toLeft: bool): Sides {
    if toLeft then d.(left := d.left + [o], l := Hulls(d.l, Shape(c)))
    else d.(right := d.right + [o], r := Hulls(d.r, Shape(c)))
  }

  /** Strictly ascending offsets between 1 and n. */
  ghost predicate Ascending(offs: seq<nat>, n: nat) {
    && (forall i: nat :: i < |offs| ==> 1 <= offs[i] <= n)
    && (forall i: nat, j: nat :: i < j < |offs| ==> offs[i] < offs[j])
  }

  /** Each offset is in exactly one of the two lists. */
  ghost predicate Halves(left: seq<nat>, right: seq<nat>, n: nat) {
    && Ascending(left, n) && Ascending(right, n) && |left| + |right| == n
    && (forall o: nat :: 1 <= o <= n ==> (o in left) != (o in right))
  }

  lemma HalvesSnoc(left: seq<nat>, right: seq<nat>, n: nat)
    requires n > 0 && Halves(left, right, n - 1)
    ensures Halves(left + [n], right, n) && Halves(left, right + [n], n)
  {
  }

  lemma {:induction false} Partitioned(cs: seq<Cube>, s1: nat, s2: nat, n: nat, rule: Rule)
    requires 1 <= s1 < |cs| && 1 <= s2 < |cs| && s1 != s2 && n < |cs|
    ensures var d := Distribute(cs, s1, s2, n, rule);
            Halves(d.left, d.right, n) && (s1 <= n ==> s1 in d.left) && (s2 <= n ==> s2 in d.right)
  {
    if n > 0 {
      Partitioned(cs, s1, s2, n - 1, rule);
      var d := Distribute(cs, s1, s2, n - 1, rule);
      HalvesSnoc(d.left, d.right, n);
    }
  }

  ghost predicate CoversSide(k: Box, cs: seq<Cube>, seed: nat, offs: seq<nat>)
    requires seed < |cs| && forall i :: 0 <= i < |offs| ==> offs[i] < |cs|
  {
    Covers(k, Shape(cs[seed])) && forall i: nat :: i < |offs| ==> Covers(k, Shape(cs[offs[i]]))
  }

  /** A box that covers its side, and no larger than that takes. */
  ghost predicate Tight(k: Box, cs: seq<Cube>, seed: nat, offs: seq<nat>)
    requires seed < |cs| && forall i :: 0 <= i < |offs| ==> offs[i] < |cs|
  {
    CoversSide(k, cs, seed, offs) && forall w: Box :: CoversSide(w, cs, seed, offs) ==> Covers(w, k)
  }

  lemma TightStart(cs: seq<Cube>, seed: nat)
    requires seed < |cs|
    ensures Tight(Shape(cs[seed]), cs, seed, [])
  {
  }

  lemma TightSeed(k: Box, cs: seq<Cube>, seed: nat, offs: seq<nat>)
    requires seed < |cs| && (forall i :: 0 <= i < |offs| ==> offs[i] < |cs|) && Tight(k, cs, seed, offs)
    ensures Tight(k, cs, seed, offs + [seed])
  {
    forall w: Box | CoversSide(w, cs, seed, offs + [seed]) ensures Covers(w, k) { DropLast(w, cs, seed, offs, seed); }
  }

  lemma DropLast(w: Box, cs: seq<Cube>, seed: nat, offs: seq<nat>, o: nat)
    requires seed < |cs| && o < |cs| && forall i :: 0 <= i < |offs| ==> offs[i] < |cs|
    requires CoversSide(w, cs, seed, offs + [o])
    ensures CoversSide(w, cs, seed, offs) && Covers(w, Shape(cs[o]))
  {
    assert (offs + [o])[|offs|] == o;
    forall i: nat | i < |offs| ensures Covers(w, Shape(cs[offs[i]])) { assert (offs + [o])[i] == offs[i]; }
  }

  lemma TightSnoc(k: Box, cs: seq<Cube>, seed: nat, offs: seq<nat>, o: nat)
    requires seed < |cs| && o < |cs| && (forall i :: 0 <= i < |offs| ==> offs[i] < |cs|) && Tight(k, cs, seed, offs)
    ensures Tight(Hulls(k, Shape(cs[o])), cs, seed, offs + [o])
  {
    var k' := Hulls(k, Shape(cs[o]));
    UnionIsLeast(k, Shape(cs[o]), k');
    CoversTransitive(k', k, Shape(cs[seed]));
    forall i: nat | i < |offs + [o]| ensures Covers(k', Shape(cs[(offs + [o])[i]])) {
      if i < |offs| { CoversTransitive(k', k, Shape(cs[offs[i]])); }
    }
    forall w: Box | CoversSide(w, cs, seed, offs + [o]) ensures Covers(w, k') {
      DropLast(w, cs, seed, offs, o);
      UnionIsLeast(k, Shape(cs[o]), w);
    }
  }

  /** Each box is the least one that covers its side. */
  lemma {:induction false} BoxesTight(cs: seq<Cube>, s1: nat, s2: nat, n: nat, rule: Rule)
    requires 1 <= s1 < |cs| && 1 <= s2 < |cs| && s1 != s2 && n < |cs|
    ensures var d := Distribute(cs, s1, s2, n, rule);
            && Ascending(d.left, n) && Ascending(d.right, n)
            && Tight(d.l, cs, s1, d.left) && Tight(d.r, cs, s2, d.right)
  {
    Partitioned(cs, s1, s2, n, rule);
    if n == 0 {
      TightStart(cs, s1);
      TightStart(cs, s2);
    } else {
      BoxesTight(cs, s1, s2, n - 1, rule);
      Partitioned(cs, s1, s2, n - 1, rule);
      var d := Distribute(cs, s1, s2, n - 1, rule);
      if n == s1 {
        TightSeed(d.l, cs, s1, d.left);
      } else if n == s2 {
        TightSeed(d.r, cs, s2, d.right);
      } else {
        TightSnoc(d.l, cs, s1, d.left, n);
        TightSnoc(d.r, cs, s2, d.right, n);
      }
    }
  }

  // ---------------------------------------------------------------------------------------------
  // Where an entry goes, told by least boxes alone

  ghost predicate CoversSet(k: Box, cs: seq<Cube>, offs: set<nat>)
    requires forall o :: o in offs ==> o < |cs|
  {
    forall o :: o in offs ==> Covers(k, Shape(cs[o]))
  }

  /** The least box that covers the entries at these offsets. */
  ghost predicate LeastOver(k: Box, cs: seq<Cube>, offs: set<nat>)
    requires forall o :: o in offs ==> o < |cs|
  {
    CoversSet(k, cs, offs) && forall w: Box :: CoversSet(w, cs, offs) ==> Covers(w, k)
  }

  lemma LeastIsUnique(k: Box, k': Box, cs: seq<Cube>, offs: set<nat>)
    requires (forall o :: o in offs ==> o < |cs|) && LeastOver(k, cs, offs) && LeastOver(k', cs, offs)
    ensures k == k'
  {
    assert Covers(k, k') && Covers(k', k);
    forall i: nat | i < |k| ensures k[i] == k'[i] { assert Inside(At(k', i), k[i]) && Inside(At(k, i), k'[i]); }
  }

  lemma LeastWithOne(k: Box, cs: seq<Cube>, offs: set<nat>, o: nat)
    requires (forall x :: x in offs ==> x < |cs|) && LeastOver(k, cs, offs) && o < |cs|
    ensures LeastOver(Hulls(k, Shape(cs[o])), cs, offs + {o})
  {
    var k' := Hulls(k, Shape(cs[o]));
    UnionIsLeast(k, Shape(cs[o]), k');
    forall x | x in offs + {o} ensures Covers(k', Shape(cs[x])) {
      if x in offs { CoversTransitive(k', k, Shape(cs[x])); }
    }
    forall w: Box | CoversSet(w, cs, offs + {o}) ensures Covers(w, k') {
      assert CoversSet(w, cs, offs);
      UnionIsLeast(k, Shape(cs[o]), w);
    }
  }

  /** A seed and the listed offsets below o. */
  function Earlier(seed: nat, offs: seq<nat>, o: nat): set<nat> { {seed} + set x | x in offs && x < o }

  lemma TightIsLeast(k: Box, cs: seq<Cube>, seed: nat, offs: seq<nat>, all: set<nat>)
    requires seed < |cs| && (forall i :: 0 <= i < |offs| ==> offs[i] < |cs|) && Tight(k, cs, seed, offs)
    requires forall x :: x in all <==> x == seed || x in offs
    ensures LeastOver(k, cs, all)
  {
    forall w: Box | CoversSet(w, cs, all) ensures Covers(w, k) { assert CoversSide(w, cs, seed, offs); }
  }

  /** k and k' are the least boxes over the entries of a side before o, without and with entry o. */
  ghost predicate LeastBoxes(cs: seq<Cube>, seed: nat, offs: seq<nat>, o: nat, k: Box, k': Box)
    requires seed < |cs| && o < |cs|
  {
    LeastOver(k, cs, Earlier(seed, offs, o)) && LeastOver(k', cs, Earlier(seed, offs, o) + {o})
  }

  /**
   * Entry o is on the left exactly if the least box over the left seed and the left entries before o grows
   * strictly less in volume, when it has to take in o, than its counterpart on the right.
   */
  ghost predicate WherePlaced(cs: seq<Cube>, s1: nat, s2: nat, left: seq<nat>, right: seq<nat>, o: nat)
    requires s1 < |cs| && s2 < |cs| && o < |cs|
  {
    forall l: Box, l': Box, r: Box, r': Box ::
      LeastBoxes(cs, s1, left, o, l, l') && LeastBoxes(cs, s2, right, o, r, r') ==>
        (o in left <==> Volume(l') - Volume(l) < Volume(r') - Volume(r))
  }

  /** What comes later does not change the lists as far as they go. */
  lemma {:induction false} ListsGrow(cs: seq<Cube>, s1: nat, s2: nat, m: nat, n: nat, rule: Rule)
    requires 1 <= s1 < |cs| && 1 <= s2 < |cs| && s1 != s2 && m <= n < |cs|
    ensures var d, e := Distribute(cs, s1, s2, m, rule), Distribute(cs, s1, s2, n, rule);
            && (forall x: nat :: x in d.left <==> x in e.left && x <= m)
            && (forall x: nat :: x in d.right <==> x in e.right && x <= m)
    decreases n
  {
    Partitioned(cs, s1, s2, n, rule);
    if m < n { ListsGrow(cs, s1, s2, m, n - 1, rule); }
  }

  lemma SideLeast(cs: seq<Cube>, seed: nat, offs: seq<nat>, offs': seq<nat>, o: nat, k: Box)
    requires seed < |cs| && o < |cs| && (forall i :: 0 <= i < |offs| ==> offs[i] < |cs|) && Tight(k, cs, seed, offs)
    requires forall x: nat :: x in offs <==> x in offs' && x < o
    ensures LeastBoxes(cs, seed, offs', o, k, Hulls(k, Shape(cs[o])))
  {
    TightIsLeast(k, cs, seed, offs, Earlier(seed, offs', o));
    LeastWithOne(k, cs, Earlier(seed, offs', o), o);
  }

  lemma SidesLeast(cs: seq<Cube>, s1: nat, s2: nat, o: nat, n: nat, rule: Rule)
    requires 1 <= s1 < |cs| && 1 <= s2 < |cs| && s1 != s2 && 1 <= o <= n < |cs|
    ensures var d, e := Distribute(cs, s1, s2, o - 1, rule), Distribute(cs, s1, s2, n, rule);
            && LeastBoxes(cs, s1, e.left, o, d.l, Hulls(d.l, Shape(cs[o])))
            && LeastBoxes(cs, s2, e.right, o, d.r, Hulls(d.r, Shape(cs[o])))
  {
    var d, e := Distribute(cs, s1, s2, o - 1, rule), Distribute(cs, s1, s2, n, rule);
    BoxesTight(cs, s1, s2, o - 1, rule);
    ListsGrow(cs, s1, s2, o - 1, n, rule);
    SideLeast(cs, s1, d.left, e.left, o, d.l);
    SideLeast(cs, s2, d.right, e.right, o, d.r);
  }

  /** There is one choice for the boxes in question, and no other. */
  lemma BoxesAgree(cs: seq<Cube>, seed: nat, offs: seq<nat>, o: nat, k: Box, k': Box, m: Box, m': Box)
    requires seed < |cs| && o < |cs| && LeastBoxes(cs, seed, offs, o, k, k') && LeastBoxes(cs, seed, offs, o, m, m')
    ensures k == m && k' == m'
  {
    LeastIsUnique(k, m, cs, Earlier(seed, offs, o));
    LeastIsUnique(k', m', cs, Earlier(seed, offs, o) + {o});
  }

  lemma {:induction false} LeastExists(cs: seq<Cube>, offs: set<nat>, seed: nat) returns (k: Box)
    requires seed in offs && forall x :: x in offs ==> x < |cs|
    ensures LeastOver(k, cs, offs)
    decreases offs
  {
    if offs == {seed} {
      k := Shape(cs[seed]);
    } else {
      var o :| o in offs && o != seed;
      k := LeastExists(cs, offs - {o}, seed);
      LeastWithOne(k, cs, offs - {o}, o);
      assert offs - {o} + {o} == offs;
      k := Hulls(k, Shape(cs[o]));
    }
  }

  lemma BoxesExist(cs: seq<Cube>, seed: nat, offs: seq<nat>, o: nat) returns (k: Box, k': Box)
    requires seed < |cs| && o < |cs|
    ensures LeastBoxes(cs, seed, offs, o, k, k')
  {
    k := LeastExists(cs, Earlier(seed, offs, o), seed);
    k' := LeastExists(cs, Earlier(seed, offs, o) + {o}, seed);
  }

  lemma ByRule(cs: seq<Cube>, s1: nat, s2: nat, o: nat, n: nat, rule: Rule)
    requires 1 <= s1 < |cs| && 1 <= s2 < |cs| && s1 != s2 && 1 <= o <= n < |cs| && o != s1 && o != s2
    ensures var d, e := Distribute(cs, s1, s2, o - 1, rule), Distribute(cs, s1, s2, n, rule);
            o in e.left <==> rule(d.l, d.r, cs[o])
  {
    ListsGrow(cs, s1, s2, o, n, rule);
    Partitioned(cs, s1, s2, o - 1, rule);
  }

  lemma PlacedByGrowth(cs: seq<Cube>, s1: nat, s2: nat, o: nat, n: nat, e: Sides)
    requires 1 <= s1 < |cs| && 1 <= s2 < |cs| && s1 != s2 && 1 <= o <= n < |cs| && o != s1 && o != s2
    requires e == Distribute(cs, s1, s2, n, PrefersLeft)
    ensures WherePlaced(cs, s1, s2, e.left, e.right, o)
  {
    var d := Distribute(cs, s1, s2, o - 1, PrefersLeft);
    SidesLeast(cs, s1, s2, o, n, PrefersLeft);
    ByRule(cs, s1, s2, o, n, PrefersLeft);
    forall l: Box, l': Box, r: Box, r': Box |
      LeastBoxes(cs, s1, e.left, o, l, l') && LeastBoxes(cs, s2, e.right, o, r, r')
      ensures o in e.left <==> Volume(l') - Volume(l) < Volume(r') - Volume(r)
    {
      BoxesAgree(cs, s1, e.left, o, l, l', d.l, Hulls(d.l, Shape(cs[o])));
      BoxesAgree(cs, s2, e.right, o, r, r', d.r, Hulls(d.r, Shape(cs[o])));
    }
  }

  /** One round, for an entry that goes to the given side. */
  function Recorded(d: Sides, n: nat, toLeft: bool, l: Box, r: Box): Sides {
    if toLeft then Sides(d.left + [n], d.right, l, r) else Sides(d.left, d.right + [n], l, r)
  }

  lemma Stepped(cs: seq<Cube>, s1: nat, s2: nat, n: nat, rule: Rule, d: Sides, toLeft: bool, l: Box, r: Box)
    requires 1 <= s1 < s2 < |cs| && 1 <= n < |cs| && d == Distribute(cs, s1, s2, n - 1, rule)
    requires toLeft == (n == s1 || (n != s2 && rule(d.l, d.r, cs[n])))
    requires l == if toLeft && n != s1 then Hulls(d.l, Shape(cs[n])) else d.l
    requires r == if !toLeft && n != s2 then Hulls(d.r, Shape(cs[n])) else d.r
    ensures Recorded(d, n, toLeft, l, r) == Distribute(cs, s1, s2, n, rule)
  {
  }

  /** Which page an entry goes to, and the boxes with their sizes after that. */
  method Choose(l: Cube, r: Cube, sizeL: real, sizeR: real, c: Cube, isSeed1: bool, isSeed2: bool)
    returns (toLeft: bool, l': Cube, r': Cube, sizeL': real, sizeR': real)
    requires sizeL == Volume(Shape(l)) && sizeR == Volume(Shape(r))
    ensures toLeft == (isSeed1 || (!isSeed2 && PrefersLeft(Shape(l), Shape(r), c)))
    ensures Shape(l') == if toLeft && !isSeed1 then Hulls(Shape(l), Shape(c)) else Shape(l)
    ensures Shape(r') == if !toLeft && !isSeed2 then Hulls(Shape(r), Shape(c)) else Shape(r)
    ensures sizeL' == Volume(Shape(l')) && sizeR' == Volume(Shape(r'))
  {
    l', r', sizeL', sizeR' := l, r, sizeL, sizeR;
    if isSeed1 || isSeed2 { return isSeed1, l', r', sizeL', sizeR'; }
    var unionL := Union(l, c, false);
    var unionR := Union(r, c, false);
    var sizeAlpha := Size(unionL);
    var sizeBeta := Size(unionR);
    toLeft := sizeAlpha - sizeL < sizeBeta - sizeR;
    if toLeft { l', sizeL' := unionL, sizeAlpha; } else { r', sizeR' := unionR, sizeBeta; }
  }

  /** Where the seeds come from. */
  ghost predicate SeedsOf(cs: seq<Cube>, s1: nat, s2: nat)
    requires |cs| >= 3
  {
    if |cs| == 3 then s1 == 1 && s2 == 2 else BestBefore(cs, |cs| - 2, |cs| - 2, |cs| - 1, s1, s2)
  }

  lemma SeedsApart(cs: seq<Cube>, s1: nat, s2: nat)
    requires |cs| >= 3 && SeedsOf(cs, s1, s2)
    ensures 1 <= s1 < s2 < |cs|
  {
  }

  /** A side starts with its seed alone. */
  method StartSide(seed: Cube) returns (datum: Cube, size: real)
    ensures Shape(datum) == Shape(seed) && size == Volume(Shape(datum))
  {
    datum := Union(seed, seed, true);
    assert Hulls(Shape(seed), Shape(seed)) == Shape(seed);
    size := Size(datum);
  }

  /** The split vector under construction; both arrays have a slot per entry. */
  class SplitVector {
    const left: array<nat>
    const right: array<nat>
    var nleft: nat
    var nright: nat
    var ldatum: Cube
    var rdatum: Cube
    var sizeL: real
    var sizeR: real

    ghost function Left(): seq<nat>
      reads this, left
      requires nleft <= left.Length
    {
      left[..nleft]
    }

    ghost function Right(): seq<nat>
      reads this, right
      requires nright <= right.Length
    {
      right[..nright]
    }

    ghost predicate Lists(d: Sides)
      reads this, left, right
    {
      && left != right && left.Length == right.Length && nleft + nright < left.Length
      && |d.left| == nleft && |d.right| == nright
      && (forall k: nat :: k < nleft ==> left[k] == d.left[k])
      && (forall k: nat :: k < nright ==> right[k] == d.right[k])
    }

    lemma SameLists(d: Sides)
      requires Lists(d)
      ensures Left() == d.left && Right() == d.right
    {
    }

    /** The entries 1..n have been placed. */
    ghost predicate Holds(cs: seq<Cube>, s1: nat, s2: nat, n: nat, rule: Rule)
      reads this, left, right
    {
      && 1 <= s1 < s2 < |cs| && n < |cs| && left.Length == |cs| && nleft + nright == n
      && sizeL == Volume(Shape(ldatum)) && sizeR == Volume(Shape(rdatum))
      && var d := Distribute(cs, s1, s2, n, rule);
      Lists(d) && d.l == Shape(ldatum) && d.r == Shape(rdatum)
    }

    lemma IsGood(cs: seq<Cube>, s1: nat, s2: nat, n: nat)
      requires n == |cs| - 1 && Holds(cs, s1, s2, n, PrefersLeft)
      ensures GoodSplit(cs, s1, s2, Left(), Right(), Shape(ldatum), Shape(rdatum))
    {
      var d := Distribute(cs, s1, s2, n, PrefersLeft);
      SameLists(d);
      SplitIsGood(cs, s1, s2, d, n);
    }

    constructor (cs: seq<Cube>, s1: nat, s2: nat, ghost rule: Rule)
      requires 1 <= s1 < s2 < |cs|
      ensures Holds(cs, s1, s2, 0, rule) && fresh(left) && fresh(right)
    {
      left, right := new nat[|cs|], new nat[|cs|];
      nleft, nright := 0, 0;
      var l, size1 := StartSide(cs[s1]);
      var r, size2 := StartSide(cs[s2]);
      ldatum, rdatum, sizeL, sizeR := l, r, size1, size2;
    }

    /** Write one offset behind one of the lists. */
    method Append(o: nat, toLeft: bool, ghost d: Sides)
      requires Lists(d) && nleft + nright + 1 < left.Length
      modifies `nleft, `nright, left, right
      ensures Lists(Recorded(d, o, toLeft, d.l, d.r)) && nleft + nright == old(nleft + nright) + 1
    {
      if toLeft {
        left[nleft] := o;
        nleft := nleft + 1;
      } else {
        right[nright] := o;
        nright := nright + 1;
      }
    }

    /** Place entry i on a side, with the boxes and their sizes after that. */
    method Record(cs: seq<Cube>, s1: nat, s2: nat, i: nat, toLeft: bool, l: Cube, r: Cube, sl: real, sr: real,
                  ghost rule: Rule)
      requires 1 <= i && Holds(cs, s1, s2, i - 1, rule) && i < |cs|
      requires toLeft == (i == s1 || (i != s2 && rule(Shape(ldatum), Shape(rdatum), cs[i])))
      requires Shape(l) == if toLeft && i != s1 then Hulls(Shape(ldatum), Shape(cs[i])) else Shape(ldatum)
      requires Shape(r) == if !toLeft && i != s2 then Hulls(Shape(rdatum), Shape(cs[i])) else Shape(rdatum)
      requires sl == Volume(Shape(l)) && sr == Volume(Shape(r))
      modifies this, left, right
      ensures Holds(cs, s1, s2, i, rule)
    {
      ghost var d := Distribute(cs, s1, s2, i - 1, rule);
      Stepped(cs, s1, s2, i, rule, d, toLeft, Shape(l), Shape(r));
      Append(i, toLeft, d);
      ldatum, rdatum, sizeL, sizeR := l, r, sl, sr;
    }

    /** One round of the second loop. */
    method Place(cs: seq<Cube>, s1: nat, s2: nat, i: nat)
      requires 1 <= i && Holds(cs, s1, s2, i - 1, PrefersLeft) && i < |cs|
      modifies this, left, right
      ensures Holds(cs, s1, s2, i, PrefersLeft)
    {
      var toLeft, l, r, sl, sr := Choose(ldatum, rdatum, sizeL, sizeR, cs[i], i == s1, i == s2);
      Record(cs, s1, s2, i, toLeft, l, r, sl, sr, PrefersLeft);
    }

    /** The second loop. */
    method PlaceAll(cs: seq<Cube>, s1: nat, s2: nat, ghost n: nat)
      requires n == |cs| - 1 && Holds(cs, s1, s2, 0, PrefersLeft)
      modifies this, left, right
      ensures Holds(cs, s1, s2, n, PrefersLeft)
    {
      for i := 1 to |cs|
        invariant Holds(cs, s1, s2, i - 1, PrefersLeft)
      {
        Place(cs, s1, s2, i);
      }
    }

    /** The sentinels. */
    method Close(cs: seq<Cube>, s1: nat, s2: nat, ghost n: nat)
      requires n == |cs| - 1 && Holds(cs, s1, s2, n, PrefersLeft)
      modifies left, right
      ensures Holds(cs, s1, s2, n, PrefersLeft)
      ensures nleft < left.Length && nright < right.Length && left[nleft] == right[nright] == 1
      ensures GoodSplit(cs, s1, s2, Left(), Right(), Shape(ldatum), Shape(rdatum))
    {
      BothSides(cs, s1, s2, PrefersLeft);
      left[nleft] := 1;
      right[nright] := 1;
      IsGood(cs, s1, s2, n);
    }

    method Fill(cs: seq<Cube>, s1: nat, s2: nat, ghost n: nat)
      requires n == |cs| - 1 && Holds(cs, s1, s2, 0, PrefersLeft)
      modifies this, left, right
      ensures Holds(cs, s1, s2, n, PrefersLeft)
      ensures nleft < left.Length && nright < right.Length && left[nleft] == right[nright] == 1
      ensures GoodSplit(cs, s1, s2, Left(), Right(), Shape(ldatum), Shape(rdatum))
    {
      PlaceAll(cs, s1, s2, n);
      Close(cs, s1, s2, n);
    }
  }

  /** Every entry but the seeds is where the volume grew less. */
  ghost predicate AllPlaced(cs: seq<Cube>, s1: nat, s2: nat, left: seq<nat>, right: seq<nat>)
    requires s1 < |cs| && s2 < |cs|
  {
    forall o: nat :: 1 <= o < |cs| && o != s1 && o != s2 ==> WherePlaced(cs, s1, s2, left, right, o)
  }

  ghost predicate LeastOverList(k: Box, cs: seq<Cube>, offs: seq<nat>) {
    (forall o :: o in offs ==> o < |cs|) && LeastOver(k, cs, set o | o in offs)
  }

  /**
   * Each entry is in exactly one list, both in order; the seeds are on their sides and every other entry
   * where the volume grew less; each box is the least one over its list.
   */
  ghost predicate GoodSplit(cs: seq<Cube>, s1: nat, s2: nat, left: seq<nat>, right: seq<nat>, l: Box, r: Box) {
    && s1 < |cs| && s2 < |cs| && Halves(left, right, |cs| - 1) && s1 in left && s2 in right
    && AllPlaced(cs, s1, s2, left, right) && LeastOverList(l, cs, left) && LeastOverList(r, cs, right)
  }

  lemma AllByGrowth(cs: seq<Cube>, s1: nat, s2: nat, d: Sides, n: nat)
    requires 1 <= s1 < s2 < |cs| && n == |cs| - 1 && d == Distribute(cs, s1, s2, n, PrefersLeft)
    ensures AllPlaced(cs, s1, s2, d.left, d.right)
  {
    forall o: nat | 1 <= o < |cs| && o != s1 && o != s2 ensures WherePlaced(cs, s1, s2, d.left, d.right, o) {
      PlacedByGrowth(cs, s1, s2, o, n, d);
    }
  }

  lemma TightIsLeastOverList(k: Box, cs: seq<Cube>, seed: nat, offs: seq<nat>)
    requires seed < |cs| && (forall i :: 0 <= i < |offs| ==> offs[i] < |cs|) && Tight(k, cs, seed, offs) && seed in offs
    ensures LeastOverList(k, cs, offs)
  {
    TightIsLeast(k, cs, seed, offs, set o | o in offs);
  }

  lemma BoxesLeast(cs: seq<Cube>, s1: nat, s2: nat, d: Sides, n: nat)
    requires 1 <= s1 < s2 < |cs| && n == |cs| - 1 && d == Distribute(cs, s1, s2, n, PrefersLeft)
    ensures Halves(d.left, d.right, n) && s1 in d.left && s2 in d.right
    ensures LeastOverList(d.l, cs, d.left) && LeastOverList(d.r, cs, d.right)
  {
    Partitioned(cs, s1, s2, n, PrefersLeft);
    BoxesTight(cs, s1, s2, n, PrefersLeft);
    TightIsLeastOverList(d.l, cs, s1, d.left);
    TightIsLeastOverList(d.r, cs, s2, d.right);
  }

  lemma SplitIsGood(cs: seq<Cube>, s1: nat, s2: nat, d: Sides, n: nat)
    requires 1 <= s1 < s2 < |cs| && n == |cs| - 1 && d == Distribute(cs, s1, s2, n, PrefersLeft)
    ensures GoodSplit(cs, s1, s2, d.left, d.right, d.l, d.r)
  {
    BoxesLeast(cs, s1, s2, d, n);
    AllByGrowth(cs, s1, s2, d, n);
  }

  /** The second half of g_cube_picksplit, for given seeds. */
  method SplitAt(entries: seq<Cube>, seed1: nat, seed2: nat, ghost n: nat) returns (v: SplitVector)
    requires n == |entries| - 1 && 1 <= seed1 < seed2 < |entries|
    ensures v.Holds(entries, seed1, seed2, n, PrefersLeft)
    ensures v.nleft < v.left.Length && v.nright < v.right.Length && v.left[v.nleft] == v.right[v.nright] == 1
    ensures GoodSplit(entries, seed1, seed2, v.Left(), v.Right(), Shape(v.ldatum), Shape(v.rdatum))
  {
    v := new SplitVector(entries, seed1, seed2, PrefersLeft);
    v.Fill(entries, seed1, seed2, n);
  }

  /** g_cube_picksplit: each list ends with a sentinel. */
  method PickSplit(entries: seq<Cube>) returns (v: SplitVector, seed1: nat, seed2: nat)
    requires |entries| >= 3
    ensures SeedsOf(entries, seed1, seed2)
    ensures v.nleft < v.left.Length && v.nright < v.right.Length && v.left[v.nleft] == v.right[v.nright] == 1
    ensures GoodSplit(entries, seed1, seed2, v.Left(), v.Right(), Shape(v.ldatum), Shape(v.rdatum))
  {
    seed1, seed2 := PickSeeds(entries);
    SeedsApart(entries, seed1, seed2);
    v := SplitAt(entries, seed1, seed2, |entries| - 1);
  }

  /** Neither list is empty, so that each leaves a slot for its sentinel. */
  lemma BothSides(cs: seq<Cube>, s1: nat, s2: nat, rule: Rule)
    requires 1 <= s1 < s2 < |cs|
    ensures var d := Distribute(cs, s1, s2, |cs| - 1, rule);
            s1 in d.left && s2 in d.right && 0 < |d.left| < |cs| - 1 && 0 < |d.right| < |cs| - 1
  {
    Partitioned(cs, s1, s2, |cs| - 1, rule);
  }

  /** Every entry ends up on exactly one side, in order, under a box that is the least one covering its side. */
  lemma SplitIsSound(cs: seq<Cube>, s1: nat, s2: nat, rule: Rule)
    requires 1 <= s1 < s2 < |cs|
    ensures var d := Distribute(cs, s1, s2, |cs| - 1, rule);
            && Halves(d.left, d.right, |cs| - 1) && d.left != [] && d.right != []
            && Tight(d.l, cs, s1, d.left) && Tight(d.r, cs, s2, d.right)
  {
    Partitioned(cs, s1, s2, |cs| - 1, rule);
    BoxesTight(cs, s1, s2, |cs| - 1, rule);
    BothSides(cs, s1, s2, rule);
  }

  // ---------------------------------------------------------------------------------------------
  // A good split leaves no choice

  /** The last of ascending offsets is the greatest, and the others come before it. */
  lemma LastIsGreatest(a: seq<nat>, n: nat, o: nat)
    requires a != [] && Ascending(a, n)
    ensures var last := a[|a| - 1]; (o in a ==> o <= last) && (o in a[..|a| - 1] <==> o in a && o != last)
    ensures Ascending(a[..|a| - 1], n)
  {
    var m := |a| - 1;
    assert a == a[..m] + [a[m]];
    if o in a[..m] {
      var i :| 0 <= i < m && a[..m][i] == o;
      assert a[i] < a[m];
    }
  }

  lemma {:induction false} SameElements(a: seq<nat>, b: seq<nat>, n: nat)
    requires Ascending(a, n) && Ascending(b, n) && forall o: nat :: o in a <==> o in b
    ensures a == b
  {
    if a != [] { assert a[0] in b; }
    if b != [] {
      assert b[0] in a;
      var i, j := |a| - 1, |b| - 1;
      LastIsGreatest(a, n, b[j]);
      LastIsGreatest(b, n, a[i]);
      forall o: nat ensures o in a[..i] <==> o in b[..j] {
        LastIsGreatest(a, n, o);
        LastIsGreatest(b, n, o);
      }
      SameElements(a[..i], b[..j], n);
      assert a == a[..i] + [a[i]] && b == b[..j] + [b[j]];
    }
  }

  /** Lists that agree below o agree at o. */
  lemma SameAt(
    cs: seq<Cube>, s1: nat, s2: nat, left: seq<nat>, right: seq<nat>, left': seq<nat>, right': seq<nat>, o: nat)
    requires s1 < |cs| && s2 < |cs| && o < |cs|
    requires WherePlaced(cs, s1, s2, left, right, o) && WherePlaced(cs, s1, s2, left', right', o)
    requires forall x: nat :: x < o ==> (x in left <==> x in left') && (x in right <==> x in right')
    ensures o in left <==> o in left'
  {
    var l, l' := BoxesExist(cs, s1, left, o);
    var r, r' := BoxesExist(cs, s2, right, o);
    assert Earlier(s1, left, o) == Earlier(s1, left', o);
    assert Earlier(s2, right, o) == Earlier(s2, right', o);
    assert LeastBoxes(cs, s1, left', o, l, l') && LeastBoxes(cs, s2, right', o, r, r');
  }

  lemma {:induction false} SameUpto(
    cs: seq<Cube>, s1: nat, s2: nat, left: seq<nat>, right: seq<nat>, left': seq<nat>, right': seq<nat>, n: nat)
    requires 1 <= s1 < |cs| && 1 <= s2 < |cs| && n <= |cs|
    requires Halves(left, right, |cs| - 1) && s1 in left && s2 in right && AllPlaced(cs, s1, s2, left, right)
    requires Halves(left', right', |cs| - 1) && s1 in left' && s2 in right' && AllPlaced(cs, s1, s2, left', right')
    ensures forall x: nat :: x < n ==> (x in left <==> x in left') && (x in right <==> x in right')
  {
    if n > 0 {
      SameUpto(cs, s1, s2, left, right, left', right', n - 1);
      var o := n - 1;
      if o > 0 && o != s1 && o != s2 { SameAt(cs, s1, s2, left, right, left', right', o); }
    }
  }

  /** The seeds settle which entry goes where, in which order, and under which boxes. */
  lemma GoodSplitIsUnique(cs: seq<Cube>, s1: nat, s2: nat, a: Sides, b: Sides)
    requires GoodSplit(cs, s1, s2, a.left, a.right, a.l, a.r) && GoodSplit(cs, s1, s2, b.left, b.right, b.l, b.r)
    ensures a == b
  {
    SameUpto(cs, s1, s2, a.left, a.right, b.left, b.right, |cs|);
    SameElements(a.left, b.left, |cs| - 1);
    SameElements(a.right, b.right, |cs| - 1);
    LeastIsUnique(a.l, b.l, cs, set o | o in a.left);
    LeastIsUnique(a.r, b.r, cs, set o | o in a.right);
  }
}
