/**
 * The three passes of verify_heapam over one heap page: line pointers, update chains, chain roots.
 * What check_tuple finds out about a tuple's inserting transaction is part of the input.
 */
module HeapChains {
  import opened HeapXids
  import opened Optional
  import opened Pigeonhole

  const BLCKSZ := 8192
  const MAX_OFFSET := 2048
  const HEADER_SIZE := 24

  /**
   * The fields of a tuple header that the passes look at, the commit status of xmin if it could be
   * established, and whether xmin is still in progress when that is asked again.
   */
  datatype Tuple = Tuple(xmin: Xid, updateXid: Xid, ctidBlock: nat, ctidOff: nat, hotUpdated: bool, heapOnly: bool,
                         status: Option<Status>, stillInProgress: bool)

  datatype LinePointer = Unused | Dead | Redirect(to: nat) | Normal(off: nat, len: nat, tuple: Tuple)

  /** Line pointers are numbered from 1. */
  datatype Page = Page(blkno: nat, lps: seq<LinePointer>)

  predicate On(p: Page, o: nat) { 1 <= o <= |p.lps| }

  function Lp(p: Page, o: nat): LinePointer
    requires On(p, o)
  {
    p.lps[o - 1]
  }

  // ---------------------------------------------------------------------------------------------
  // First pass

  predicate LpValid(p: Page, o: nat) {
    On(p, o) &&
    match Lp(p, o)
    case Unused => false
    case Dead => false
    case Redirect(to) => On(p, to) && Lp(p, to).Normal?
    case Normal(off, len, _) => off % 8 == 0 && len >= HEADER_SIZE && off + len <= BLCKSZ
  }

  predicate PointerClean(p: Page, o: nat)
    requires On(p, o)
  {
    Lp(p, o).Unused? || Lp(p, o).Dead? || LpValid(p, o)
  }

  /** Where a line pointer leads on its own page, 0 for nowhere. */
  function Successor(p: Page, o: nat): nat {
    if !LpValid(p, o) then 0
    else
      match Lp(p, o)
      case Redirect(to) => to
      case Normal(_, _, t) => if t.ctidBlock == p.blkno && t.ctidOff != o && On(p, t.ctidOff) then t.ctidOff else 0
  }

  function StatusAt(p: Page, o: nat): Option<Status> {
    if LpValid(p, o) && Lp(p, o).Normal? then Lp(p, o).tuple.status else None
  }

  /** What the first pass leaves behind. */
  ghost predicate Filled(p: Page, successor: array<nat>, lpValid: array<bool>)
    reads successor, lpValid
  {
    && |p.lps| < MAX_OFFSET && successor.Length == lpValid.Length == MAX_OFFSET
    && forall o: nat :: On(p, o) ==> successor[o] == Successor(p, o) && lpValid[o] == LpValid(p, o)
  }

  method FirstPass(p: Page, successor: array<nat>, lpValid: array<bool>) returns (clean: bool)
    requires |p.lps| < MAX_OFFSET && successor.Length == lpValid.Length == MAX_OFFSET
    modifies successor, lpValid
    ensures clean <==> forall o: nat :: On(p, o) ==> PointerClean(p, o)
    ensures Filled(p, successor, lpValid)
  {
    clean := true;
    var maxoff := |p.lps|;
    for o := 1 to maxoff + 1
      invariant clean <==> forall j: nat :: 1 <= j < o ==> PointerClean(p, j)
      invariant forall j: nat :: 1 <= j < o ==> successor[j] == Successor(p, j) && lpValid[j] == LpValid(p, j)
    {
      ghost var before := clean;
      successor[o], lpValid[o] := 0, false;
      match Lp(p, o) {
        case Unused =>
        case Dead =>
        case Redirect(to) =>
          if to < 1 || to > maxoff {
            clean := false;
          } else if !Lp(p, to).Normal? {
            clean := false;
          } else {
            successor[o], lpValid[o] := to, true;
          }
        case Normal(off, len, t) =>
          if off % 8 != 0 || len < HEADER_SIZE || off + len > BLCKSZ {
            clean := false;
          } else {
            lpValid[o] := true;
            if t.ctidBlock == p.blkno && t.ctidOff != o && 1 <= t.ctidOff <= maxoff { successor[o] := t.ctidOff; }
          }
      }
      assert successor[o] == Successor(p, o) && lpValid[o] == LpValid(p, o);
      assert clean == (before && PointerClean(p, o));
    }
  }

  // ---------------------------------------------------------------------------------------------
  // Second pass

  /** The version that a line pointer leads to, 0 if there is none: xmax has to match the successor's xmin. */
  function Target(p: Page, o: nat): (n: nat)
    ensures n != 0 ==> On(p, o) && (Lp(p, o).Redirect? || Lp(p, o).Normal?)
    ensures n != 0 ==> On(p, n) && LpValid(p, n) && Lp(p, n).Normal?
  {
    var n := Successor(p, o);
    if n == 0 || !LpValid(p, n) || Lp(p, n).Redirect? then 0
    else if Lp(p, o).Redirect? then n
    else if Lp(p, o).tuple.updateXid != INVALID_XID && Lp(p, o).tuple.updateXid == Lp(p, n).tuple.xmin then n
    else 0
  }

  /** The flags and the transactions on both ends of a link agree. */
  predicate LinkClean(p: Page, o: nat)
    requires Target(p, o) != 0
  {
    var n := Target(p, o);
    var next := Lp(p, n).tuple;
    if Lp(p, o).Redirect? then next.heapOnly
    else
      var curr := Lp(p, o).tuple;
      && curr.hotUpdated == next.heapOnly
      && !(StatusAt(p, o) == Some(InProgress) && StatusAt(p, n) == Some(Committed) && curr.stillInProgress)
      && !(StatusAt(p, o) == Some(Aborted) && StatusAt(p, n) in {Some(InProgress), Some(Committed)})
  }

  /** Below k, the first line pointer that leads to n, 0 if there is none. */
  ghost predicate FirstTo(p: Page, n: nat, k: nat, o: nat) {
    && (o != 0 ==> o < k && Target(p, o) == n)
    && (forall j: nat :: 1 <= j < k && Target(p, j) == n ==> o != 0 && o <= j)
  }

  lemma FirstToStep(p: Page, n: nat, k: nat, o: nat)
    requires k >= 1 && n >= 1 && FirstTo(p, n, k, o)
    ensures FirstTo(p, n, k + 1, if Target(p, k) == n && o == 0 then k else o)
  {
  }

  ghost predicate NoEarlier(p: Page, o: nat) { forall j: nat :: 1 <= j < o ==> Target(p, j) != Target(p, o) }

  /** Nothing to report about the links of the line pointers below k. */
  ghost predicate LinksClean(p: Page, k: nat) {
    k <= 1 || (LinksClean(p, k - 1) && (Target(p, k - 1) != 0 ==> LinkClean(p, k - 1) && NoEarlier(p, k - 1)))
  }

  lemma LinksCleanStep(p: Page, k: nat, first: nat)
    requires k >= 1 && (Target(p, k) != 0 ==> FirstTo(p, Target(p, k), k, first))
    ensures LinksClean(p, k + 1) <==> LinksClean(p, k) && (Target(p, k) != 0 ==> LinkClean(p, k) && first == 0)
  {
  }

  lemma {:induction false} LinksCleanAt(p: Page, k: nat, o: nat)
    requires LinksClean(p, k) && 1 <= o < k && Target(p, o) != 0
    ensures LinkClean(p, o) && NoEarlier(p, o)
  {
    if o < k - 1 { LinksCleanAt(p, k - 1, o); }
  }

  /** What is reported about one link apart from a second predecessor. */
  method CheckLink(p: Page, o: nat) returns (clean: bool)
    requires Target(p, o) != 0
    ensures clean == LinkClean(p, o)
  {
    var n := Target(p, o);
    var next := Lp(p, n).tuple;
    if Lp(p, o).Redirect? { return next.heapOnly; }
    var curr := Lp(p, o).tuple;
    clean := true;
    if !curr.hotUpdated && next.heapOnly { clean := false; }
    if curr.hotUpdated && !next.heapOnly { clean := false; }
    if StatusAt(p, o) == Some(InProgress) && StatusAt(p, n) == Some(Committed) && curr.stillInProgress {
      clean := false;
    }
    if StatusAt(p, o) == Some(Aborted) && StatusAt(p, n).Some? {
      if StatusAt(p, n).value == InProgress { clean := false; }
      else if StatusAt(p, n).value == Committed { clean := false; }
    }
  }

  /** Does the line pointer lead on, as far as the first pass and the two tuples say? */
  method FindTarget(p: Page, o: nat, successor: array<nat>, lpValid: array<bool>) returns (n: nat)
    requires On(p, o) && Filled(p, successor, lpValid)
    ensures n == Target(p, o)
  {
    n := successor[o];
    if n == 0 || !lpValid[n] { return 0; }
    if !Lp(p, o).Redirect? && !Follows(p, o, n) { return 0; }
  }

  /** For every line pointer, the first one below k that leads to it. */
  ghost predicate Firsts(p: Page, predecessor: seq<nat>, k: nat) {
    |predecessor| > |p.lps| && forall n: nat :: On(p, n) ==> FirstTo(p, n, k, predecessor[n])
  }

  lemma FirstsStep(p: Page, predecessor: seq<nat>, k: nat)
    requires k >= 1 && Firsts(p, predecessor, k)
    ensures var n := Target(p, k);
            Firsts(p, if n != 0 && predecessor[n] == 0 then predecessor[n := k] else predecessor, k + 1)
  {
    forall n: nat | On(p, n)
      ensures FirstTo(p, n, k + 1, if Target(p, k) == n && predecessor[n] == 0 then k else predecessor[n])
    {
      FirstToStep(p, n, k, predecessor[n]);
    }
  }

  /** One round of the second pass, with the target known. */
  method TakeLink(p: Page, o: nat, n: nat, predecessor: array<nat>) returns (ok: bool)
    requires On(p, o) && n == Target(p, o) && Firsts(p, predecessor[..], o)
    modifies predecessor
    ensures Firsts(p, predecessor[..], o + 1)
    ensures LinksClean(p, o + 1) <==> LinksClean(p, o) && ok
  {
    FirstsStep(p, predecessor[..], o);
    LinksCleanStep(p, o, if n != 0 then predecessor[n] else 0);
    if n == 0 { return true; }
    ok := CheckLink(p, o);
    if predecessor[n] != 0 { return false; }
    ghost var before := predecessor[..];
    predecessor[n] := o;
    assert predecessor[..] == before[n := o];
  }

  method SecondPass(p: Page, successor: array<nat>, lpValid: array<bool>, predecessor: array<nat>) returns (clean: bool)
    requires Filled(p, successor, lpValid) && predecessor.Length == MAX_OFFSET && predecessor != successor
    requires forall i :: 0 <= i < MAX_OFFSET ==> predecessor[i] == 0
    modifies predecessor
    ensures clean <==> LinksClean(p, |p.lps| + 1)
    ensures Firsts(p, predecessor[..], |p.lps| + 1)
  {
    clean := true;
    for o := 1 to |p.lps| + 1
      invariant clean <==> LinksClean(p, o)
      invariant Firsts(p, predecessor[..], o) && Filled(p, successor, lpValid)
    {
      var n := FindTarget(p, o, successor, lpValid);
      var ok := TakeLink(p, o, n, predecessor);
      clean := clean && ok;
    }
  }

  /** The tuple at n was made by the transaction that updated the one at o. */
  predicate Follows(p: Page, o: nat, n: nat)
    requires LpValid(p, o) && LpValid(p, n) && Lp(p, o).Normal?
  {
    && !Lp(p, n).Redirect? && Lp(p, o).tuple.updateXid != INVALID_XID
    && Lp(p, o).tuple.updateXid == Lp(p, n).tuple.xmin
  }

  // ---------------------------------------------------------------------------------------------
  // Third pass

  /** Nothing leads to n. */
  ghost predicate NoPredecessor(p: Page, n: nat) { forall o: nat :: Target(p, o) == n ==> n == 0 }

  /** The tuple's inserting transaction is known to have committed or to be running. */
  predicate Live(p: Page, o: nat) { StatusAt(p, o) in {Some(Committed), Some(InProgress)} }

  ghost predicate RootClean(p: Page, o: nat)
    requires On(p, o)
  {
    Live(p, o) && NoPredecessor(p, o) ==> !Lp(p, o).tuple.heapOnly
  }

  method ThirdPass(p: Page, predecessor: array<nat>) returns (clean: bool)
    requires |p.lps| < MAX_OFFSET && predecessor.Length == MAX_OFFSET
    requires Firsts(p, predecessor[..], |p.lps| + 1)
    ensures clean <==> forall o: nat :: On(p, o) ==> RootClean(p, o)
  {
    clean := true;
    for o := 1 to |p.lps| + 1
      invariant clean <==> forall j: nat :: 1 <= j < o ==> RootClean(p, j)
    {
      assert FirstTo(p, o, |p.lps| + 1, predecessor[o]);
      assert predecessor[o] == 0 <==> NoPredecessor(p, o);
      ghost var before := clean;
      if Live(p, o) && predecessor[o] == 0 && Lp(p, o).tuple.heapOnly { clean := false; }
      assert clean == (before && RootClean(p, o));
    }
  }

  // ---------------------------------------------------------------------------------------------
  // The page

  /** What a page looks like that nothing is reported about. */
  ghost predicate PageClean(p: Page) {
    && (forall o: nat :: On(p, o) ==> PointerClean(p, o))
    && LinksClean(p, |p.lps| + 1)
    && (forall o: nat :: On(p, o) ==> RootClean(p, o))
  }

  /** The three passes together report nothing exactly on clean pages. */
  method CheckPage(p: Page) returns (clean: bool)
    requires |p.lps| < MAX_OFFSET
    ensures clean <==> PageClean(p)
  {
    var successor, lpValid := new nat[MAX_OFFSET], new bool[MAX_OFFSET];
    var predecessor := new nat[MAX_OFFSET](_ => 0);
    var first := FirstPass(p, successor, lpValid);
    var second := SecondPass(p, successor, lpValid, predecessor);
    var third := ThirdPass(p, predecessor);
    return first && second && third;
  }

  // ---------------------------------------------------------------------------------------------
  // What a clean page promises

  /** The links form a matching: nothing has two predecessors. */
  lemma LinksMatch(p: Page, o: nat, j: nat)
    requires PageClean(p) && Target(p, o) == Target(p, j) != 0
    ensures o == j
  {
    LinksCleanAt(p, |p.lps| + 1, o);
    LinksCleanAt(p, |p.lps| + 1, j);
  }

  /** A heap-only tuple that is live has exactly one predecessor, and one that says so. */
  lemma HeapOnlyHasOnePredecessor(p: Page, n: nat) returns (o: nat)
    requires PageClean(p) && On(p, n) && Live(p, n) && Lp(p, n).tuple.heapOnly
    ensures Target(p, o) == n && forall j: nat :: Target(p, j) == n ==> j == o
    ensures Lp(p, o).Redirect? || Lp(p, o).tuple.hotUpdated
  {
    assert RootClean(p, n);
    o :| Target(p, o) == n;
    LinksCleanAt(p, |p.lps| + 1, o);
    forall j: nat | Target(p, j) == n ensures j == o { LinksMatch(p, o, j); }
  }

  // ---------------------------------------------------------------------------------------------
  // Whole chains

  ghost predicate LinkAt(p: Page, path: seq<nat>, i: nat)
    requires i + 1 < |path|
  {
    path[i + 1] != 0 && Target(p, path[i]) == path[i + 1]
  }

  /** A walk along links. */
  ghost predicate Path(p: Page, path: seq<nat>) {
    path != [] && forall i: nat :: i + 1 < |path| ==> LinkAt(p, path, i)
  }

  ghost predicate Leads(p: Page, path: seq<nat>, from: nat, to: nat) {
    Path(p, path) && path[0] == from && path[|path| - 1] == to
  }

  /** The chain that n is on has a beginning. */
  ghost predicate Rooted(p: Page, n: nat) {
    exists path: seq<nat> :: Path(p, path) && path[|path| - 1] == n && NoPredecessor(p, path[0])
  }

  /** Following the links from n leads back to n. */
  ghost predicate OnCycle(p: Page, n: nat) {
    exists path: seq<nat> :: |path| > 1 && Leads(p, path, n, n)
  }

  /** Walking on from the same line pointer gives the same walk. */
  lemma {:induction false} SameSteps(p: Page, path: seq<nat>, i: nat, j: nat, t: nat)
    requires Path(p, path) && i <= j && j + t < |path| && path[i] == path[j]
    ensures path[i + t] == path[j + t]
  {
    if t > 0 {
      SameSteps(p, path, i, j, t - 1);
      assert LinkAt(p, path, i + t - 1) && LinkAt(p, path, j + t - 1);
    }
  }

  lemma PathSuffix(p: Page, path: seq<nat>, k: nat)
    requires Path(p, path) && k < |path|
    ensures Path(p, path[k..])
  {
    var rest := path[k..];
    forall i: nat | i + 1 < |rest| ensures LinkAt(p, rest, i) { assert LinkAt(p, path, k + i); }
  }

  lemma PathPrepend(p: Page, o: nat, path: seq<nat>)
    requires Path(p, path) && path[0] != 0 && Target(p, o) == path[0]
    ensures Path(p, [o] + path)
  {
    var longer := [o] + path;
    forall i: nat | i + 1 < |longer| ensures LinkAt(p, longer, i) { if i > 0 { assert LinkAt(p, path, i - 1); } }
  }

  lemma PathOn(p: Page, path: seq<nat>, i: nat)
    requires Path(p, path) && i < |path| && On(p, path[|path| - 1])
    ensures On(p, path[i])
  {
    if i + 1 < |path| { assert LinkAt(p, path, i); }
  }

  /** A walk that is longer than the page repeats itself, so that its end is on a cycle. */
  lemma LongWalkCycles(p: Page, path: seq<nat>)
    requires Path(p, path) && |path| > |p.lps| + 1 && On(p, path[|path| - 1])
    ensures OnCycle(p, path[|path| - 1])
  {
    assert !Distinct(path) by {
      forall i | 0 <= i < |path| ensures path[i] < |p.lps| + 1 { PathOn(p, path, i); }
      if Distinct(path) { DistinctBound(path, |p.lps| + 1); }
    }
    var i, j :| 0 <= i < j < |path| && path[i] == path[j];
    var last := |path| - 1;
    SameSteps(p, path, i, j, last - j);
    PathSuffix(p, path, last - (j - i));
    assert Leads(p, path[last - (j - i)..], path[last], path[last]);
  }

  /** Walk back until nothing leads on, or long enough to come round. */
  lemma {:induction false} WalkBack(p: Page, path: seq<nat>)
    requires Path(p, path) && On(p, path[0]) && On(p, path[|path| - 1]) && |path| <= |p.lps| + 2
    ensures Rooted(p, path[|path| - 1]) || OnCycle(p, path[|path| - 1])
    decreases |p.lps| + 2 - |path|
  {
    if |path| > |p.lps| + 1 {
      LongWalkCycles(p, path);
    } else if !NoPredecessor(p, path[0]) {
      var o :| Target(p, o) == path[0];
      PathPrepend(p, o, path);
      WalkBack(p, [o] + path);
    }
  }

  /** Where nothing has two predecessors, a walk back from n is the same on every path to n. */
  lemma {:induction false} SameWayBack(p: Page, a: seq<nat>, b: seq<nat>, t: nat)
    requires PageClean(p) && Path(p, a) && Path(p, b) && a[|a| - 1] == b[|b| - 1] && t < |a| && t < |b|
    ensures a[|a| - 1 - t] == b[|b| - 1 - t]
  {
    if t > 0 {
      SameWayBack(p, a, b, t - 1);
      assert LinkAt(p, a, |a| - 1 - t) && LinkAt(p, b, |b| - 1 - t);
      LinksMatch(p, a[|a| - 1 - t], b[|b| - 1 - t]);
    }
  }

  /** Put a cycle behind itself until the walk is longer than k. */
  lemma {:induction false} Unrolled(p: Page, n: nat, k: nat) returns (path: seq<nat>)
    requires OnCycle(p, n)
    ensures Leads(p, path, n, n) && |path| > k + 1
  {
    var round: seq<nat> :| |round| > 1 && Leads(p, round, n, n);
    if k == 0 {
      path := round;
    } else {
      var shorter := Unrolled(p, n, k - 1);
      path := round[..|round| - 1] + shorter;
      forall i: nat | i + 1 < |path| ensures LinkAt(p, path, i) {
        if i + 1 < |round| {
          assert LinkAt(p, round, i);
        } else {
          assert LinkAt(p, shorter, i - (|round| - 1));
        }
      }
    }
  }

  lemma CycleHasNoBeginning(p: Page, path: seq<nat>)
    requires PageClean(p) && Path(p, path) && OnCycle(p, path[|path| - 1])
    ensures !NoPredecessor(p, path[0])
  {
    var round := Unrolled(p, path[|path| - 1], |path|);
    SameWayBack(p, path, round, |path| - 1);
    assert LinkAt(p, round, |round| - 1 - |path|);
  }

  /**
   * On a clean page, following the links backwards ends at the root of the chain, unless they run in
   * a circle, which the passes do not rule out.
   */
  lemma RootedExactly(p: Page, n: nat)
    requires PageClean(p) && On(p, n)
    ensures Rooted(p, n) <==> !OnCycle(p, n)
  {
    WalkBack(p, [n]);
    if OnCycle(p, n) {
      forall path: seq<nat> | Path(p, path) && path[|path| - 1] == n ensures !NoPredecessor(p, path[0]) {
        CycleHasNoBeginning(p, path);
      }
    }
  }

  /** What stands at the beginning of a chain: a redirect, a tuple not heap-only, or one not known to be live. */
  lemma RootKinds(p: Page, r: nat, n: nat)
    requires PageClean(p) && NoPredecessor(p, r) && Target(p, r) == n != 0
    ensures Lp(p, r).Redirect? || !Lp(p, r).tuple.heapOnly || !Live(p, r)
  {
    assert RootClean(p, r);
  }

  /** Two heap-only tuples that are each other's next version: nothing is reported, and there is no root. */
  lemma CycleIsAccepted() returns (p: Page)
    ensures PageClean(p) && OnCycle(p, 1) && Live(p, 1) && Lp(p, 1).tuple.heapOnly && !Rooted(p, 1)
  {
    var t1 := Tuple(10, 11, 0, 2, true, true, Some(Committed), false);
    var t2 := Tuple(11, 10, 0, 1, true, true, Some(Committed), false);
    p := Page(0, [Normal(8000, 32, t1), Normal(8032, 32, t2)]);
    assert Target(p, 1) == 2 && Target(p, 2) == 1;
    assert LinkClean(p, 1) && LinkClean(p, 2) && NoEarlier(p, 1) && NoEarlier(p, 2);
    assert LinksClean(p, 1);
    assert LinksClean(p, 2);
    assert LinksClean(p, 3);
    assert LinkAt(p, [1, 2, 1], 0) && LinkAt(p, [1, 2, 1], 1);
    assert Leads(p, [1, 2, 1], 1, 1);
    RootedExactly(p, 1);
  }

  // ---------------------------------------------------------------------------------------------
  // Aborted versions

  /** The status of the tuple is known, and is not that of the checker's own transaction. */
  predicate Settled(p: Page, o: nat) { StatusAt(p, o).Some? && StatusAt(p, o).value != IsCurrent }

  /** Along a stretch of settled versions, what follows an aborted version is aborted. */
  lemma {:induction false} AbortedStaysAborted(p: Page, path: seq<nat>, i: nat, j: nat)
    requires PageClean(p) && Path(p, path) && i <= j < |path| && forall k :: i < k <= j ==> Settled(p, path[k])
    requires StatusAt(p, path[i]) == Some(Aborted)
    ensures StatusAt(p, path[j]) == Some(Aborted)
  {
    if i < j {
      AbortedStaysAborted(p, path, i, j - 1);
      assert LinkAt(p, path, j - 1) && Settled(p, path[j]);
      LinksCleanAt(p, |p.lps| + 1, path[j - 1]);
    }
  }

  /** So a settled version that is not aborted comes after an aborted one only with an unsettled one in between. */
  lemma HiddenBetween(p: Page, path: seq<nat>, i: nat, j: nat)
    requires PageClean(p) && Path(p, path) && i < j < |path| && StatusAt(p, path[i]) == Some(Aborted)
    requires Settled(p, path[j]) && StatusAt(p, path[j]) != Some(Aborted)
    ensures exists k :: i < k < j && !Settled(p, path[k])
  {
    if forall k :: i < k < j ==> Settled(p, path[k]) {
      AbortedStaysAborted(p, path, i, j);
    }
  }

  /** check_tuple reported nothing about xmin: a valid one has a status, only a missing one goes without. */
  ghost predicate XminsKnown(p: Page) {
    forall o: nat :: LpValid(p, o) && Lp(p, o).Normal? && Lp(p, o).tuple.xmin != INVALID_XID ==> StatusAt(p, o).Some?
  }

  /** A version that another version leads to has a status, then. */
  lemma TargetHasStatus(p: Page, path: seq<nat>, k: nat)
    requires XminsKnown(p) && Path(p, path) && k + 1 < |path| && On(p, path[k]) && Lp(p, path[k]).Normal?
    ensures StatusAt(p, path[k + 1]).Some? && On(p, path[k + 1]) && Lp(p, path[k + 1]).Normal?
  {
    assert LinkAt(p, path, k);
  }

  lemma {:induction false} AllHaveStatus(p: Page, path: seq<nat>, i: nat, k: nat)
    requires XminsKnown(p) && Path(p, path) && i < k < |path| && StatusAt(p, path[i]).Some?
    ensures StatusAt(p, path[k]).Some? && On(p, path[k]) && Lp(p, path[k]).Normal?
  {
    if i + 1 < k { AllHaveStatus(p, path, i, k - 1); }
    TargetHasStatus(p, path, k - 1);
  }

  /** What comes in between is then a version of the checker's own transaction. */
  lemma OwnVersionBetween(p: Page, path: seq<nat>, i: nat, j: nat)
    requires PageClean(p) && XminsKnown(p) && Path(p, path) && i < j < |path|
    requires StatusAt(p, path[i]) == Some(Aborted) && Settled(p, path[j]) && StatusAt(p, path[j]) != Some(Aborted)
    ensures exists k :: i < k < j && StatusAt(p, path[k]) == Some(IsCurrent)
  {
    HiddenBetween(p, path, i, j);
    var k :| i < k < j && !Settled(p, path[k]);
    AllHaveStatus(p, path, i, k);
  }

  /** That does occur, without any finding: an aborted version, one of the own transaction, and a committed one. */
  lemma UnsettledHidesAbort() returns (p: Page)
    ensures PageClean(p) && XminsKnown(p) && Leads(p, [1, 2, 3], 1, 3)
    ensures StatusAt(p, 1) == Some(Aborted) && StatusAt(p, 3) == Some(Committed)
  {
    var t1 := Tuple(10, 11, 0, 2, false, false, Some(Aborted), false);
    var t2 := Tuple(11, 12, 0, 3, false, false, Some(IsCurrent), false);
    var t3 := Tuple(12, 0, 0, 3, false, false, Some(Committed), false);
    p := Page(0, [Normal(8000, 32, t1), Normal(8032, 32, t2), Normal(8064, 32, t3)]);
    assert Target(p, 1) == 2 && Target(p, 2) == 3 && Target(p, 3) == 0;
    assert LinkClean(p, 1) && LinkClean(p, 2) && NoEarlier(p, 1) && NoEarlier(p, 2);
    assert LinksClean(p, 1);
    assert LinksClean(p, 2);
    assert LinksClean(p, 3);
    assert LinksClean(p, 4);
    assert LinkAt(p, [1, 2, 3], 0) && LinkAt(p, [1, 2, 3], 1);
  }
}
