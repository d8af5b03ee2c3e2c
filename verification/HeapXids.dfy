/**
 * How verify_heapam widens the 32-bit transaction ids found in tuples to 64 bits, and how it decides
 * whether an id can occur in the table, against a cached range that may be out of date.
 */
module HeapXids {
  import opened Optional

  const TWO31 := 0x8000_0000
  const TWO32 := 0x1_0000_0000
  const TWO64 := 0x1_0000_0000_0000_0000

  const INVALID_XID := 0
  const BOOTSTRAP_XID := 1
  const FROZEN_XID := 2
  const FIRST_NORMAL := 3

  type Xid = x: int | 0 <= x < 0x1_0000_0000

  type FullXid = x: int | 0 <= x < 0x1_0000_0000_0000_0000

  /** Conversion to a signed 32-bit integer. */
  function Int32(x: int): int {
    var m := x % TWO32;
    if m >= TWO31 then m - TWO32 else m
  }

  function LowWord(f: FullXid): Xid { f % TWO32 }

  /** What the assertions of FullTransactionIdFromXidAndCtx ask of the next id. */
  predicate NormalNext(next: FullXid) { next >= FIRST_NORMAL && LowWord(next) >= FIRST_NORMAL }

  /** The id would lie before epoch 0. */
  predicate Clamped(xid: Xid, next: FullXid) {
    var diff := Int32(LowWord(next) - xid);
    xid >= FIRST_NORMAL && diff > 0 && next - FIRST_NORMAL < diff
  }

  /** FullTransactionIdFromXidAndCtx. */
  function Widen(xid: Xid, next: FullXid): FullXid
    requires NormalNext(next)
  {
    if xid < FIRST_NORMAL then xid
    else if Clamped(xid, next) then FIRST_NORMAL
    else (next - Int32(LowWord(next) - xid)) % TWO64
  }

  /** Within 2^31 ids of the next one, on either side. */
  predicate Recent(f: int, next: FullXid) { -TWO31 <= next - f < TWO31 }

  lemma Int32Range(x: int)
    ensures -TWO31 <= Int32(x) < TWO31 && (x - Int32(x)) % TWO32 == 0
  {
    var m := x % TWO32;
    assert x - Int32(x) == TWO32 * (x / TWO32) || x - Int32(x) == TWO32 * (x / TWO32 + 1);
  }

  /** Two numbers closer than 2^32 that agree in their low words are the same. */
  lemma SameLowWord(a: int, b: int)
    requires a % TWO32 == b % TWO32 && -TWO32 < a - b < TWO32
    ensures a == b
  {
    assert a - b == TWO32 * (a / TWO32 - b / TWO32);
  }

  lemma Int32Unique(x: int, d: int)
    requires -TWO31 <= d < TWO31 && (x - d) % TWO32 == 0
    ensures Int32(x) == d
  {
    Int32Range(x);
    var k := (x - d) / TWO32;
    var j := (x - Int32(x)) / TWO32;
    assert x - d == TWO32 * k && x - Int32(x) == TWO32 * j;
    assert d - Int32(x) == TWO32 * (j - k);
  }

  /** The signed difference of the low words is the difference of recent ids. */
  lemma DifferenceOfRecent(f: int, next: FullXid)
    ensures Recent(f, next) ==> Int32(LowWord(next) - f % TWO32) == next - f
  {
    var x := LowWord(next) - f % TWO32;
    assert x - (next - f) == TWO32 * (f / TWO32 - next / TWO32);
    if Recent(f, next) { Int32Unique(x, next - f); }
  }

  /** Every normal id that is recent is recovered from its low word. */
  lemma RoundTrip(f: FullXid, next: FullXid)
    requires NormalNext(next) && f >= FIRST_NORMAL && LowWord(f) >= FIRST_NORMAL && Recent(f, next)
    ensures Widen(LowWord(f), next) == f
  {
    DifferenceOfRecent(f, next);
  }

  /** Unless it is clamped, an id keeps its low word. */
  lemma WidenKeepsLowWord(xid: Xid, next: FullXid)
    requires NormalNext(next) && !Clamped(xid, next)
    ensures LowWord(Widen(xid, next)) == xid
  {
    if xid >= FIRST_NORMAL {
      var x := LowWord(next) - xid;
      var w := next - Int32(x);
      Int32Range(x);
      var j := (x - Int32(x)) / TWO32;
      assert x - Int32(x) == TWO32 * j;
      assert w - xid == TWO32 * (next / TWO32 + j);
      ModBySmaller(w);
      assert w % TWO32 == xid by { SameMod(w, xid, next / TWO32 + j); }
    }
  }

  lemma SameMod(w: int, xid: Xid, k: int)
    requires w - xid == TWO32 * k
    ensures w % TWO32 == xid
  {
  }

  lemma QuotientSplit(q: int, r: int)
    ensures TWO64 * q + r == TWO32 * (TWO32 * q + r / TWO32) + r % TWO32
  {
    assert r == TWO32 * (r / TWO32) + r % TWO32;
  }

  lemma ModBySmaller(w: int)
    ensures (w % TWO64) % TWO32 == w % TWO32
  {
    var q, r := w / TWO64, w % TWO64;
    assert w == TWO64 * q + r;
    QuotientSplit(q, r);
    SameMod(w, r % TWO32, TWO32 * q + r / TWO32);
  }

  /** A normal id always widens to a normal one. */
  lemma WidenIsNormal(xid: Xid, next: FullXid)
    requires NormalNext(next) && xid >= FIRST_NORMAL
    ensures Widen(xid, next) >= FIRST_NORMAL
  {
    if !Clamped(xid, next) { WidenKeepsLowWord(xid, next); }
  }

  /**
   * Clamping happens in epoch 0 only, and exactly for ids that no recent normal id can stand for,
   * counting on past 64 bits.
   */
  lemma ClampedExactly(xid: Xid, next: FullXid)
    requires NormalNext(next) && xid >= FIRST_NORMAL
    ensures Clamped(xid, next) ==> next / TWO32 == 0
    ensures Clamped(xid, next) <==> !exists f :: f >= FIRST_NORMAL && f % TWO32 == xid && Recent(f, next)
  {
    var x := LowWord(next) - xid;
    Int32Range(x);
    if Clamped(xid, next) {
      forall f | f >= FIRST_NORMAL && f % TWO32 == xid ensures !Recent(f, next) {
        DifferenceOfRecent(f, next);
      }
    } else {
      var f := next - Int32(x);
      var j := (x - Int32(x)) / TWO32;
      assert x - Int32(x) == TWO32 * j;
      assert f - xid == TWO32 * (next / TWO32 + j);
      SameMod(f, xid, next / TWO32 + j);
      assert f >= FIRST_NORMAL && f % TWO32 == xid && Recent(f, next);
    }
  }

  // ---------------------------------------------------------------------------------------------
  // get_xid_status

  datatype Bounds = Invalid | InFuture | PrecedesClusterMin | PrecedesRelMin | BoundsOk

  datatype Status = Committed | IsCurrent | InProgress | Aborted

  /** The shared variables a refresh reads. */
  datatype Shared = Shared(next: FullXid, oldestXid: Xid, oldestClogXid: Xid)

  predicate InRange(f: FullXid, oldest: FullXid, next: FullXid) { oldest <= f < next }

  /** Where an id lies, relative to a range of ids. */
  function BoundsOf(xid: Xid, oldest: FullXid, next: FullXid, relfrozen: FullXid): Bounds
    requires NormalNext(next)
  {
    if xid == INVALID_XID then Invalid
    else if xid < FIRST_NORMAL then BoundsOk
    else
      var f := Widen(xid, next);
      if next <= f then InFuture else if f < oldest then PrecedesClusterMin
      else if f < relfrozen then PrecedesRelMin else BoundsOk
  }

  /** The cached range does not account for the id. */
  predicate NeedsRefresh(xid: Xid, oldest: FullXid, next: FullXid)
    requires NormalNext(next)
  {
    xid >= FIRST_NORMAL && !InRange(Widen(xid, next), oldest, next)
  }

  class XidCache {
    var next: FullXid
    var oldest: FullXid
    const relfrozen: FullXid
    var cachedXid: Xid
    var cachedStatus: Status

    constructor (shared: Shared, relfrozenXid: Xid)
      requires NormalNext(shared.next)
      ensures next == shared.next && oldest == Widen(shared.oldestXid, shared.next)
      ensures relfrozen == Widen(relfrozenXid, shared.next) && cachedXid == INVALID_XID
    {
      next, oldest := shared.next, Widen(shared.oldestXid, shared.next);
      relfrozen := Widen(relfrozenXid, shared.next);
      cachedXid, cachedStatus := INVALID_XID, Committed;
    }

    /** update_cached_xid_range. */
    method Refresh(shared: Shared)
      requires NormalNext(shared.next)
      modifies `next, `oldest
      ensures next == shared.next && oldest == Widen(shared.oldestXid, shared.next)
    {
      next, oldest := shared.next, Widen(shared.oldestXid, shared.next);
    }

    /** get_xid_status; known is what the running transactions and the commit log say about the id. */
    method GetXidStatus(xid: Xid, shared: Shared, wanted: bool, known: Status)
      returns (bounds: Bounds, status: Option<Status>)
      requires NormalNext(next) && NormalNext(shared.next)
      modifies this
      ensures NormalNext(next) && bounds == BoundsOf(xid, oldest, next, relfrozen)
      ensures if old(NeedsRefresh(xid, oldest, next))
              then next == shared.next && oldest == Widen(shared.oldestXid, next)
              else next == old(next) && oldest == old(oldest)
      // a verdict on the range is never passed on stale values
      ensures bounds.InFuture? || bounds.PrecedesClusterMin? ==> next == shared.next
      ensures bounds.BoundsOk? && xid >= FIRST_NORMAL ==>
                InRange(Widen(xid, next), oldest, next) && relfrozen <= Widen(xid, next)
      ensures status.Some? <==> wanted && bounds.BoundsOk?
      ensures status.Some? ==>
                status.value == if xid < FIRST_NORMAL then Committed
                                else if xid == old(cachedXid) then old(cachedStatus)
                                else if Widen(shared.oldestClogXid, next) <= Widen(xid, next) then known
                                else Committed
      ensures if status.Some? && xid >= FIRST_NORMAL then cachedXid == xid && cachedStatus == status.value
              else cachedXid == old(cachedXid) && cachedStatus == old(cachedStatus)
    {
      status := None;
      if xid == INVALID_XID { return Invalid, status; }
      if xid == BOOTSTRAP_XID || xid == FROZEN_XID {
        if wanted { status := Some(Committed); }
        return BoundsOk, status;
      }
      var f := Widen(xid, next);
      if !InRange(f, oldest, next) {
        Refresh(shared);
        f := Widen(xid, next);
      }
      if next <= f { return InFuture, status; }
      if f < oldest { return PrecedesClusterMin, status; }
      if f < relfrozen { return PrecedesRelMin, status; }
      if !wanted { return BoundsOk, status; }
      if xid == cachedXid { return BoundsOk, Some(cachedStatus); }
      var s := Committed;
      if Widen(shared.oldestClogXid, next) <= f { s := known; }
      cachedXid, cachedStatus := xid, s;
      return BoundsOk, Some(s);
    }
  }

  /** The range that a call ends up with. */
  function NextUsed(xid: Xid, oldest: FullXid, next: FullXid, shared: Shared): FullXid
    requires NormalNext(next) && NormalNext(shared.next)
  {
    if NeedsRefresh(xid, oldest, next) then shared.next else next
  }

  function OldestUsed(xid: Xid, oldest: FullXid, next: FullXid, shared: Shared): FullXid
    requires NormalNext(next) && NormalNext(shared.next)
  {
    if NeedsRefresh(xid, oldest, next) then Widen(shared.oldestXid, shared.next) else oldest
  }

  /** The verdict of a call of GetXidStatus with this cache and these shared variables. */
  function Verdict(xid: Xid, oldest: FullXid, next: FullXid, shared: Shared, relfrozen: FullXid): Bounds
    requires NormalNext(next) && NormalNext(shared.next)
  {
    BoundsOf(xid, OldestUsed(xid, oldest, next, shared), NextUsed(xid, oldest, next, shared), relfrozen)
  }

  /** A normal 64-bit id within 2^31 of the next one, so that its low word can stand for it. */
  predicate Genuine(f: FullXid, next: FullXid) { f >= FIRST_NORMAL && LowWord(f) >= FIRST_NORMAL && Recent(f, next) }

  /**
   * On refreshed values the verdict is the one about the 64-bit ids themselves: f the id in question,
   * o the oldest one of the cluster.
   */
  lemma RefreshedVerdictIsTrue(f: FullXid, o: FullXid, shared: Shared, relfrozen: FullXid)
    requires NormalNext(shared.next) && Genuine(f, shared.next) && Genuine(o, shared.next)
    requires LowWord(o) == shared.oldestXid
    ensures BoundsOf(LowWord(f), Widen(shared.oldestXid, shared.next), shared.next, relfrozen) ==
            if shared.next <= f then InFuture else if f < o then PrecedesClusterMin
            else if f < relfrozen then PrecedesRelMin else BoundsOk
  {
    RoundTrip(f, shared.next);
    RoundTrip(o, shared.next);
  }

  /** A cache that is behind the shared variables, by less than 2^32 ids altogether. */
  predicate BehindShared(oldest: FullXid, next: FullXid, shared: Shared) {
    next <= shared.next && shared.next - oldest < TWO32
  }

  /** If the cached range accepts a recent id, it has widened it to the right one. */
  lemma CacheHitIsRight(f: FullXid, oldest: FullXid, next: FullXid, shared: Shared)
    requires NormalNext(next) && NormalNext(shared.next) && BehindShared(oldest, next, shared)
    requires f >= FIRST_NORMAL && LowWord(f) >= FIRST_NORMAL && f < shared.next && shared.next - f < TWO31
    requires InRange(Widen(LowWord(f), next), oldest, next)
    ensures Clamped(LowWord(f), next) || Widen(LowWord(f), next) == f
  {
    if !Clamped(LowWord(f), next) {
      WidenKeepsLowWord(LowWord(f), next);
      SameLowWord(Widen(LowWord(f), next), f);
    }
  }

  /**
   * An id in the cluster's range and not before the table's horizon is accepted exactly if the cached
   * range sends the check to the shared variables, or has widened it to something within the horizon.
   */
  lemma AcceptedExactly(f: FullXid, oldest: FullXid, next: FullXid, shared: Shared, relfrozen: FullXid)
    requires NormalNext(next) && NormalNext(shared.next) && Genuine(f, shared.next)
    requires InRange(f, Widen(shared.oldestXid, shared.next), shared.next) && relfrozen <= f
    ensures Verdict(LowWord(f), oldest, next, shared, relfrozen) == BoundsOk <==>
            NeedsRefresh(LowWord(f), oldest, next) || relfrozen <= Widen(LowWord(f), next)
  {
    if NeedsRefresh(LowWord(f), oldest, next) { RoundTrip(f, shared.next); }
  }

  /** So there is no false alarm if the cache is less than 2^32 ids behind and does not clamp the id. */
  lemma GenuineIdIsAccepted(f: FullXid, oldest: FullXid, next: FullXid, shared: Shared, relfrozen: FullXid)
    requires NormalNext(next) && NormalNext(shared.next) && Genuine(f, shared.next)
    requires InRange(f, Widen(shared.oldestXid, shared.next), shared.next) && relfrozen <= f
    requires BehindShared(oldest, next, shared) && !Clamped(LowWord(f), next)
    ensures Verdict(LowWord(f), oldest, next, shared, relfrozen) == BoundsOk
  {
    AcceptedExactly(f, oldest, next, shared, relfrozen);
    if !NeedsRefresh(LowWord(f), oldest, next) { CacheHitIsRight(f, oldest, next, shared); }
  }

  /**
   * A cache as stale as it can get during one check: the snapshot of the check holds the oldest id of the
   * cluster back, and no id 2^31 past that one is handed out.
   */
  predicate NearShared(oldest: FullXid, next: FullXid, shared: Shared) {
    FIRST_NORMAL <= oldest <= next <= shared.next && shared.next - oldest < TWO31
  }

  lemma NearIsNotClamped(f: FullXid, next: FullXid)
    requires NormalNext(next) && f >= FIRST_NORMAL && Recent(f, next)
    ensures !Clamped(LowWord(f), next)
  {
    DifferenceOfRecent(f, next);
  }

  /** With such a cache there is no false alarm at all. */
  lemma NearCacheAccepts(f: FullXid, oldest: FullXid, next: FullXid, shared: Shared, relfrozen: FullXid)
    requires NormalNext(next) && NormalNext(shared.next) && Genuine(f, shared.next) && NearShared(oldest, next, shared)
    requires InRange(f, Widen(shared.oldestXid, shared.next), shared.next) && oldest <= f && relfrozen <= f
    ensures Verdict(LowWord(f), oldest, next, shared, relfrozen) == BoundsOk
  {
    NearIsNotClamped(f, next);
    GenuineIdIsAccepted(f, oldest, next, shared, relfrozen);
  }

  /** A false alarm: the cache was taken at id 5 and clamps an id of the range to 3, before the horizon. */
  lemma StaleCacheRaisesAlarm() returns (f: FullXid, shared: Shared)
    ensures NormalNext(5) && NormalNext(shared.next) && Genuine(f, shared.next) && BehindShared(3, 5, shared)
    ensures InRange(f, Widen(shared.oldestXid, shared.next), shared.next) && 4 <= f
    ensures Verdict(LowWord(f), 3, 5, shared, 4) == PrecedesRelMin
  {
    f, shared := TWO31 + 6, Shared(TWO31 + 10, TWO31, TWO31);
  }

  /** An id from beyond the next one is reported as such exactly if the cached range does not account for it. */
  lemma FutureReportedExactly(f: FullXid, oldest: FullXid, next: FullXid, shared: Shared, relfrozen: FullXid)
    requires NormalNext(next) && NormalNext(shared.next) && Genuine(f, shared.next) && shared.next <= f
    ensures Verdict(LowWord(f), oldest, next, shared, relfrozen) == InFuture <==> NeedsRefresh(LowWord(f), oldest, next)
  {
    if NeedsRefresh(LowWord(f), oldest, next) { RoundTrip(f, shared.next); }
  }

  /** So it is if the cached range starts less than 2^32 ids before the id and does not clamp it. */
  lemma FutureIdIsReported(f: FullXid, oldest: FullXid, next: FullXid, shared: Shared, relfrozen: FullXid)
    requires NormalNext(next) && NormalNext(shared.next) && Genuine(f, shared.next) && shared.next <= f
    requires next <= shared.next && f - oldest < TWO32 && !Clamped(LowWord(f), next)
    ensures Verdict(LowWord(f), oldest, next, shared, relfrozen) == InFuture
  {
    FutureReportedExactly(f, oldest, next, shared, relfrozen);
    if !NeedsRefresh(LowWord(f), oldest, next) {
      WidenKeepsLowWord(LowWord(f), next);
      SameLowWord(Widen(LowWord(f), next), f);
    }
  }

  /** With a cache that is near, every future id less than 2^31 past the cached next one is. */
  lemma NearCacheReportsFuture(f: FullXid, oldest: FullXid, next: FullXid, shared: Shared, relfrozen: FullXid)
    requires NormalNext(next) && NormalNext(shared.next) && Genuine(f, shared.next) && NearShared(oldest, next, shared)
    requires shared.next <= f && f - next < TWO31
    ensures Verdict(LowWord(f), oldest, next, shared, relfrozen) == InFuture
  {
    NearIsNotClamped(f, next);
    FutureIdIsReported(f, oldest, next, shared, relfrozen);
  }

  /** A miss: the cache was taken at id 5, one epoch ago, and takes a future id for id 4. */
  lemma StaleCacheHidesFuture() returns (f: FullXid, shared: Shared)
    ensures NormalNext(5) && NormalNext(shared.next) && Genuine(f, shared.next) && shared.next <= f
    ensures Verdict(LowWord(f), 3, 5, shared, 3) == BoundsOk
  {
    f, shared := TWO32 + 4, Shared(TWO32 + 3, TWO31, TWO31);
  }
}
