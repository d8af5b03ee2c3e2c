/** How verify_heapam checks the chunks of an out-of-line value against the size its pointer claims. */
module HeapToast {
  import opened Optional

  const TOAST_MAX_CHUNK_SIZE := 1996
  const TWO32 := 0x1_0000_0000

  /** What the chunk's varlena header says. */
  datatype Data = NullData | Plain(varsize: nat) | Short(varsize: nat) | BadHeader

  datatype Chunk = Chunk(no: Option<int>, data: Data)

  /** The size in the toast pointer, an unsigned 30-bit field. */
  type ExtSize = n: int | 0 <= n < 0x4000_0000

  /** The last sequence number; subtracting 1 from 0 wraps around at 2^32. */
  function LastSeq(extsize: ExtSize): nat { ((extsize - 1) % TWO32) / TOAST_MAX_CHUNK_SIZE }

  /** The bytes behind the header. */
  function SizeOf(data: Data): int {
    match data
    case Plain(n) => n - 4
    case Short(n) => n - 1
    case _ => 0
  }

  /** The size computed for chunk number i; the last one is taken modulo 2^32. */
  function ExpectedSize(i: int, extsize: ExtSize): int {
    if i < LastSeq(extsize) then TOAST_MAX_CHUNK_SIZE
    else (extsize - LastSeq(extsize) * TOAST_MAX_CHUNK_SIZE) % TWO32
  }

  /** Nothing to report about this chunk where number i is expected. */
  predicate ChunkOk(c: Chunk, i: int, extsize: ExtSize) {
    && c.no == Some(i) && (c.data.Plain? || c.data.Short?) && i <= LastSeq(extsize)
    && SizeOf(c.data) == ExpectedSize(i, extsize)
  }

  /** check_toast_tuple. */
  method CheckToastTuple(c: Chunk, expected: int, extsize: ExtSize) returns (clean: bool, expected': int)
    ensures clean <==> ChunkOk(c, expected, extsize)
    ensures expected' == if c.no.Some? then c.no.value + 1 else expected
  {
    clean, expected' := true, expected;
    var last := LastSeq(extsize);
    if c.no.None? { return false, expected'; }
    var no := c.no.value;
    if no != expected { clean := false; }
    expected' := no + 1;
    if c.data.NullData? || c.data.BadHeader? { return false, expected'; }
    if no > last { return false, expected'; }
    if SizeOf(c.data) != ExpectedSize(no, extsize) { clean := false; }
  }

  /** Every chunk from 0 to the last, each of its size. */
  ghost predicate Exact(chunks: seq<Chunk>, extsize: ExtSize) {
    |chunks| == LastSeq(extsize) + 1 && forall i: nat :: i < |chunks| ==> ChunkOk(chunks[i], i, extsize)
  }

  /** check_toasted_attribute: chunks is what the index scan returns, in order. */
  method CheckToastedAttribute(chunks: seq<Chunk>, extsize: ExtSize) returns (clean: bool)
    ensures clean <==> Exact(chunks, extsize)
  {
    clean := true;
    var found, expected := false, 0;
    for i := 0 to |chunks|
      invariant found == (i > 0)
      invariant clean <==> forall j: nat :: j < i ==> ChunkOk(chunks[j], j, extsize)
      invariant clean ==> expected == i
    {
      found := true;
      var ok, next := CheckToastTuple(chunks[i], expected, extsize);
      clean, expected := clean && ok, next;
    }
    if !found {
      clean := false;
    } else if expected <= LastSeq(extsize) {
      clean := false;
    } else if clean {
      assert ChunkOk(chunks[|chunks| - 1], |chunks| - 1, extsize);
    }
  }

  // ---------------------------------------------------------------------------------------------
  // What an accepted value looks like, without the arithmetic of the check

  predicate WellFormed(c: Chunk, i: nat) { c.no == Some(i) && (c.data.Plain? || c.data.Short?) }

  /** The bytes in the first n chunks. */
  function Bytes(chunks: seq<Chunk>, n: nat): int
    requires n <= |chunks| && forall i: nat :: i < |chunks| ==> WellFormed(chunks[i], i)
  {
    if n == 0 then 0 else Bytes(chunks, n - 1) + SizeOf(chunks[n - 1].data)
  }

  /** A value of the given size cut into chunks: all but the last are full, and the last is not empty. */
  ghost predicate CutInto(chunks: seq<Chunk>, total: int) {
    && |chunks| > 0 && (forall i: nat :: i < |chunks| ==> WellFormed(chunks[i], i))
    && (forall i: nat :: i < |chunks| - 1 ==> SizeOf(chunks[i].data) == TOAST_MAX_CHUNK_SIZE)
    && 1 <= SizeOf(chunks[|chunks| - 1].data) <= TOAST_MAX_CHUNK_SIZE
    && Bytes(chunks, |chunks|) == total
  }

  lemma {:induction false} FullBytes(chunks: seq<Chunk>, n: nat)
    requires n <= |chunks| && forall i: nat :: i < |chunks| ==> WellFormed(chunks[i], i)
    requires forall i: nat :: i < n ==> SizeOf(chunks[i].data) == TOAST_MAX_CHUNK_SIZE
    ensures Bytes(chunks, n) == n * TOAST_MAX_CHUNK_SIZE
  {
    if n > 0 { FullBytes(chunks, n - 1); }
  }

  /** The size that the chunks have to add up to: the claimed one, except that 0 is taken for 2^32. */
  function Total(extsize: ExtSize): int { if extsize == 0 then TWO32 else extsize }

  lemma LastSeqSplits(extsize: ExtSize)
    ensures var rest := Total(extsize) - LastSeq(extsize) * TOAST_MAX_CHUNK_SIZE;
            1 <= rest <= TOAST_MAX_CHUNK_SIZE && ExpectedSize(LastSeq(extsize), extsize) == rest
  {
    if extsize == 0 {
      assert LastSeq(extsize) == 2151787;
    } else {
      assert (extsize - 1) % TWO32 == extsize - 1;
    }
  }

  lemma WholeValue(chunks: seq<Chunk>)
    requires |chunks| > 0 && forall i: nat :: i < |chunks| ==> WellFormed(chunks[i], i)
    requires forall i: nat :: i < |chunks| - 1 ==> SizeOf(chunks[i].data) == TOAST_MAX_CHUNK_SIZE
    ensures Bytes(chunks, |chunks|) == (|chunks| - 1) * TOAST_MAX_CHUNK_SIZE + SizeOf(chunks[|chunks| - 1].data)
  {
    FullBytes(chunks, |chunks| - 1);
  }

  /** A value is accepted exactly if its chunks are the claimed number of bytes cut into chunks. */
  lemma AcceptedIsCut(chunks: seq<Chunk>, extsize: ExtSize)
    ensures Exact(chunks, extsize) <==> CutInto(chunks, Total(extsize))
  {
    LastSeqSplits(extsize);
    var last := LastSeq(extsize);
    if Exact(chunks, extsize) {
      forall i: nat | i < |chunks|
        ensures WellFormed(chunks[i], i) && SizeOf(chunks[i].data) == ExpectedSize(i, extsize)
      {
        assert ChunkOk(chunks[i], i, extsize);
      }
      WholeValue(chunks);
    }
    if CutInto(chunks, Total(extsize)) {
      WholeValue(chunks);
      UniqueQuotient(|chunks| - 1, last, SizeOf(chunks[|chunks| - 1].data), Total(extsize));
      forall i: nat | i < |chunks| ensures ChunkOk(chunks[i], i, extsize) { assert WellFormed(chunks[i], i); }
    }
  }

  lemma UniqueQuotient(n: nat, last: nat, rest: int, total: int)
    requires n * TOAST_MAX_CHUNK_SIZE + rest == total && 1 <= rest <= TOAST_MAX_CHUNK_SIZE
    requires 1 <= total - last * TOAST_MAX_CHUNK_SIZE <= TOAST_MAX_CHUNK_SIZE
    ensures n == last
  {
  }

  /** An empty external value would have to be 4 GB long. */
  lemma ZeroSizeIsNeverShort(chunks: seq<Chunk>)
    requires Exact(chunks, 0)
    ensures |chunks| == 2151788 && CutInto(chunks, TWO32)
  {
    AcceptedIsCut(chunks, 0);
    LastSeqSplits(0);
  }
}
