/** Byte strings under the order of byteacmp: memcmp on the common length, then the length. */
module ByteStrings {

  type Byte = b: int | 0 <= b < 256

  type Bytes = seq<Byte>

  /** Length of the longest common prefix. */
  function Lcp(a: Bytes, b: Bytes): (p: nat)
    ensures p <= |a| && p <= |b|
    ensures a[..p] == b[..p]
    ensures p < |a| && p < |b| ==> a[p] != b[p]
  {
    if a == [] || b == [] || a[0] != b[0] then 0
    else
      var p := Lcp(a[1..], b[1..]);
      assert a[..p + 1] == [a[0]] + a[1..][..p];
      assert b[..p + 1] == [b[0]] + b[1..][..p];
      p + 1
  }

  /** byteacmp: the sign of the first differing byte, or of the length difference. */
  function Cmp(a: Bytes, b: Bytes): (r: int)
    ensures r == 0 <==> a == b
  {
    var p := Lcp(a, b);
    if p == |a| && p == |b| then
      assert a == a[..p] && b == b[..p];
      0
    else if p == |a| then -1
    else if p == |b| then 1
    else a[p] as int - b[p] as int
  }

  predicate Le(a: Bytes, b: Bytes) { Cmp(a, b) <= 0 }

  /** A prefix length at which the two strings part is the common prefix length. */
  lemma LcpUnique(a: Bytes, b: Bytes, p: nat)
    requires p <= |a| && p <= |b| && a[..p] == b[..p]
    requires p < |a| && p < |b| ==> a[p] != b[p]
    ensures Lcp(a, b) == p
  {
    assert forall i :: 0 <= i < p ==> a[..p][i] == b[..p][i];
  }

  lemma CmpAntisymmetric(a: Bytes, b: Bytes)
    ensures Lcp(a, b) == Lcp(b, a) && Cmp(a, b) == -Cmp(b, a)
  {
    LcpUnique(b, a, Lcp(a, b));
  }

  /** a is a proper prefix of b, or has the smaller byte where they first differ. */
  ghost predicate Before(a: Bytes, b: Bytes) {
    a < b || exists i :: 0 <= i < |a| && i < |b| && a[..i] == b[..i] && a[i] < b[i]
  }

  lemma BeforeIsNegative(a: Bytes, b: Bytes)
    ensures Cmp(a, b) < 0 <==> Before(a, b)
  {
    var p := Lcp(a, b);
    assert p == |a| ==> a[..p] == a;
    if a < b {
      LcpUnique(a, b, |a|);
    } else if i :| 0 <= i < |a| && i < |b| && a[..i] == b[..i] && a[i] < b[i] {
      LcpUnique(a, b, i);
    }
  }

  /** The sign of the comparison is that of the order byte by byte, a prefix coming first. */
  lemma CmpSign(a: Bytes, b: Bytes)
    ensures Cmp(a, b) < 0 <==> Before(a, b)
    ensures Cmp(a, b) > 0 <==> Before(b, a)
  {
    BeforeIsNegative(a, b);
    BeforeIsNegative(b, a);
    CmpAntisymmetric(a, b);
  }

  lemma LcpAtLeast(a: Bytes, b: Bytes, n: nat)
    requires n <= |a| && n <= |b| && a[..n] == b[..n]
    ensures n <= Lcp(a, b)
  {
    assert forall i :: 0 <= i < n ==> a[..n][i] == b[..n][i];
  }

  lemma LcpAtMost(a: Bytes, b: Bytes, n: nat)
    requires n <= Lcp(a, b)
    ensures a[..n] == b[..n]
  {
    var p := Lcp(a, b);
    assert a[..n] == a[..p][..n] && b[..n] == b[..p][..n];
  }

  /** The order is transitive, and the common prefix of the ends is shared by the middle. */
  lemma Sandwich(a: Bytes, b: Bytes, c: Bytes)
    requires Le(a, b) && Le(b, c)
    ensures Le(a, c)
    ensures Lcp(a, c) <= Lcp(a, b) && Lcp(a, c) <= Lcp(b, c)
  {
    var p, q := Lcp(a, b), Lcp(b, c);
    var m := if p <= q then p else q;
    LcpAtMost(a, b, m);
    LcpAtMost(b, c, m);
    LcpUnique(a, c, m);
  }

  /** A prefix comes first, and everything between it and its extension extends it too. */
  lemma PrefixBetween(u: Bytes, q: Bytes, x: Bytes)
    requires u <= x
    ensures Le(u, x)
    ensures Le(u, q) && Le(q, x) ==> u <= q
  {
    assert x[..|u|] == u[..|u|] == u;
    LcpUnique(u, x, |u|);
    if Le(u, q) && Le(q, x) {
      Sandwich(u, q, x);
    }
  }

  lemma PrefixLe(u: Bytes, x: Bytes)
    requires u <= x
    ensures Le(u, x)
  {
    PrefixBetween(u, u, x);
  }

  /** A longer string can only exceed one that ends in the largest byte by extending it. */
  lemma AboveLargest(u: Bytes, x: Bytes, n: nat)
    requires n <= |u| && u[..n] <= x && !Le(x, u)
    requires forall i :: n <= i < |u| ==> u[i] == 255
    ensures u <= x
  {
    CmpAntisymmetric(x, u);
    LcpAtLeast(x, u, n);
  }
}
