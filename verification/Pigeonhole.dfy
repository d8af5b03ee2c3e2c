/** How many different numbers there are below a bound. */
module Pigeonhole {

  ghost predicate Distinct(s: seq<nat>) { forall i, j :: 0 <= i < j < |s| ==> s[i] != s[j] }

  /** Distinct numbers below a bound are at most as many as the bound. */
  lemma {:induction false} DistinctBound(s: seq<nat>, n: nat)
    requires Distinct(s) && forall i :: 0 <= i < |s| ==> s[i] < n
    ensures |s| <= n
  {
    if |s| > 0 {
      assert s[0] < n;
      if m :| 0 <= m < |s| && s[m] == n - 1 {
        var t := s[..m] + s[m + 1..];
        forall i, j | 0 <= i < j < |t| ensures t[i] != t[j] {
          assert t[i] == s[if i < m then i else i + 1] && t[j] == s[if j < m then j else j + 1];
        }
        forall i | 0 <= i < |t| ensures t[i] < n - 1 {
          assert t[i] == s[if i < m then i else i + 1];
        }
        DistinctBound(t, n - 1);
      } else {
        DistinctBound(s, n - 1);
      }
    }
  }
}
