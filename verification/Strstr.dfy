/** The substring search of main.c. */
module Strstr {
  import opened Wrappers

  ghost predicate OccursAt(haystack: string, needle: string, k: nat) {
    k + |needle| <= |haystack| && haystack[k..k + |needle|] == needle
  }

  /** The first occurrence, or None exactly when there is none. When the haystack ends in the middle of
      a match the search stops: no later start leaves room for the needle. */
  method Strstr(haystack: string, needle: string) returns (r: Option<nat>)
    ensures r.Some? ==> OccursAt(haystack, needle, r.value) && forall k | 0 <= k < r.value :: !OccursAt(haystack, needle, k)
    ensures r == None ==> forall k :: !OccursAt(haystack, needle, k)
  {
    var start, h, n := 0, 0, 0;
    while true
      invariant 0 <= n <= |needle| && 0 <= start && h == start + n <= |haystack|
      invariant haystack[start..h] == needle[..n]
      invariant forall k | 0 <= k < start :: !OccursAt(haystack, needle, k)
      decreases |haystack| - start, |needle| - n
    {
      if n == |needle| {
        return Some(start);
      }
      if h == |haystack| {
        return None;
      }
      if haystack[h] == needle[n] {
        assert haystack[start..h + 1] == haystack[start..h] + [haystack[h]];
        assert needle[..n + 1] == needle[..n] + [needle[n]];
        h, n := h + 1, n + 1;
      } else {
        assert !OccursAt(haystack, needle, start) by {
          if start + |needle| <= |haystack| {
            assert haystack[start..start + |needle|][n] == haystack[h];
          }
        }
        start := start + 1;
        h, n := start, 0;
      }
    }
  }
}
