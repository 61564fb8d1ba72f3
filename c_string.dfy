/**
 * NUL-terminated character strings, as the C library sees a `char *`:
 * the characters from a position up to (not including) the first '\0'.
 */
module CString {

  const NUL: char := '\0'

  /** Some '\0' lies at or after position `p` of `s`: `s` from `p` is a C string. */
  ghost predicate Terminated(s: seq<char>, p: nat) {
    exists k :: p <= k < |s| && s[k] == NUL
  }

  /** The C string that starts at position `p` of the buffer `s`. */
  function CStr(s: seq<char>, p: nat): (t: seq<char>)
    requires Terminated(s, p)
    ensures p + |t| < |s| && s[p + |t|] == NUL
    ensures t == s[p..p + |t|] && NUL !in t
    decreases |s| - p
  {
    if s[p] == NUL then [] else [s[p]] + CStr(s, p + 1)
  }

  /** Two buffers that agree from `p` through the terminating '\0' hold the same C string at `p`. */
  lemma {:induction false} CStrAgree(s: seq<char>, u: seq<char>, p: nat)
    requires Terminated(s, p)
    requires p + |CStr(s, p)| < |u|
    requires forall k :: p <= k <= p + |CStr(s, p)| ==> u[k] == s[k]
    ensures Terminated(u, p) && CStr(u, p) == CStr(s, p)
    decreases |s| - p
  {
    assert u[p + |CStr(s, p)|] == NUL;
    if s[p] != NUL {
      CStrAgree(s, u, p + 1);
    }
  }

  /** The C string at `p` runs up to the first '\0' at or after `p`. */
  lemma {:induction false} CStrUpTo(s: seq<char>, p: nat, e: nat)
    requires p <= e < |s| && s[e] == NUL
    requires forall k :: p <= k < e ==> s[k] != NUL
    ensures Terminated(s, p) && CStr(s, p) == s[p..e]
    decreases e - p
  {
    if p < e {
      CStrUpTo(s, p + 1, e);
    }
  }

  /** A slice is the concatenation of its three consecutive sub-slices. */
  lemma SliceInThree(s: seq<char>, i: nat, j: nat, k: nat, l: nat)
    requires i <= j <= k <= l <= |s|
    ensures s[i..l] == s[i..j] + (s[j..k] + s[k..l])
  {
    assert s[i..l] == s[i..j] + s[j..l];
    assert s[j..l] == s[j..k] + s[k..l];
  }

  /** Overwriting one position leaves every slice that avoids it unchanged. */
  lemma SliceAvoidsUpdate(s: seq<char>, e: nat, c: char, i: nat, j: nat)
    requires e < |s| && i <= j <= |s| && (j <= e || e < i)
    ensures s[e := c][i..j] == s[i..j]
  {
    var u := s[e := c];
    assert forall k :: i <= k < j ==> u[k] == s[k];
  }
}
