/**
 * strtok, as section 7.24.5.8 of ISO C11 defines it: a scanner with a saved
 * position. Each call skips the separators of that call's separator set,
 * returns the maximal run of non-separators that follows, overwrites the
 * separator ending it with '\0' and saves the position after it.
 */
module Strtok {
  import opened Wrappers
  import opened CString

  /** strspn: the first position at or after `p` holding no separator. */
  function SkipSeparators(s: seq<char>, p: nat, sep: seq<char>): (q: nat)
    requires Terminated(s, p) && NUL !in sep
    ensures p <= q < |s| && s[q] !in sep && Terminated(s, q)
    ensures forall k :: p <= k < q ==> s[k] in sep
    decreases |s| - p
  {
    if s[p] in sep then SkipSeparators(s, p + 1, sep) else p
  }

  /** strcspn: the first position at or after `p` holding a separator or the terminator. */
  function TokenEnd(s: seq<char>, p: nat, sep: seq<char>): (q: nat)
    requires Terminated(s, p)
    ensures p <= q < |s| && (s[q] == NUL || s[q] in sep)
    ensures forall k :: p <= k < q ==> s[k] != NUL && s[k] !in sep
    ensures s[q] != NUL ==> Terminated(s, q + 1)
    decreases |s| - p
  {
    if s[p] == NUL || s[p] in sep then p else TokenEnd(s, p + 1, sep)
  }

  /** strspn, as strtok uses it: scans `s` from `p` past the separators. */
  method Strspn(s: array<char>, p: nat, sep: seq<char>) returns (q: nat)
    requires Terminated(s[..], p) && NUL !in sep
    ensures q == SkipSeparators(s[..], p, sep)
  {
    q := p;
    while s[q] in sep
      invariant p <= q && Terminated(s[..], q)
      invariant SkipSeparators(s[..], q, sep) == SkipSeparators(s[..], p, sep)
      decreases s.Length - q
    {
      q := q + 1;
    }
  }

  /** strcspn, as strtok uses it: scans `s` from `p` to the next separator or the terminator. */
  method Strcspn(s: array<char>, p: nat, sep: seq<char>) returns (q: nat)
    requires Terminated(s[..], p)
    ensures q == TokenEnd(s[..], p, sep)
  {
    q := p;
    while s[q] != NUL && s[q] !in sep
      invariant p <= q && Terminated(s[..], q)
      invariant TokenEnd(s[..], q, sep) == TokenEnd(s[..], p, sep)
      decreases s.Length - q
    {
      q := q + 1;
    }
  }

  /** One call: the buffer after it, the new saved position and the token it returns (None for NULL). */
  datatype StrtokResult = StrtokResult(s: seq<char>, saved: nat, token: Option<nat>)

  /** One call of strtok that starts scanning `s` at `p` with separator set `sep`. */
  function StrtokStep(s: seq<char>, p: nat, sep: seq<char>): (r: StrtokResult)
    requires Terminated(s, p) && NUL !in sep
    ensures |r.s| == |s| && p <= r.saved && Terminated(r.s, r.saved)
    ensures r.token.Some? ==> p <= r.token.value < r.saved && Terminated(r.s, r.token.value)
  {
    var b := SkipSeparators(s, p, sep);
    if s[b] == NUL then
      StrtokResult(s, b, None)
    else
      var e := TokenEnd(s, b, sep);
      if s[e] == NUL then
        StrtokResult(s, e, Some(b))
      else
        assert Terminated(s[e := NUL], e + 1) && s[e := NUL][e] == NUL by {
          var k :| e + 1 <= k < |s| && s[k] == NUL;
          assert s[e := NUL][k] == NUL;
        }
        StrtokResult(s[e := NUL], e + 1, Some(b))
  }

  /** strtok returns NULL exactly when only separators remain, and then writes nothing. */
  lemma StrtokNull(s: seq<char>, p: nat, sep: seq<char>)
    requires Terminated(s, p) && NUL !in sep
    ensures var r := StrtokStep(s, p, sep);
            r.token.None? <==> forall k :: p <= k < |s| && (forall j :: p <= j < k ==> s[j] != NUL) ==> s[k] == NUL || s[k] in sep
    ensures var r := StrtokStep(s, p, sep);
            r.token.None? ==> r.s == s && s[r.saved] == NUL && forall k :: p <= k < r.saved ==> s[k] in sep
  {
    var r := StrtokStep(s, p, sep);
    var b := SkipSeparators(s, p, sep);
    if s[b] != NUL {
      assert forall j :: p <= j < b ==> s[j] != NUL;
    } else {
      forall k | p <= k < |s| && (forall j :: p <= j < k ==> s[j] != NUL)
        ensures s[k] == NUL || s[k] in sep
      {
        assert k <= b;
      }
    }
  }

  /**
   * A token starts after the leading separators, is a non-empty maximal run
   * of non-separators, only the separator ending it is overwritten with
   * '\0', and the next scan starts after that separator (or at the end of
   * the string when the token ends there).
   */
  lemma StrtokToken(s: seq<char>, p: nat, sep: seq<char>)
    requires Terminated(s, p) && NUL !in sep
    requires StrtokStep(s, p, sep).token.Some?
    ensures var r := StrtokStep(s, p, sep); var b := r.token.value;
            (forall k :: p <= k < b ==> s[k] in sep) && b < TokenEnd(s, b, sep)
    ensures var r := StrtokStep(s, p, sep); var b := r.token.value; var e := TokenEnd(s, b, sep);
            r.s == s[e := NUL] && r.saved == (if s[e] == NUL then e else e + 1)
    ensures var r := StrtokStep(s, p, sep); var b := r.token.value; var e := TokenEnd(s, b, sep);
            CStr(r.s, b) == s[b..e]
  {
    var r := StrtokStep(s, p, sep);
    var b := r.token.value;
    CStrUpTo(r.s, b, TokenEnd(s, b, sep));
  }

  /** A call writes at most one '\0', over a separator it scanned past. */
  lemma StrtokWrites(s: seq<char>, p: nat, sep: seq<char>)
    requires Terminated(s, p) && NUL !in sep
    ensures var r := StrtokStep(s, p, sep);
            forall k :: 0 <= k < |s| ==> r.s[k] == s[k] || (p <= k < r.saved && r.s[k] == NUL && s[k] in sep)
  {
    if StrtokStep(s, p, sep).token.Some? {
      StrtokToken(s, p, sep);
    }
  }

  /**
   * The body of strtok on the string `s` from position `p`: returns the new
   * saved position and the token, writing the '\0' that ends it.
   */
  method Scan(s: array<char>, p: nat, sep: seq<char>) returns (saved: nat, token: Option<nat>)
    requires Terminated(s[..], p) && NUL !in sep
    modifies s
    ensures var r := StrtokStep(old(s[..]), p, sep);
            s[..] == r.s && saved == r.saved && token == r.token
  {
    ghost var r := StrtokStep(s[..], p, sep);
    var b := Strspn(s, p, sep);
    if s[b] == NUL {
      saved := b;
      token := None;
      return;
    }
    var e := Strcspn(s, b, sep);
    if s[e] == NUL {
      saved := e;
    } else {
      s[e] := NUL;
      saved := e + 1;
    }
    token := Some(b);
    assert s[..] == r.s;
  }

  /**
   * strtok's static state: the string of the last call with a non-NULL
   * first argument and the saved position in it.
   */
  class StrtokState {
    var str: array?<char>
    var saved: nat

    ghost predicate Valid()
      reads this, str
    {
      str != null && Terminated(str[..], saved)
    }

    /** The state before any call. */
    constructor ()
      ensures str == null && saved == 0
    {
      str := null;
      saved := 0;
    }

    /**
     * strtok(s1, s2): a non-NULL `s1` starts a new string, NULL continues
     * the saved one. Returns the position of the token in `str`, or None for NULL.
     */
    method Strtok(s1: array?<char>, s2: seq<char>) returns (token: Option<nat>)
      requires s1 != null ==> Terminated(s1[..], 0)
      requires s1 == null ==> Valid()
      requires NUL !in s2
      modifies this, if s1 != null then s1 else str
      ensures Valid() && str == (if s1 != null then s1 else old(str))
      ensures s1 != null ==>
                var r := StrtokStep(old(s1[..]), 0, s2);
                str[..] == r.s && saved == r.saved && token == r.token
      ensures s1 == null ==>
                var r := StrtokStep(old(str[..]), old(saved), s2);
                str[..] == r.s && saved == r.saved && token == r.token
    {
      if s1 != null {
        str := s1;
        saved := 0;
      }
      saved, token := Scan(str, saved, s2);
    }
  }
}
