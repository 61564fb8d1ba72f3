/**
 * The token loop of `main`: the first strtok call splits the line at
 * spaces, every later one at '-'. The first token is the command; every
 * token is copied over `params` in turn, so `params` ends up holding the
 * last one.
 */
module TokenLoop {
  import opened Wrappers
  import opened CString
  import opened Strtok
  import opened FieldSplit

  /** The separator set of the first strtok call. */
  const FIRST_SEPARATORS: seq<char> := " "
  /** The separator set of every later strtok call. */
  const NEXT_SEPARATORS: seq<char> := "-"

  /** The buffer after a run of strtok calls and the tokens they returned, as strings. */
  datatype Drained = Drained(s: seq<char>, tokens: seq<seq<char>>)

  /** strtok(NULL, sep) called from saved position `p` until it returns NULL. */
  function Drain(s: seq<char>, p: nat, sep: seq<char>): (r: Drained)
    requires Terminated(s, p) && NUL !in sep
    ensures |r.s| == |s|
    ensures forall k :: 0 <= k < |s| ==> r.s[k] == s[k] || (p <= k && r.s[k] == NUL && s[k] in sep)
    decreases |s| - p
  {
    var r := StrtokStep(s, p, sep);
    StrtokWrites(s, p, sep);
    match r.token
    case None => Drained(r.s, [])
    case Some(b) =>
      var d := Drain(r.s, r.saved, sep);
      Drained(d.s, [CStr(r.s, b)] + d.tokens)
  }

  /** The buffer after the token loop, the command's position (None for NULL) and every token. */
  datatype Split = Split(s: seq<char>, command: Option<nat>, tokens: seq<seq<char>>)

  lemma AppendAssociates<T>(a: seq<T>, b: seq<T>, c: seq<T>)
    ensures a + (b + c) == a + b + c
  {
  }

  /** One strtok(NULL, sep) call, then the rest of the drain from where it left off. */
  lemma DrainStep(s: seq<char>, p: nat, sep: seq<char>)
    requires Terminated(s, p) && NUL !in sep
    ensures var r := StrtokStep(s, p, sep);
            p < |s| &&
            (r.token.None? ==> Drain(s, p, sep) == Drained(r.s, [])) &&
            (r.token.Some? ==> p < r.saved &&
                                Drain(s, p, sep).s == Drain(r.s, r.saved, sep).s &&
                                Drain(s, p, sep).tokens == [CStr(r.s, r.token.value)] + Drain(r.s, r.saved, sep).tokens)
  {
  }

  /** The whole token loop run on the line buffer `s`. */
  function SplitLine(s: seq<char>): (r: Split)
    requires Terminated(s, 0)
    ensures |r.s| == |s|
    ensures r.command.Some? <==> r.tokens != []
  {
    var r := StrtokStep(s, 0, FIRST_SEPARATORS);
    match r.token
    case None => Split(r.s, None, [])
    case Some(b) =>
      var d := Drain(r.s, r.saved, NEXT_SEPARATORS);
      Split(d.s, Some(b), [CStr(r.s, b)] + d.tokens)
  }

  /**
   * The loop only overwrites a space (the one ending the command) or a '-'
   * (one ending a later token) with '\0'.
   */
  lemma SplitLineWrites(s: seq<char>)
    requires Terminated(s, 0)
    ensures var r := SplitLine(s);
            forall k :: 0 <= k < |s| ==> r.s[k] == s[k] || (r.s[k] == NUL && (s[k] == ' ' || s[k] == '-'))
  {
    var r := StrtokStep(s, 0, FIRST_SEPARATORS);
    StrtokWrites(s, 0, FIRST_SEPARATORS);
    if r.token.Some? {
      var d := Drain(r.s, r.saved, NEXT_SEPARATORS);
      assert SplitLine(s).s == d.s;
      forall k | 0 <= k < |s|
        ensures d.s[k] == s[k] || (d.s[k] == NUL && (s[k] == ' ' || s[k] == '-'))
      {
        assert d.s[k] == r.s[k] || (d.s[k] == NUL && r.s[k] == '-');
      }
    }
  }

  /** Writes at or after `saved`, none over a '\0', leave the C string at `b` alone. */
  lemma TokenSurvives(t: seq<char>, b: nat, saved: nat, u: seq<char>, sep: seq<char>)
    requires Terminated(t, b) && b + |CStr(t, b)| <= saved && NUL !in sep
    requires |u| == |t| && forall k :: 0 <= k < |t| ==> u[k] == t[k] || (saved <= k && t[k] in sep)
    ensures Terminated(u, b) && CStr(u, b) == CStr(t, b)
  {
    CStrAgree(t, u, b);
  }

  /** The command pointer still points at the first token once the loop is over. */
  lemma CommandIsFirstToken(s: seq<char>)
    requires Terminated(s, 0)
    ensures var r := SplitLine(s);
            r.command.Some? ==> Terminated(r.s, r.command.value) && CStr(r.s, r.command.value) == r.tokens[0]
  {
    var r := StrtokStep(s, 0, FIRST_SEPARATORS);
    if r.token.Some? {
      var b := r.token.value;
      var d := Drain(r.s, r.saved, NEXT_SEPARATORS);
      StrtokToken(s, 0, FIRST_SEPARATORS);
      TokenSurvives(r.s, b, r.saved, d.s, NEXT_SEPARATORS);
    }
  }

  /** The tokens the loop should produce for the line `w`, by the reference definition. */
  function LineTokens(w: seq<char>): seq<seq<char>> {
    var first := Fields(w, FIRST_SEPARATORS);
    if first == [] then []
    else [first[0]] + Fields(AfterFirstField(w, FIRST_SEPARATORS), NEXT_SEPARATORS)
  }

  /**
   * One strtok call on the C string `s[p..n]`: NULL exactly when the string
   * has no fields; otherwise the first field, with the scan resuming at the
   * text after it.
   */
  lemma StrtokStepFields(s: seq<char>, p: nat, n: nat, sep: seq<char>)
    requires p <= n < |s| && s[n] == NUL && forall k :: p <= k < n ==> s[k] != NUL
    requires NUL !in sep
    ensures Terminated(s, p)
    ensures var r := StrtokStep(s, p, sep);
            (r.token.None? <==> Fields(s[p..n], sep) == []) &&
            (r.token.Some? ==>
               CStr(r.s, r.token.value) == Fields(s[p..n], sep)[0] &&
               r.saved <= n && r.s[n] == NUL && (forall k :: r.saved <= k < n ==> r.s[k] != NUL) &&
               r.s[r.saved..n] == AfterFirstField(s[p..n], sep))
  {
    assert Terminated(s, p) by { assert s[n] == NUL; }
    StrtokNull(s, p, sep);
    var r := StrtokStep(s, p, sep);
    if r.token.None? {
      assert r.saved == n;
      NoFieldsIffAllSeparators(s[p..n], sep);
    } else {
      StrtokTokenFields(s, p, n, sep);
    }
  }

  /** Where a token found in the C string `s[p..n]` lies, and where the scan resumes. */
  lemma TokenWithin(s: seq<char>, p: nat, n: nat, sep: seq<char>)
    requires p <= n < |s| && s[n] == NUL && forall k :: p <= k < n ==> s[k] != NUL
    requires NUL !in sep
    requires Terminated(s, p) && StrtokStep(s, p, sep).token.Some?
    ensures var r := StrtokStep(s, p, sep); var b := r.token.value; var e := TokenEnd(s, b, sep);
            p <= b < e <= n && r.s == s[e := NUL] && CStr(r.s, b) == s[b..e] &&
            (forall k :: p <= k < b ==> s[k] in sep) && (forall k :: b <= k < e ==> s[k] !in sep) &&
            (e < n ==> s[e] in sep && r.saved == e + 1) && (e == n ==> r.saved == n)
  {
    StrtokToken(s, p, sep);
    var r := StrtokStep(s, p, sep);
    var b := r.token.value;
    var e := TokenEnd(s, b, sep);
    assert s[n] == NUL && s[n] !in sep;
    assert b <= n;
    assert e <= n;
  }

  /** The Some case of StrtokStepFields. */
  lemma StrtokTokenFields(s: seq<char>, p: nat, n: nat, sep: seq<char>)
    requires p <= n < |s| && s[n] == NUL && forall k :: p <= k < n ==> s[k] != NUL
    requires NUL !in sep
    requires Terminated(s, p) && StrtokStep(s, p, sep).token.Some?
    ensures var r := StrtokStep(s, p, sep);
            Fields(s[p..n], sep) != [] && CStr(r.s, r.token.value) == Fields(s[p..n], sep)[0]
    ensures var r := StrtokStep(s, p, sep);
            r.saved <= n && r.s[n] == NUL && (forall k :: r.saved <= k < n ==> r.s[k] != NUL)
    ensures var r := StrtokStep(s, p, sep);
            r.s[r.saved..n] == AfterFirstField(s[p..n], sep)
  {
    TokenWithin(s, p, n, sep);
    var r := StrtokStep(s, p, sep);
    var b := r.token.value;
    TokenFieldsAt(s, p, n, sep, b, TokenEnd(s, b, sep), r.s, r.saved);
  }

  /**
   * StrtokTokenFields with the call's outcome spelled out: separators fill
   * `s[p..b]`, the token `s[b..e]` has none, and a '\0' is written at `e`.
   */
  lemma TokenFieldsAt(s: seq<char>, p: nat, n: nat, sep: seq<char>, b: nat, e: nat, t: seq<char>, saved: nat)
    requires p <= b < e <= n < |s| && s[n] == NUL && forall k :: p <= k < n ==> s[k] != NUL
    requires (forall k :: p <= k < b ==> s[k] in sep) && (forall k :: b <= k < e ==> s[k] !in sep)
    requires t == s[e := NUL]
    requires (e < n ==> s[e] in sep && saved == e + 1) && (e == n ==> saved == n)
    ensures Fields(s[p..n], sep) != [] && s[b..e] == Fields(s[p..n], sep)[0]
    ensures saved <= n && t[n] == NUL && (forall k :: saved <= k < n ==> t[k] != NUL)
    ensures t[saved..n] == AfterFirstField(s[p..n], sep)
  {
    ResumeAfterToken(s, e, n, t, saved);
    FieldsOfTokenSlices(s, p, b, e, n, sep);
  }

  /** After a token ending at `e`, the scan resumes inside the same C string, at the text after `e`. */
  lemma ResumeAfterToken(s: seq<char>, e: nat, n: nat, t: seq<char>, saved: nat)
    requires e <= n < |s| && s[n] == NUL && forall k :: e < k < n ==> s[k] != NUL
    requires t == s[e := NUL]
    requires (e < n ==> saved == e + 1) && (e == n ==> saved == n)
    ensures saved <= n && t[n] == NUL && forall k :: saved <= k < n ==> t[k] != NUL
    ensures t[saved..n] == if e == n then [] else s[e + 1..n]
  {
    if e < n {
      SliceAvoidsUpdate(s, e, NUL, e + 1, n);
    }
  }

  /** The fields of `s[p..n]` when separators fill `s[p..b]` and a run of non-separators `s[b..e]` follows. */
  lemma FieldsOfTokenSlices(s: seq<char>, p: nat, b: nat, e: nat, n: nat, sep: seq<char>)
    requires p <= b < e <= n < |s|
    requires forall k :: p <= k < b ==> s[k] in sep
    requires forall k :: b <= k < e ==> s[k] !in sep
    requires e < n ==> s[e] in sep
    ensures Fields(s[p..n], sep) == [s[b..e]] + Fields(if e == n then [] else s[e + 1..n], sep)
    ensures AfterFirstField(s[p..n], sep) == if e == n then [] else s[e + 1..n]
  {
    var u, t, v := s[p..b], s[b..e], s[e..n];
    SliceInThree(s, p, b, e, n);
    assert forall k :: 0 <= k < |u| ==> u[k] in sep by {
      forall k | 0 <= k < |u| ensures u[k] in sep { assert u[k] == s[p + k]; }
    }
    LeadingSeparators(u, t + v, sep);
    assert forall k :: 0 <= k < |t| ==> t[k] !in sep by {
      forall k | 0 <= k < |t| ensures t[k] !in sep { assert t[k] == s[b + k]; }
    }
    FirstField(t, v, sep);
    if e < n {
      assert v[1..] == s[e + 1..n];
    }
  }

  /** Draining strtok from `p` yields exactly the fields of the C string there. */
  lemma {:induction false} DrainFields(s: seq<char>, p: nat, n: nat, sep: seq<char>)
    requires p <= n < |s| && s[n] == NUL && forall k :: p <= k < n ==> s[k] != NUL
    requires NUL !in sep
    ensures Terminated(s, p) && Drain(s, p, sep).tokens == Fields(s[p..n], sep)
    decreases n - p
  {
    StrtokStepFields(s, p, n, sep);
    var r := StrtokStep(s, p, sep);
    if r.token.Some? {
      DrainFields(r.s, r.saved, n, sep);
      FieldsUnfold(s[p..n], sep);
    }
  }

  /** The token loop yields the reference tokens of the line up to its first '\0'. */
  lemma SplitLineTokens(s: seq<char>, n: nat)
    requires n < |s| && s[n] == NUL && forall k :: 0 <= k < n ==> s[k] != NUL
    ensures Terminated(s, 0) && SplitLine(s).tokens == LineTokens(s[..n])
  {
    StrtokStepFields(s, 0, n, FIRST_SEPARATORS);
    var r := StrtokStep(s, 0, FIRST_SEPARATORS);
    assert s[0..n] == s[..n];
    if r.token.Some? {
      DrainFields(r.s, r.saved, n, NEXT_SEPARATORS);
    }
  }

  /** A line has no command exactly when it is empty or all spaces. */
  lemma BlankLineHasNoTokens(w: seq<char>)
    ensures LineTokens(w) == [] <==> forall k :: 0 <= k < |w| ==> w[k] == ' '
  {
    NoFieldsIffAllSeparators(w, FIRST_SEPARATORS);
    assert forall c :: c in FIRST_SEPARATORS <==> c == ' ';
  }

  /**
   * A command, a space, a dash and one option: the command and the option are
   * the two tokens, since after the command the line is split at '-' only.
   */
  lemma CommandDashOption(c: seq<char>, o: seq<char>)
    requires c != [] && forall k :: 0 <= k < |c| ==> c[k] != ' '
    requires o != [] && forall k :: 0 <= k < |o| ==> o[k] != '-'
    ensures LineTokens(c + " -" + o) == [c, o]
  {
    var v := " -" + o;
    assert c + " -" + o == c + v;
    FirstField(c, v, FIRST_SEPARATORS);
    assert v[1..] == "-" + o;
    LeadingSeparators("-", o, NEXT_SEPARATORS);
    assert o == o + [];
    FirstField(o, [], NEXT_SEPARATORS);
    assert Fields([], NEXT_SEPARATORS) == [];
  }

  /** "ls -la" gives the command "ls" and then "la". */
  lemma LsDashLa()
    ensures LineTokens("ls -la") == ["ls", "la"]
  {
    assert "ls -la" == "ls" + " -" + "la";
    CommandDashOption("ls", "la");
  }

  /**
   * The state of the token loop of `main` against the whole run `final`:
   * `copied` are the tokens already copied into params, `token` the one just
   * returned, and draining from `saved` yields the rest.
   */
  ghost predicate Pending(final: Split, copied: seq<seq<char>>, s: seq<char>, saved: nat, token: Option<nat>)
  {
    match token
    case Some(t) =>
      Terminated(s, t) && Terminated(s, saved) &&
      final.tokens == copied + [CStr(s, t)] + Drain(s, saved, NEXT_SEPARATORS).tokens &&
      final.s == Drain(s, saved, NEXT_SEPARATORS).s
    case None => final.tokens == copied && final.s == s
  }

  /** The first strtok call starts the loop. */
  lemma PendingStart(s: seq<char>)
    requires Terminated(s, 0)
    ensures var r := StrtokStep(s, 0, FIRST_SEPARATORS);
            Pending(SplitLine(s), [], r.s, r.saved, r.token)
  {
    var r := StrtokStep(s, 0, FIRST_SEPARATORS);
    if r.token.Some? {
      AppendAssociates([], [CStr(r.s, r.token.value)], Drain(r.s, r.saved, NEXT_SEPARATORS).tokens);
    }
  }

  /** Copying the current token and calling strtok(NULL, "-") keeps the loop on track. */
  lemma PendingStep(final: Split, copied: seq<seq<char>>, s: seq<char>, saved: nat, t: nat)
    requires Pending(final, copied, s, saved, Some(t))
    ensures var r := StrtokStep(s, saved, NEXT_SEPARATORS);
            Pending(final, copied + [CStr(s, t)], r.s, r.saved, r.token)
  {
    var r := StrtokStep(s, saved, NEXT_SEPARATORS);
    DrainStep(s, saved, NEXT_SEPARATORS);
    if r.token.Some? {
      AppendAssociates(copied + [CStr(s, t)], [CStr(r.s, r.token.value)], Drain(r.s, r.saved, NEXT_SEPARATORS).tokens);
    }
  }

  /**
   * The token loop of `main` on the line buffer: `command` is the first
   * token's position (None for NULL) and `params` the copy of the last token
   * (None when the loop does not run).
   */
  method SplitCommand(buf: array<char>) returns (command: Option<nat>, params: Option<seq<char>>)
    requires Terminated(buf[..], 0)
    modifies buf
    ensures var r := SplitLine(old(buf[..]));
            buf[..] == r.s && command == r.command &&
            params == Last(r.tokens)
  {
    ghost var final := SplitLine(buf[..]);
    PendingStart(buf[..]);
    var st := new StrtokState();
    command := st.Strtok(buf, FIRST_SEPARATORS);
    params := CopyTokens(st, buf, command, final);
  }

  /** The last of the tokens, None when there is none. */
  function Last(xs: seq<seq<char>>): (r: Option<seq<char>>)
    ensures r.None? <==> xs == []
  {
    if xs == [] then None else Some(xs[|xs| - 1])
  }

  lemma LastAppend(xs: seq<seq<char>>, x: seq<char>)
    ensures Last(xs + [x]) == Some(x)
  {
  }

  /** The while loop of the token loop, from the first token `token` on. */
  method CopyTokens(st: StrtokState, buf: array<char>, token: Option<nat>, ghost final: Split)
    returns (params: Option<seq<char>>)
    requires st.Valid() && st.str == buf
    requires Pending(final, [], buf[..], st.saved, token)
    modifies st, buf
    ensures buf[..] == final.s
    ensures params == Last(final.tokens)
  {
    var current := token;
    params := None;
    ghost var copied: seq<seq<char>> := [];
    while current.Some?
      invariant st.Valid() && st.str == buf
      invariant Pending(final, copied, buf[..], st.saved, current)
      invariant params == Last(copied)
      decreases buf.Length - st.saved + (if current.Some? then 1 else 0)
    {
      params := Some(CStr(buf[..], current.value));  // strcpy(params, token)
      PendingStep(final, copied, buf[..], st.saved, current.value);
      LastAppend(copied, params.value);
      copied := copied + [params.value];
      current := st.Strtok(null, NEXT_SEPARATORS);
    }
  }
}
