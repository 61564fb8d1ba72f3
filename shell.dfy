/**
 * The read-split-launch loop of `main`: read a line; stop when it is
 * "exit"; otherwise split it into a command and params, hand those to
 * fork/execvp, and read the next line.
 *
 * fork, execvp and wait are not modelled: each pass of the loop instead
 * records the Launch it would hand to execvp. The source never leaves the
 * loop at end of input (an empty line is not "exit"), so the model runs at
 * most `rounds` passes.
 */
module Shell {
  import opened Wrappers
  import opened CString
  import opened LineReader
  import opened FieldSplit
  import opened TokenLoop

  /** The line that ends the loop. */
  const EXIT: seq<char> := "exit"

  /** What one pass hands to execvp: the command string and the last token copied into params. */
  datatype Launch = Launch(command: Option<seq<char>>, params: Option<seq<char>>)

  /** The passes made and whether the loop left through an "exit" line. */
  datatype Outcome = Outcome(launches: seq<Launch>, exited: bool)

  /**
   * The string strcmp and strtok see for a line read from `input`: the line
   * up to its first '\0', as a '\0' typed into the line ends the C string.
   */
  function Text(input: seq<CharOrEof>): (t: seq<char>)
    ensures |t| <= |Line(input)| && t == Line(input)[..|t|] && NUL !in t
    ensures |t| < |Line(input)| ==> Line(input)[|t|] == NUL
  {
    var w := Line(input);
    assert (w + [NUL])[|w|] == NUL;
    CStr(w + [NUL], 0)
  }

  /** The launch for the line `text`, by the reference split of the line into tokens. */
  function LaunchOf(text: seq<char>): (l: Launch)
    ensures l.command.None? <==> l.params.None?
    ensures l.command.None? <==> forall k :: 0 <= k < |text| ==> text[k] == ' '
    ensures l.command.Some? ==> Fields(text, FIRST_SEPARATORS) != [] && l.command.value == Fields(text, FIRST_SEPARATORS)[0]
  {
    var tokens := LineTokens(text);
    BlankLineHasNoTokens(text);
    if tokens == [] then Launch(None, None) else Launch(Some(tokens[0]), Last(tokens))
  }

  /** The whole run of `main` on the standard input `input`, for at most `rounds` passes. */
  function Session(input: seq<CharOrEof>, rounds: nat): (o: Outcome)
    ensures |o.launches| <= rounds
    ensures !o.exited ==> |o.launches| == rounds
    ensures o.launches == [] ==> o.exited == (Text(input) == EXIT)
    decreases rounds
  {
    if Text(input) == EXIT then Outcome([], true)
    else if rounds == 0 then Outcome([], false)
    else
      var o := Session(After(input), rounds - 1);
      Outcome([LaunchOf(Text(input))] + o.launches, o.exited)
  }

  /** The buffer readUserInput fills holds the C string Text(input). */
  lemma BufferText(input: seq<CharOrEof>, s: seq<char>, i: nat)
    requires i < |s| && s[..i] == Line(input) && s[i] == NUL
    ensures Terminated(s, 0) && CStr(s, 0) == Text(input)
  {
    var w := Line(input);
    assert (w + [NUL])[|w|] == NUL;
    assert forall k :: 0 <= k <= |Text(input)| ==> s[k] == (w + [NUL])[k];
    CStrAgree(w + [NUL], s, 0);
  }

  /** One pass of the loop body on the buffer `buf` holding Text(input): the launch it makes. */
  method Pass(buf: array<char>, ghost input: seq<CharOrEof>) returns (launch: Launch)
    requires Terminated(buf[..], 0) && CStr(buf[..], 0) == Text(input)
    modifies buf
    ensures launch == LaunchOf(Text(input))
    ensures buf[..] == SplitLine(old(buf[..])).s
  {
    ghost var s := buf[..];
    var command, params := SplitCommand(buf);
    CommandIsFirstToken(s);
    SplitLineTokens(s, |CStr(s, 0)|);
    assert s[..|CStr(s, 0)|] == Text(input);
    if command == None {
      launch := Launch(None, params);
    } else {
      launch := Launch(Some(CStr(buf[..], command.value)), params);
    }
  }

  /**
   * main from the first readUserInput on, with every malloc succeeding,
   * stopping after `rounds` passes if no "exit" line comes first.
   */
  method Run(input: seq<CharOrEof>, rounds: nat) returns (launches: seq<Launch>, exited: bool)
    ensures Outcome(launches, exited) == Session(input, rounds)
  {
    ghost var current := input;
    var buf, rest := ReadLine(input);
    launches := [];
    var n := 0;
    assert [] + Session(input, rounds).launches == Session(input, rounds).launches;
    while CStr(buf[..], 0) != EXIT && n < rounds
      invariant fresh(buf) && n <= rounds && rest == After(current)
      invariant Terminated(buf[..], 0) && CStr(buf[..], 0) == Text(current)
      invariant Remaining(input, rounds, launches, current, rounds - n)
      decreases rounds - n
    {
      var launch := Pass(buf, current);
      RemainingStep(input, rounds, launches, current, rounds - n);
      launches := launches + [launch];
      current := rest;
      buf, rest := ReadLine(rest);
      n := n + 1;
    }
    exited := CStr(buf[..], 0) == EXIT;
  }

  /** readUserInput with its malloc succeeding: the buffer holding Text(input), and the input left. */
  method ReadLine(input: seq<CharOrEof>) returns (buf: array<char>, rest: seq<CharOrEof>)
    ensures fresh(buf) && Terminated(buf[..], 0) && CStr(buf[..], 0) == Text(input)
    ensures rest == After(input)
  {
    var b, i, calls := ReadUserInput(input, true);
    buf := b;
    rest := if calls <= |input| then input[calls..] else [];
    BufferText(input, buf[..], i);
  }

  /** The session from `input` is the launches made so far, then the session from `current` for `left` more passes. */
  ghost predicate Remaining(input: seq<CharOrEof>, rounds: nat, launches: seq<Launch>, current: seq<CharOrEof>, left: nat) {
    var o := Session(current, left);
    Session(input, rounds) == Outcome(launches + o.launches, o.exited)
  }

  /** A pass on a line other than "exit" moves one launch from the rest of the session to those made. */
  lemma RemainingStep(input: seq<CharOrEof>, rounds: nat, launches: seq<Launch>, current: seq<CharOrEof>, left: nat)
    requires Remaining(input, rounds, launches, current, left)
    requires Text(current) != EXIT && left > 0
    ensures Remaining(input, rounds, launches + [LaunchOf(Text(current))], After(current), left - 1)
  {
    AppendAssociates(launches, [LaunchOf(Text(current))], Session(After(current), left - 1).launches);
  }

  /** At end of input every pass reads an empty line: the loop launches nothing, forever. */
  lemma {:induction false} EndOfInputSpins(rounds: nat)
    ensures Session([], rounds) == Outcome(seq(rounds, _ => Launch(None, None)), false)
  {
    assert Line([]) == [];
    assert Text([]) == [];
    BlankLineHasNoTokens([]);
    if rounds > 0 {
      EndOfInputSpins(rounds - 1);
      assert seq(rounds, _ => Launch(None, None)) == [Launch(None, None)] + seq(rounds - 1, _ => Launch(None, None));
    }
  }

  /** The line "exit" ends the loop before anything is launched. */
  lemma TypedExit(rest: seq<CharOrEof>, rounds: nat)
    ensures Session(Keystrokes(EXIT) + [NEWLINE] + rest, rounds) == Outcome([], true)
  {
    LineOfKeystrokes(EXIT, rest);
  }

  /** A line other than "exit" is launched, then the next line is read. */
  lemma OneCommand(w: seq<char>, rest: seq<CharOrEof>, rounds: nat)
    requires forall k :: 0 <= k < |w| ==> Typeable(w[k]) && w[k] != NUL
    requires w != EXIT
    ensures var o := Session(rest, rounds);
            Session(Keystrokes(w) + [NEWLINE] + rest, rounds + 1) == Outcome([LaunchOf(w)] + o.launches, o.exited)
  {
    var input := Keystrokes(w) + [NEWLINE] + rest;
    LineOfKeystrokes(w, rest);
    assert Text(input) == w;
  }

  /** A command line followed by "exit": one launch, then the loop is left. */
  lemma CommandThenExit(w: seq<char>, rest: seq<CharOrEof>)
    requires forall k :: 0 <= k < |w| ==> Typeable(w[k]) && w[k] != NUL
    requires w != EXIT
    ensures Session(Keystrokes(w) + [NEWLINE] + Keystrokes(EXIT) + [NEWLINE] + rest, 1) ==
            Outcome([LaunchOf(w)], true)
  {
    var next := Keystrokes(EXIT) + [NEWLINE] + rest;
    OneCommand(w, next, 0);
    var typed := Keystrokes(w) + [NEWLINE];
    AppendAssociates(typed, Keystrokes(EXIT) + [NEWLINE], rest);
    AppendAssociates(typed, Keystrokes(EXIT), [NEWLINE]);
    TypedExit(rest, 0);
  }

  /** Typing "ls -la", Enter, "exit", Enter launches ls with params "la" and then leaves. */
  lemma LsThenExit(rest: seq<CharOrEof>)
    ensures Session(Keystrokes("ls -la") + [NEWLINE] + Keystrokes(EXIT) + [NEWLINE] + rest, 1) ==
            Outcome([Launch(Some("ls"), Some("la"))], true)
  {
    CommandThenExit("ls -la", rest);
    LsDashLa();
  }

}
