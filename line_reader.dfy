/**
 * readUserInput: reads one line from standard input into a heap buffer
 * that starts with room for 10 characters and grows by 10 whenever it is
 * full, then terminates it with '\0'.
 *
 * getchar is replaced by a stream of the values it returns: EOF or an
 * unsigned char converted to int. Past the end of the stream it keeps
 * returning EOF.
 */
module LineReader {
  import opened CString

  const EOF: int := -1
  const NEWLINE: int := 10
  /** len_max: the initial capacity and the growth step. */
  const LEN_MAX: nat := 10

  /** A value getchar can return. */
  type CharOrEof = c: int | c == EOF || 0 <= c < 256 witness EOF

  /** The value of the `k`-th call of getchar on the stream `input`. */
  function Getc(input: seq<CharOrEof>, k: nat): CharOrEof {
    if k < |input| then input[k] else EOF
  }

  /** The characters read before the first newline or EOF. */
  function Line(input: seq<CharOrEof>): (line: seq<char>)
    ensures |line| <= |input|
    ensures forall k :: 0 <= k < |line| ==>
              input[k] != NEWLINE && input[k] != EOF && line[k] as int == input[k]
    ensures Getc(input, |line|) == NEWLINE || Getc(input, |line|) == EOF
  {
    if input == [] || input[0] == NEWLINE || input[0] == EOF then []
    else [input[0] as char] + Line(input[1..])
  }

  /** The stream left after reading one line: `|Line(input)| + 1` calls of getchar. */
  function After(input: seq<CharOrEof>): seq<CharOrEof> {
    var calls := |Line(input)| + 1;
    if calls <= |input| then input[calls..] else []
  }

  /** A character a user can type into the line (anything but a newline). */
  predicate Typeable(c: char) {
    c as int < 256 && c as int != NEWLINE
  }

  /** The getchar values produced by typing `w`. */
  function Keystrokes(w: seq<char>): (r: seq<CharOrEof>)
    requires forall k :: 0 <= k < |w| ==> Typeable(w[k])
    ensures |r| == |w| && forall k :: 0 <= k < |w| ==> r[k] == w[k] as int
  {
    if w == [] then [] else assert Typeable(w[0]); var c: CharOrEof := w[0] as int; [c] + Keystrokes(w[1..])
  }

  /** Typing a line and Enter makes readUserInput return exactly that line and consume the Enter. */
  lemma LineOfKeystrokes(w: seq<char>, rest: seq<CharOrEof>)
    requires forall k :: 0 <= k < |w| ==> Typeable(w[k])
    ensures Line(Keystrokes(w) + [NEWLINE] + rest) == w
    ensures After(Keystrokes(w) + [NEWLINE] + rest) == rest
  {
    KeystrokesLine(w, rest);
    var input := Keystrokes(w) + [NEWLINE] + rest;
    assert input[|w| + 1..] == rest;
  }

  /** The line part of LineOfKeystrokes, by induction on the typed line. */
  lemma {:induction false} KeystrokesLine(w: seq<char>, rest: seq<CharOrEof>)
    requires forall k :: 0 <= k < |w| ==> Typeable(w[k])
    ensures Line(Keystrokes(w) + [NEWLINE] + rest) == w
  {
    var input := Keystrokes(w) + [NEWLINE] + rest;
    if w != [] {
      KeystrokesLine(w[1..], rest);
      assert input[1..] == Keystrokes(w[1..]) + [NEWLINE] + rest;
      assert input[0] == w[0] as int;
    } else {
      assert input == [NEWLINE] + rest;
    }
  }

  /**
   * The capacity of the buffer once `i` characters are stored: the least
   * multiple of LEN_MAX above `i`.
   */
  function Capacity(i: nat): (size: nat)
    ensures size % LEN_MAX == 0 && i < size <= i + LEN_MAX
  {
    LEN_MAX * (i / LEN_MAX + 1)
  }

  /** Storing one more character keeps the capacity unless the buffer became full, then adds LEN_MAX. */
  lemma CapacityStep(i: nat)
    ensures Capacity(i + 1) == if i + 1 == Capacity(i) then Capacity(i) + LEN_MAX else Capacity(i)
  {
    if i + 1 == Capacity(i) {
      assert (i + 1) / LEN_MAX == i / LEN_MAX + 1;
    } else {
      assert (i + 1) / LEN_MAX == i / LEN_MAX;
    }
  }

  /**
   * realloc: a fresh block of `size` characters whose first
   * min(old size, size) characters are those of `a`; the rest is
   * indeterminate (section 7.22.3.5 of ISO C11).
   */
  method Realloc(a: array<char>, size: nat) returns (b: array<char>)
    ensures fresh(b) && b.Length == size
    ensures var n := if a.Length < size then a.Length else size; b[..n] == a[..n]
  {
    var n := if a.Length < size then a.Length else size;
    b := new char[size];
    var k := 0;
    while k < n
      invariant 0 <= k <= n
      invariant b[..k] == a[..k]
    {
      b[k] := a[k];
      k := k + 1;
    }
  }

  /**
   * One step of the read loop: store `c` at `i`, and when the buffer has
   * just become full, raise current_size by LEN_MAX and realloc to it.
   */
  method Store(b: array<char>, i: nat, currentSize: nat, c: char) returns (grown: array<char>, newSize: nat)
    requires currentSize == b.Length == Capacity(i)
    modifies b
    ensures grown == b || fresh(grown)
    ensures newSize == grown.Length == Capacity(i + 1) && grown[..i + 1] == old(b[..i]) + [c]
  {
    b[i] := c;
    CapacityStep(i);
    grown, newSize := b, currentSize;
    if i + 1 == currentSize {
      newSize := i + 1 + LEN_MAX;
      grown := Realloc(b, newSize);
    }
    assert grown[..i + 1] == b[..i + 1];
  }

  /**
   * readUserInput, returning the buffer it fills. `mallocOk` is the outcome
   * of the initial malloc. Also returns the line length `i` and the number of
   * getchar calls made.
   */
  method ReadUserInput(input: seq<CharOrEof>, mallocOk: bool) returns (buf: array?<char>, i: nat, calls: nat)
    ensures !mallocOk ==> buf == null && i == 0 && calls == 0
    ensures mallocOk ==> buf != null && fresh(buf)
    ensures mallocOk ==> i == |Line(input)| && calls == i + 1
    ensures mallocOk ==> buf.Length == Capacity(i) && buf[..i] == Line(input) && buf[i] == NUL
  {
    i, calls := 0, 0;
    if !mallocOk {
      buf := null;
      return;
    }
    var b := new char[LEN_MAX];
    var currentSize := LEN_MAX;
    var c := Getc(input, calls);
    calls := calls + 1;
    while c != NEWLINE && c != EOF
      invariant currentSize == b.Length == Capacity(i)
      invariant i <= |Line(input)| && calls == i + 1
      invariant c == Getc(input, i)
      invariant b[..i] == Line(input)[..i]
      invariant fresh(b)
      decreases |input| - i
    {
      assert i < |Line(input)|;
      b, currentSize := Store(b, i, currentSize, c as char);
      i := i + 1;
      c := Getc(input, calls);
      calls := calls + 1;
    }
    b[i] := NUL;
    buf := b;
  }
}
