# Simple-Shell: the line reader and the token loop, in Dafny

Simple-Shell is a small interactive shell written in C. All of its logic is in
`main.c`, and this project models the two parts of that file that are
sequential string and buffer logic:

- **`readUserInput`** reads one line from standard input into a heap buffer.
  The buffer starts with room for `len_max = 10` characters and grows by 10
  through `realloc` whenever the write index reaches its size. The line ends
  at `'\n'` or EOF, and a `'\0'` is written after it (`LineReader`).
- **The loop of `main`** runs until the line read is exactly `"exit"`:
  - The first `strtok` call splits the line at `' '`. Every later call splits
    it at `'-'`.
  - `strtok` writes `'\0'` over each separator that ends a token.
  - `command` keeps the first token.
  - `params` gets a copy of every token in turn, so it ends up holding the
    last one.
  - The pair is handed to `fork`/`execvp` and the next line is read
    (`TokenLoop`, `Shell`).

`strtok` is modelled as section 7.24.5.8 of ISO C11 describes it (`Strtok`).
It is a class whose fields are the hidden static state: the string and the
saved position. Each call skips separators, returns the maximal run of
non-separators, writes `'\0'` over the separator that ends it, and saves the
position after it. `realloc` follows section 7.22.3.5 of ISO C11: a fresh
block that keeps the common prefix.

Inputs and outside effects:
- **`getchar`**: a sequence of the values it returns (`EOF` or a character
  code 0..255). Past the end of the sequence it keeps returning `EOF`.
- **The initial `malloc`**: its success is a parameter.
- **`fork`/`execvp`/`wait`**: replaced by a `Launch` record of what `execvp`
  would receive.
- **The buffer's indeterminate tail**: the part after the `'\0'` is left
  unconstrained. Every token property is proved from the C string alone.

The tokens are specified independently of `strtok`'s scanning (`FieldSplit`).
`Fields(w, sep)` cuts `w` at every separator and keeps the non-empty pieces.
`LineTokens(w)` takes the first field of `w` by `' '`, then the fields by
`'-'` of the text after that field's separator. The loop is proved to produce
exactly these tokens.

Some behaviour of `main.c` is easy to misread. The model follows the code:
- Only the first split is at spaces; later splits are at `'-'`. So `"ls -la"`
  gives the tokens `"ls"` and `"la"`, not `"ls"` and `"-la"`.
- `"exit"` is matched against the whole line by `strcmp` (main.c:23), not
  against the first token, so `" exit"` and `"exit now"` are run as commands.
- An empty or all-space line is not re-prompted: it reaches `fork`/`execvp`
  with a NULL command.
- There are no `help`/`cd` built-ins, no `&` background handling and no
  child reaping.

## Model

| member | source | states |
|---|---|---|
| CString.CStr | main.c:31 | the string at a position of a buffer (what `strcpy` copies and `strcmp` compares) is the text up to the first `'\0'`: it contains no `'\0'`, and a `'\0'` follows it inside the buffer |
| LineReader.Line | main.c:81-82 | the line is the `getchar` values before the first `'\n'` or EOF, in order, each stored as the character it encodes; the value that follows is `'\n'` or EOF |
| LineReader.LineOfKeystrokes | main.c:81-91 | typing a line without `'\n'` and pressing Enter yields exactly that line, and reading stops right after the Enter |
| LineReader.Capacity | main.c:71-75 | the buffer size once `i` characters are stored is a positive multiple of 10 that is strictly above `i` and at most `i + 10`, so index `i` is always in bounds |
| LineReader.CapacityStep | main.c:84-88 | storing one more character keeps the size, unless the index has just reached it; then the size grows by exactly 10 |
| LineReader.Realloc | main.c:87 | `realloc` gives a fresh block of the requested size whose common prefix with the old block is unchanged |
| LineReader.Store | main.c:82-88 | one loop step stores the character at `i` and keeps the earlier ones; the new `current_size` equals the buffer length and `Capacity(i + 1)` |
| LineReader.ReadUserInput | main.c:70-93 | if `malloc` fails, nothing is read or written; otherwise the buffer holds exactly the line read, then `'\0'` at index `i` (which is in bounds, as the size is `Capacity(i)`), and `getchar` was called `i + 1` times |
| Strtok.SkipSeparators | main.c:25 | `strtok` skips to the first position that is not a separator; every position skipped is a separator, and the string is still terminated from there |
| Strtok.TokenEnd | main.c:25 | a token runs to the first separator or `'\0'`; nothing before that position is either |
| Strtok.Strspn | main.c:25 | the scanning loop over the array stops exactly at `SkipSeparators` |
| Strtok.Strcspn | main.c:25 | the scanning loop over the array stops exactly at `TokenEnd`, the first separator or the terminating `'\0'` (as `strcspn` counts) |
| Strtok.StrtokStep | main.c:25-33 | one call keeps the buffer's length; the saved position only moves forward and stays inside the C string; a returned token lies between the old and the new saved position |
| Strtok.StrtokNull | main.c:25-29 | `strtok` returns NULL exactly when only separators come before the terminating `'\0'`; it then leaves the buffer unchanged and saves the position of that `'\0'` |
| Strtok.StrtokToken | main.c:25-33 | a token starts after the leading separators and is a non-empty maximal run of non-separators; only the separator ending it is overwritten with `'\0'`, and the scan resumes after that separator |
| Strtok.StrtokWrites | main.c:33 | a call changes at most one position: a separator it scanned past, now `'\0'` |
| Strtok.Scan | main.c:25-33 | the body of `strtok` on the array computes exactly `StrtokStep`: the new contents, the saved position and the token |
| Strtok.StrtokState.constructor | main.c:25 | before the first call there is no saved string |
| Strtok.StrtokState.Strtok | main.c:25-33 | a non-NULL first argument starts a scan of that string at 0, and NULL continues the saved one; the new contents, saved position and token are those of `StrtokStep`, the state stays valid, and no array other than the one scanned is written |
| FieldSplit.FieldsWellFormed | main.c:25-33 | every token is non-empty and contains no separator |
| FieldSplit.NoFieldsIffAllSeparators | main.c:25-29 | a text has no tokens exactly when it is made of separators only |
| FieldSplit.LeadingSeparators | main.c:25 | leading separators change neither the tokens nor the text after the first one |
| FieldSplit.FirstField | main.c:25-33 | a run of non-separators ended by a separator or by the end of the text is the first token, and the remaining tokens are those of the text after that separator |
| FieldSplit.FieldsUnfold | main.c:29-33 | the tokens of a text are its first token followed by the tokens of the text after it |
| TokenLoop.Drain | main.c:29-33 | repeated `strtok(NULL, "-")` calls keep the buffer's length, and only ever overwrite separators at or after the saved position with `'\0'` |
| TokenLoop.DrainStep | main.c:29-33 | the repeated calls are one call followed by the rest of the calls from the new saved position |
| TokenLoop.SplitLine | main.c:25-34 | the loop on a buffer keeps its length, and there is a command exactly when there is at least one token |
| TokenLoop.SplitLineWrites | main.c:25-33 | the loop only ever overwrites a `' '` or a `'-'`, and only with `'\0'` |
| TokenLoop.CommandIsFirstToken | main.c:26 | once the loop has ended, `command` still points at the first token, unchanged by the later calls |
| TokenLoop.StrtokStepFields | main.c:25 | on a C string, `strtok` returns NULL exactly when the string has no tokens; otherwise it returns the string's first token and resumes inside the same string, at the text after that token |
| TokenLoop.StrtokTokenFields | main.c:25 | the token returned is the string's first token, and the text left to scan is the text after it |
| TokenLoop.DrainFields | main.c:29-34 | the calls from a saved position return exactly the tokens of the C string there, in order |
| TokenLoop.SplitLineTokens | main.c:25-34 | the tokens of the loop are exactly `LineTokens` of the line up to its first `'\0'`: the first token by `' '`, then the tokens by `'-'` of the rest |
| TokenLoop.BlankLineHasNoTokens | main.c:25-29 | a line has no command, and the loop body never runs, exactly when the line is empty or all spaces |
| TokenLoop.CommandDashOption | main.c:25-33 | a command without spaces, followed by `" -"` and an option without dashes, gives exactly the tokens command and option |
| TokenLoop.LsDashLa | main.c:25-33 | `"ls -la"` gives the tokens `"ls"` then `"la"` |
| TokenLoop.PendingStart | main.c:25-28 | after the first call, the run is the token returned followed by the drain from the saved position |
| TokenLoop.PendingStep | main.c:29-33 | copying the current token and calling `strtok(NULL, "-")` moves one token from the rest of the run to the tokens copied |
| TokenLoop.SplitCommand | main.c:25-34 | the token loop on the line buffer leaves the buffer as `SplitLine` says, `command` is the first token's position (None for NULL), and `params` is the last token (None if there is none) |
| TokenLoop.CopyTokens | main.c:28-34 | the inner `while` loop ends with the buffer as the whole run leaves it and with `params` holding the last token |
| Shell.Text | main.c:23 | the string `strcmp` and `strtok` see is the longest prefix of the line that contains no `'\0'` |
| Shell.LaunchOf | main.c:25-39 | what one pass hands to `execvp`: no command and no params exactly when the line is empty or all spaces; otherwise the command is the line's first field at spaces, and params is the last token |
| Shell.Session | main.c:21-50 | the loop of `main` as a function of the input: it stops on a line that is exactly `"exit"`, otherwise launches the line and reads the next; it never launches more than `rounds` lines, launches exactly `rounds` when no `"exit"` comes, and with no launch it has exited exactly when the first line is `"exit"` |
| Shell.BufferText | main.c:21-23 | the buffer `readUserInput` fills holds that string |
| Shell.ReadLine | main.c:49 | reading a line gives a fresh buffer holding its string, and the input is left right after the line |
| Shell.Pass | main.c:25-39 | one pass of the loop body hands `execvp` the first token as the command and the last token as params, and leaves the buffer as the token loop `SplitLine` says |
| Shell.Run | main.c:21-50 | the loop of `main`, with every `malloc` succeeding, makes exactly the launches and the exit that `Session` describes |
| Shell.RemainingStep | main.c:23-50 | a pass on a line other than `"exit"` adds one launch and moves on to the line after it |
| Shell.EndOfInputSpins | main.c:23-50 | at end of input every pass reads an empty line and launches a NULL command, so the loop never ends |
| Shell.TypedExit | main.c:23 | the line `"exit"` ends the loop before anything is launched |
| Shell.OneCommand | main.c:23-49 | a line other than `"exit"` is launched, and the loop then reads the next line |
| Shell.CommandThenExit | main.c:23-50 | a command line followed by `"exit"` makes one launch, then the loop ends |
| Shell.LsThenExit | main.c:23-50 | typing `"ls -la"` and then `"exit"` launches `ls` with params `"la"`, then the loop ends |

## Left out

- `fork`, `execvp` and `wait` (main.c:36-41): they are OS process control.
  Each pass records a `Launch(command, params)` instead. The source hands
  `execvp` a single string where an argument vector is expected; the model
  keeps only the strings.
- `displayWelcomeScreen` and the empty `printCurrentDir` (main.c:56-68): they
  only produce output.
- The terminal behind `getchar` is not modelled: the input is a sequence of
  returned values.
- The unsigned 32-bit width of `i` and `current_size` is not modelled: the
  model uses unbounded integers. In the source `current_size` wraps first:
  at `i = 4294967290`, `i + len_max` wraps to 4, `realloc` shrinks the block
  to 4 bytes, and the next store writes out of bounds.
- A failed `realloc` (main.c:87) is not modelled. The source does not check
  its result; the model's `Realloc` always succeeds.
- Shell.Run: every `malloc` inside the loop is taken to succeed. After a
  failure the source would call `strcmp` on NULL, which is undefined.
- Shell.Session: the model follows the parent process only and assumes a
  launched child never returns into the loop. In the source nothing ends the
  child after `execvp` (main.c:38-41): a child whose `execvp` fails goes on
  through main.c:41-50 itself, so it may read the next line (an `"exit"`,
  say) from the same standard input before the parent does. The same holds
  for `Shell.OneCommand`, `Shell.CommandThenExit` and `Shell.LsThenExit`.
- Shell.Run: the model runs at most `rounds` passes. At end of input the
  source loops forever, because an empty line is not `"exit"`
  (see `EndOfInputSpins`).
- `readUserInput` receives `pUserInputStr` by value (main.c:21, 49, 70), so
  `main` never sees the buffer it fills. On the first pass `strcmp` gets an
  uninitialised pointer; from the second pass on it gets NULL, which
  main.c:46 stores after `free`. The model returns the buffer, which is
  evidently what was intended.
- `params` storage (main.c:28-31): `malloc(0)`, a discarded `realloc` result
  and `sizeof` applied to pointers make the `strcpy` target undefined.
  `params` is modelled as a value, the last token copied. `free` is not
  modelled either.
- Strtok.StrtokState.Strtok: after a NULL return the saved position is left
  at the terminating `'\0'`, as glibc does. ISO C11 leaves this open, and
  `main` never calls `strtok` again on that string.
