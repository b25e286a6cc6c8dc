# Voice agent wrapper: supervisor and log buffer

A model of the control plane in `SAFE/api_server.py`. This is the small HTTP
server that runs one long-lived interactive Python child process. It forwards
text to the child's input and keeps the child's most recent output lines in
memory.

The model has five modules:

- `Wrappers`: `Option`, for Python's `None`.
- `Text`: `str.rstrip("\n")`, `str.splitlines()`, `str.endswith("\n")` and
  substring search.
  - `splitlines` is tied to line-by-line writing in both directions.
    `SplitJoin`: splitting lines written with newlines gives the lines back.
    `JoinSplit`: for text whose only boundary is `"\n"`, writing the pieces
    back restores the text, plus a final newline if it lacked one.
    `JoinSplitAll`: for text without `"\r"`, and so with any of the other
    boundaries, writing the pieces back gives the text with each boundary
    written as `"\n"`, plus a final newline if it did not end in a boundary.
  - The substring test is proved equal to "occurs at some position".
- `LogBuffer`: the `deque(maxlen=3000)` of output lines.
  - `Window` gives the lines the deque holds after a given stream of appends.
    `Push` is one bounded append.
  - `Tail` is the `/logs` slice `list(lines)[-int(n):]`, with Python's slice
    semantics.
  - The class `Log` holds the deque as a `seq<string>` field. Beside it is a
    ghost `emitted` stream of everything ever appended, and its invariant is
    `lines == Window(emitted)`.
  - `ReadOutput` is the reader thread's body. It takes the `readline()`
    results and then the final `read()`, and loops over them.
- `ProcessControl`: the class `Supervisor`.
  - Its field `process` is the module global: no handle, or a handle with an
    `alive` flag (what `poll()` reports) and an `inputOpen` flag (whether
    writes to the input pipe succeed).
  - Ghost counters record how many children were spawned and how many reader
    threads were started. A ghost log records every write to a child's input.
  - The child's own behaviour is given by two environment methods:
    `ChildExits` and `ChildClosesInput`.
  - `WithNewline` is the newline rule of `/send`.
- `EntryPoint`: `find_main_py`.
  - The directory tree is a sequence of relative paths in the order a
    recursive glob visits them. A path is a sequence of its parts.
  - File reading is a function from a path to its text, or `None` where
    reading fails.
  - The `candidates.sort(key=depth)` call is a stable insertion sort by depth,
    `SortByDepth`.
  - `FirstShallowest` is the reference for "the first of the shallowest".

Only `/send` adds a missing newline to what it writes. `/start` and `/stop`
write `"\n"` directly, and `/quit` writes `"q\n"`. `/logs?n=0` returns the
whole buffer, and a negative `n` drops the first `|n|` lines, because that is
what `list(lines)[-int(n):]` does.

## Model

| member | source | states |
|---|---|---|
| `Text.RStripNewlines` | SAFE/api_server.py:64 | the result no longer ends in a newline, is a prefix of the input, and only newlines were removed |
| `Text.StripReadLine` | SAFE/api_server.py:62-64 | a line as `readline()` returns it, with its one newline, is stored as exactly the line without that newline |
| `Text.LineEnd` | SAFE/api_server.py:67 | the index of the first line boundary: no boundary before it, and a boundary at it unless it is the end |
| `Text.SplitLines` | SAFE/api_server.py:67 | no piece of `splitlines` holds a line boundary; only the empty text gives no pieces (the content of the pieces is fixed by `SplitJoin`, `JoinSplit` and, for every boundary but `"\r"`, `JoinSplitAll`) |
| `Text.SplitJoin` | SAFE/api_server.py:65-69 | lines without boundaries, each written followed by a newline, split back into exactly those lines, in order |
| `Text.JoinSplit` | SAFE/api_server.py:65-69 | for text whose only boundary is `"\n"`, including an unterminated last line, the pieces written back line by line are the text itself, with a newline added only when it did not end in one |
| `Text.MapBreaks` | SAFE/api_server.py:67 | the text with each `splitlines` boundary written as `"\n"`, of the same length |
| `Text.JoinSplitAll` | SAFE/api_server.py:65-69 | for text without `"\r"`, whatever other boundaries it holds, the pieces written back line by line are the text with each boundary as `"\n"`, plus a final newline only when it did not end in a boundary |
| `Text.Contains` | SAFE/api_server.py:32 | `pat in text` by recursion; a match needs a text at least as long as the pattern (its meaning is `ContainsOccurs`) |
| `Text.ContainsOccurs` | SAFE/api_server.py:32 | the substring test holds exactly when the pattern occurs at some position of the text |
| `LogBuffer.Window` | SAFE/api_server.py:55 | what the deque holds after a stream of appends; never more than 3000 lines |
| `LogBuffer.Push` | SAFE/api_server.py:55 | one `append` to the bounded deque: the result is the newest `min(len + 1, 3000)` lines of the old buffer followed by the new line |
| `LogBuffer.WindowIsNewestSuffix` | SAFE/api_server.py:55 | the buffer never holds more than 3000 lines, and it holds the newest `min(|emitted|, 3000)` lines in emission order |
| `LogBuffer.PushWindow` | SAFE/api_server.py:55 | one bounded append to the buffer of a stream gives the buffer of the stream extended by that line |
| `LogBuffer.PushFull` | SAFE/api_server.py:55 | appending to a full buffer evicts exactly the oldest line, keeps the rest in order, and puts the new line last |
| `LogBuffer.PushNotFull` | SAFE/api_server.py:55 | appending to a buffer with room evicts nothing |
| `LogBuffer.SliceFrom` | SAFE/api_server.py:128 | Python's `s[start:]` with a negative start counted from the end and both ends clamped; the result is always a suffix of `s` |
| `LogBuffer.Tail` | SAFE/api_server.py:128 | for `n >= 1`, the last `min(n, len)` lines in order; for `n = 0`, the whole buffer; for `n < 0`, the buffer without its first `abs(n)` lines |
| `LogBuffer.TailOfWindow` | SAFE/api_server.py:125-129 | a positive tail of the buffer is the newest lines ever emitted, in emission order |
| `LogBuffer.StrippedReadLines` | SAFE/api_server.py:62-64 | for `readline()` results (one newline each, at the end), the stripped lines written back with newlines are exactly the text the child emitted |
| `LogBuffer.UntilEof` | SAFE/api_server.py:62 | `iter(readline, '')` yields the `readline()` results before the first empty one, none of them empty |
| `LogBuffer.Log.constructor` | SAFE/api_server.py:55 | the buffer starts empty, with nothing emitted |
| `LogBuffer.Log.Append` | SAFE/api_server.py:64 | one locked append: the emitted stream grows by the line, and the buffer stays the window of that stream |
| `LogBuffer.Log.Logs` | SAFE/api_server.py:125-129 | the query returns `Tail` of the buffer and changes nothing; for `n >= 1` it returns the newest `min(n, len)` emitted lines in order |
| `LogBuffer.Log.DefaultLogs` | SAFE/api_server.py:126-129 | `/logs` without `n` uses the default 200: the newest `min(200, len)` emitted lines in order, buffer unchanged |
| `LogBuffer.ReadOutput` | SAFE/api_server.py:61-69 | the reader appends the stripped `readline()` results in order, then the `splitlines` pieces of the final read; the buffer stays bounded |
| `ProcessControl.WithNewline` | SAFE/api_server.py:134 | the text written ends in a newline, extends the input by at most one character, and is the input itself when that already ends in a newline |
| `ProcessControl.WithNewlineShortest` | SAFE/api_server.py:134 | no text that extends the input and ends in a newline is shorter than what `/send` writes |
| `ProcessControl.WithNewlineIdempotent` | SAFE/api_server.py:134 | normalising twice equals normalising once |
| `ProcessControl.WithNewlineOneLine` | SAFE/api_server.py:134 | a text holding no newline reaches the child as exactly one newline-terminated line |
| `ProcessControl.Supervisor.constructor` | SAFE/api_server.py:53-54 | at start there is no child handle, nothing has been spawned and nothing written |
| `ProcessControl.Supervisor.ChildExits` | SAFE/api_server.py:73 | the environment: after the child exits, `poll()` reports it and the handle stays in place |
| `ProcessControl.Supervisor.ChildClosesInput` | SAFE/api_server.py:90 | the environment: the running child closes its input, so later writes fail |
| `ProcessControl.Supervisor.EnsureProcess` | SAFE/api_server.py:71-85 | with a running child, the handle, spawn count and reader count are unchanged; otherwise exactly one child is spawned and one reader started; the handle returned is alive and current |
| `ProcessControl.Supervisor.SendStdin` | SAFE/api_server.py:87-91 | "Process not running" exactly when there is no handle or the child has exited; otherwise exactly the text is written once when the pipe is open, and nothing else changes |
| `ProcessControl.Supervisor.Running` | SAFE/api_server.py:88 | the liveness test `process is not None and process.poll() is None` used by `_send_stdin`, `status` and `quit` |
| `ProcessControl.Supervisor.Status` | SAFE/api_server.py:93-96 | `running` is exactly `Running()`: a handle exists and its child has not exited |
| `ProcessControl.Supervisor.Start` | SAFE/api_server.py:98-102 | a live child afterwards (reused or exactly one new), then exactly one blank line written to it; "not running" cannot happen in the model, where the child exits only between requests |
| `ProcessControl.Supervisor.Stop` | SAFE/api_server.py:104-108 | the same contract as `Start`: the two endpoints have identical effects |
| `ProcessControl.Supervisor.Send` | SAFE/api_server.py:131-135 | a live child afterwards, then exactly `WithNewline(text)` written to it |
| `ProcessControl.Supervisor.Quit` | SAFE/api_server.py:110-123 | afterwards there is no handle and the child is not reported running, whatever happened; the quit line is written only if the child was running with its pipe open |
| `EntryPoint.Matching` | SAFE/api_server.py:23 | `root.rglob(name)`: the entries called `name`, in visiting order (its members are fixed by `MatchingMembers`) |
| `EntryPoint.MatchingMembers` | SAFE/api_server.py:23 | the glob for a name finds exactly the entries with that name |
| `EntryPoint.CandidatesMembers` | SAFE/api_server.py:20-24 | the candidates are exactly the entries named `main.py`, `app.py` or `run.py` |
| `EntryPoint.Insert` | SAFE/api_server.py:26 | inserting into a depth-sorted list keeps it sorted, adds exactly the one path, and puts it first when it is no deeper than the old head |
| `EntryPoint.SortByDepth` | SAFE/api_server.py:26 | the sort result is ordered by depth and is a permutation of the candidates |
| `EntryPoint.FirstShallowest` | SAFE/api_server.py:25-27 | the index of a path no deeper than any other, with every earlier path strictly deeper |
| `EntryPoint.SortHeadIsFirstShallowest` | SAFE/api_server.py:25-27 | because the sort is stable, its head is the first of the shallowest candidates, so ties keep name-preference order |
| `EntryPoint.Prompted` | SAFE/api_server.py:29-32 | the fallback test: a `.py` entry that can be read and whose text holds one of the two prompt lines |
| `EntryPoint.Fallback` | SAFE/api_server.py:28-36 | `None` exactly when no `.py` entry holds a prompt line; otherwise the first such entry in visiting order |
| `EntryPoint.FindMain` | SAFE/api_server.py:18-36 | what `find_main_py` returns; any path it returns is one of the entries |
| `EntryPoint.FindMainChoice` | SAFE/api_server.py:18-36 | when a named candidate exists, the result is the first shallowest candidate; the fallback is used only when no entry carries a preferred name |
| `EntryPoint.CollectCandidates` | SAFE/api_server.py:20-24 | the nested loops build the candidates name by name, each name's matches in visiting order |
| `EntryPoint.FirstPrompted` | SAFE/api_server.py:29-36 | the fallback loop returns the first prompted `.py` entry, or `None` |
| `EntryPoint.FindMainPy` | SAFE/api_server.py:18-36 | the search returns a preferred-name candidate whenever one exists, and otherwise the fallback result |

## Left out

- HTTP routing, CORS middleware and the pydantic request model (SAFE/api_server.py:44-51, 58-59) are plumbing. Each endpoint is modelled as the method it calls.
- The `"main"` field of `/status` is the constant path chosen at import. It is not part of `Status`.
- Several import-time steps are outside the model: unpacking the backend archive (SAFE/api_server.py:12-16), the `SystemExit` when no entry point is found (SAFE/api_server.py:38-40), and reading `PYTHON_BIN` from the environment (SAFE/api_server.py:42). SAFE/unpack_backend.py is not part of this model; it only extracts a zip file.
- Real process spawning, pipes, `poll`, `flush` and `terminate` are abstracted. A handle has only an alive flag and an input-open flag, and `terminate` has no effect in the model. So the model cannot express a child left running after `/quit` drops its handle.
- Start, Stop, Send: in the model the child exits only between requests, so it cannot exit between the `poll()` in `_ensure_process` and the one in `_send_stdin`. The model therefore never shows these endpoints failing with "Process not running" after a reuse or a spawn. Spawning the child and starting its reader thread always succeed in the model, so a `Popen` or `Thread.start` that raises is not modelled.
- Threads and the lock are left out. Every locked append and every snapshot is one atomic step. The reader thread is a ghost count plus the `ReadOutput` method, which runs over the output the child produces. How it interleaves with requests is not modelled.
- Output is taken as already-decoded text. The pipe decodes strictly in the locale encoding, and an undecodable byte makes `readline()` raise inside the reader thread, which has no handler. The thread then ends, and none of that child's later output reaches the buffer. `ReadOutput` always consumes every result and the final read, so this is not modelled.
- In the text mode the server opens the pipes with, `\r\n` and `\r` become `\n` before `readline` sees them. The model takes the `readline()` results as given, after that translation.
- `find_main_py` is modelled over a single list of entries, in the order every recursive glob visits them. The model does not distinguish files from directories, and neither does the source. How `rglob` orders entries, and how bytes are decoded with `errors="ignore"`, are not modelled.
