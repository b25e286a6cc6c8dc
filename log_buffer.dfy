/**
 * The server's output log: a deque of the child's most recent output lines,
 * bounded at 3000, filled by the reader loop and read by the `/logs` query.
 * Each locked append or snapshot is one atomic step here.
 */
module LogBuffer {
  import opened Text

  /** The deque's `maxlen`. */
  const MaxLines: nat := 3000

  /** The number of lines `/logs` returns when no `n` is given. */
  const DefaultLogLines: int := 200

  function Min(a: int, b: int): int { if a <= b then a else b }
  function Max(a: int, b: int): int { if a <= b then b else a }

  /** What a deque bounded by MaxLines holds after receiving `emitted` in order. */
  function Window(emitted: seq<string>): (w: seq<string>)
    ensures |w| <= MaxLines
  {
    if |emitted| <= MaxLines then emitted else emitted[|emitted| - MaxLines..]
  }

  /** `deque.append` on a bounded deque: a full deque first drops its leftmost (oldest) line. */
  function Push(buf: seq<string>, line: string): (r: seq<string>)
    requires |buf| <= MaxLines
    ensures |r| == Min(|buf| + 1, MaxLines)
    ensures r == (buf + [line])[|buf| + 1 - |r|..]
  {
    if |buf| < MaxLines then buf + [line] else buf[1..] + [line]
  }

  /** The buffer is always the newest min(|emitted|, MaxLines) lines, in emission order. */
  lemma WindowIsNewestSuffix(emitted: seq<string>)
    ensures |Window(emitted)| == Min(|emitted|, MaxLines) <= MaxLines
    ensures Window(emitted) == emitted[|emitted| - |Window(emitted)|..]
  {
  }

  /** Appending to the window of a stream gives the window of the longer stream. */
  lemma PushWindow(emitted: seq<string>, line: string)
    ensures |Window(emitted)| <= MaxLines
    ensures Push(Window(emitted), line) == Window(emitted + [line])
  {
  }

  /** A full buffer loses exactly its oldest line; the others keep their order. */
  lemma PushFull(buf: seq<string>, line: string)
    requires |buf| == MaxLines
    ensures |Push(buf, line)| == MaxLines
    ensures Push(buf, line)[..MaxLines - 1] == buf[1..]
    ensures Push(buf, line)[MaxLines - 1] == line
  {
  }

  /** A buffer with room only grows. */
  lemma PushNotFull(buf: seq<string>, line: string)
    requires |buf| < MaxLines
    ensures Push(buf, line) == buf + [line]
  {
  }

  /** Python's `s[start:]`: a negative start counts from the end, and both ends are clamped. */
  function SliceFrom<T>(s: seq<T>, start: int): (r: seq<T>)
    ensures |r| <= |s| && r == s[|s| - |r|..]
  {
    var i := if start < 0 then Max(|s| + start, 0) else Min(start, |s|);
    s[i..]
  }

  /** `list(lines)[-int(n):]` */
  function Tail(buf: seq<string>, n: int): (r: seq<string>)
    ensures n >= 1 ==> |r| == Min(n, |buf|) && r == buf[|buf| - |r|..]
    ensures n == 0 ==> r == buf
    ensures n < 0 ==> r == buf[Min(-n, |buf|)..]
  {
    SliceFrom(buf, -n)
  }

  /** A positive tail of the buffer is the newest lines ever emitted, in emission order. */
  lemma TailOfWindow(emitted: seq<string>, n: int)
    requires n >= 1
    ensures var k := Min(n, Min(|emitted|, MaxLines));
      Tail(Window(emitted), n) == emitted[|emitted| - k..]
  {
  }

  /** Each `raw.rstrip("\n")` of a list of `readline()` results, in order. */
  function Stripped(raws: seq<string>): seq<string> {
    seq(|raws|, i requires 0 <= i < |raws| => RStripNewlines(raws[i]))
  }

  /** A `readline()` result: one line, newline-terminated, with no other newline in it. */
  predicate IsReadLine(raw: string) {
    EndsWithNewline(raw) && '\n' !in raw[..|raw| - 1]
  }

  /**
   * Stripping loses nothing but the line ends: the stored lines, each written
   * back with a newline, give exactly the text the child emitted.
   */
  lemma {:induction false} StrippedReadLines(raws: seq<string>)
    requires forall i :: 0 <= i < |raws| ==> IsReadLine(raws[i])
    ensures JoinLines(Stripped(raws)) == Concat(raws)
  {
    if raws != [] {
      var raw := raws[0];
      var line := raw[..|raw| - 1];
      assert raw == line + "\n";
      StripReadLine(line);
      StrippedReadLines(raws[1..]);
      assert Stripped(raws)[1..] == Stripped(raws[1..]);
    }
  }

  /** The `readline()` results `iter(readline, '')` yields: those before the first empty one. */
  function UntilEof(results: seq<string>): (r: seq<string>)
    ensures |r| <= |results| && r == results[..|r|]
    ensures forall i :: 0 <= i < |r| ==> r[i] != ""
    ensures |r| < |results| ==> results[|r|] == ""
  {
    if results == [] || results[0] == "" then [] else [results[0]] + UntilEof(results[1..])
  }

  /** The deque `lines` together with the (ghost) stream of every line ever appended to it. */
  class Log {
    var lines: seq<string>
    ghost var emitted: seq<string>

    ghost predicate Valid()
      reads this
    {
      lines == Window(emitted)
    }

    constructor ()
      ensures Valid() && emitted == [] && lines == []
    {
      lines := [];
      emitted := [];
    }

    /** `lines.append(line)` */
    method Append(line: string)
      requires Valid()
      modifies this
      ensures Valid()
      ensures emitted == old(emitted) + [line]
      ensures lines == Push(old(lines), line)
    {
      PushWindow(emitted, line);
      if |lines| == MaxLines {
        lines := lines[1..];
      }
      lines := lines + [line];
      emitted := emitted + [line];
    }

    /** The `/logs` query: a snapshot slice that leaves the buffer as it is. */
    method Logs(n: int) returns (out: seq<string>)
      requires Valid()
      ensures out == Tail(lines, n)
      ensures n >= 1 ==> out == emitted[|emitted| - Min(n, |lines|)..]
      ensures n == 0 ==> out == lines
    {
      TailOfWindow(emitted, if n >= 1 then n else 1);
      WindowIsNewestSuffix(emitted);
      var snapshot := lines;
      out := SliceFrom(snapshot, -n);
    }

    /** The `/logs` query without `n`: the newest 200 lines, in emission order. */
    method DefaultLogs() returns (out: seq<string>)
      requires Valid()
      ensures out == Tail(lines, DefaultLogLines)
      ensures out == emitted[|emitted| - Min(DefaultLogLines, |lines|)..]
    {
      out := Logs(DefaultLogLines);
    }
  }

  /**
   * The reader thread's body, given what the child's output stream delivers:
   * the successive `readline()` results, then what the final `read()` returns.
   */
  method ReadOutput(log: Log, results: seq<string>, rest: string)
    requires log.Valid()
    modifies log
    ensures log.Valid()
    ensures log.emitted == old(log.emitted) + Stripped(UntilEof(results)) + SplitLines(rest)
  {
    ghost var start := log.emitted;
    ghost var consumed := UntilEof(results);
    var i := 0;
    while i < |results| && results[i] != ""
      invariant i <= |consumed|
      invariant consumed[..i] == results[..i]
      invariant log.Valid()
      invariant log.emitted == start + Stripped(results[..i])
    {
      log.Append(RStripNewlines(results[i]));
      assert Stripped(results[..i + 1]) == Stripped(results[..i]) + [RStripNewlines(results[i])];
      i := i + 1;
    }
    assert results[..i] == consumed;
    if rest != "" {
      var parts := SplitLines(rest);
      var j := 0;
      while j < |parts|
        invariant j <= |parts|
        invariant log.Valid()
        invariant log.emitted == start + Stripped(consumed) + parts[..j]
      {
        log.Append(parts[j]);
        assert parts[..j + 1] == parts[..j] + [parts[j]];
        j := j + 1;
      }
      assert parts[..j] == parts;
    }
  }
}
