/**
 * The single-child supervisor behind `/start`, `/stop`, `/send`, `/quit` and
 * `/status`. The module globals `process` and `reader_thread` become the
 * fields of one `Supervisor` object. Spawning, `poll()`, the pipes and
 * `terminate()` are abstracted: a handle records whether the child is still
 * running and whether its input pipe still accepts writes, and every
 * successful write is recorded in a ghost log.
 */
module ProcessControl {
  import opened Wrappers
  import opened Text

  /** A child process as the supervisor sees it. */
  datatype Handle = Handle(alive: bool, inputOpen: bool)

  /** What a write to the child's input ends in; `NotRunning` is the "Process not running" error. */
  datatype Outcome = Ok | NotRunning | BrokenPipe

  /** One write on the input pipe of the `child`-th spawned process. */
  datatype Write = Write(child: nat, text: string)

  /** The line `/start` and `/stop` send. */
  const BlankLine: string := "\n"

  /** The line `/quit` sends before terminating the child. */
  const QuitLine: string := "q\n"

  /** The text `/send` writes for `text`: a newline is added unless it is already there. */
  function WithNewline(text: string): (r: string)
    ensures EndsWithNewline(r)
    ensures |text| <= |r| <= |text| + 1 && r[..|text|] == text
    ensures EndsWithNewline(text) ==> r == text
  {
    text + (if !EndsWithNewline(text) then "\n" else "")
  }

  /** Of all texts that extend `text` and end in a newline, WithNewline gives the shortest. */
  lemma WithNewlineShortest(text: string, s: string)
    requires |text| <= |s| && s[..|text|] == text && EndsWithNewline(s)
    ensures |WithNewline(text)| <= |s|
  {
  }

  /** Normalising twice is normalising once. */
  lemma WithNewlineIdempotent(text: string)
    ensures WithNewline(WithNewline(text)) == WithNewline(text)
  {
  }

  /** A text holding no newline reaches the child as exactly one line. */
  lemma WithNewlineOneLine(text: string)
    requires '\n' !in text
    ensures var r := WithNewline(text); r == text + "\n" && multiset(r)['\n'] == 1
  {
  }

  class Supervisor {
    /** The module global `process`: no handle, or the last child spawned. */
    var process: Option<Handle>
    /** Number of children spawned so far; the current one, if any, is the `spawned`-th. */
    ghost var spawned: nat
    /** Number of reader threads started so far. */
    ghost var readers: nat
    /** Every successful write to a child's input, in order. */
    ghost var stdin: seq<Write>

    ghost predicate Valid()
      reads this
    {
      && readers == spawned
      && (process.Some? ==> spawned > 0)
      && forall k :: 0 <= k < |stdin| ==> 0 < stdin[k].child <= spawned
    }

    /** `process is not None and process.poll() is None` */
    predicate Running()
      reads this
    {
      process.Some? && process.value.alive
    }

    /** The state at import time: no child. */
    constructor ()
      ensures Valid() && process == None
      ensures spawned == 0 && stdin == []
    {
      process := None;
      spawned, readers := 0, 0;
      stdin := [];
    }

    /** The environment: the child terminates on its own, so `poll()` now reports it. */
    method ChildExits()
      requires Valid()
      modifies this`process
      ensures Valid()
      ensures old(process).None? ==> process == None
      ensures old(process).Some? ==> process == Some(old(process).value.(alive := false))
    {
      if process.Some? {
        process := Some(process.value.(alive := false));
      }
    }

    /** The environment: the child closes its input while still running, so writes fail. */
    method ChildClosesInput()
      requires Valid()
      modifies this`process
      ensures Valid()
      ensures old(process).None? ==> process == None
      ensures old(process).Some? ==> process == Some(old(process).value.(inputOpen := false))
    {
      if process.Some? {
        process := Some(process.value.(inputOpen := false));
      }
    }

    /**
     * `_ensure_process`: reuse a running child; otherwise spawn exactly one new
     * child and start exactly one reader thread for it.
     */
    method EnsureProcess() returns (h: Handle)
      requires Valid()
      modifies this`process, this`spawned, this`readers
      ensures Valid()
      ensures process == Some(h) && h.alive
      ensures old(Running()) ==> process == old(process) && spawned == old(spawned) && readers == old(readers)
      ensures !old(Running()) ==> h == Handle(true, true) && spawned == old(spawned) + 1 && readers == old(readers) + 1
    {
      if process.None? || !process.value.alive {
        process := Some(Handle(true, true));
        spawned := spawned + 1;
        readers := readers + 1;
      }
      h := process.value;
    }

    /**
     * `_send_stdin`: refuse with "Process not running" unless a child is
     * running; otherwise write `text` to it and change nothing else.
     */
    method SendStdin(text: string) returns (r: Outcome)
      requires Valid()
      modifies this`stdin
      ensures Valid()
      ensures r == NotRunning <==> !Running()
      ensures r == Ok <==> Running() && process.value.inputOpen
      ensures stdin == if r == Ok then old(stdin) + [Write(spawned, text)] else old(stdin)
    {
      if process.None? || !process.value.alive {
        return NotRunning;
      }
      if !process.value.inputOpen {
        return BrokenPipe;
      }
      stdin := stdin + [Write(spawned, text)];
      r := Ok;
    }

    /** The `running` field of `/status`. */
    method Status() returns (running: bool)
      ensures running == Running()
    {
      running := process.Some? && process.value.alive;
    }

    /** What `_ensure_process` followed by one write of `text` leaves behind. */
    twostate predicate EnsuredAndWrote(text: string, r: Outcome)
      reads this
    {
      && Running()
      && (old(Running()) ==> process == old(process) && spawned == old(spawned) && readers == old(readers))
      && (!old(Running()) ==> process == Some(Handle(true, true)) && spawned == old(spawned) + 1 && readers == old(readers) + 1)
      && (r == Ok <==> process.value.inputOpen)
      && r != NotRunning
      && stdin == if r == Ok then old(stdin) + [Write(spawned, text)] else old(stdin)
    }

    /** `/start`: make sure a child runs, then send it a blank line. */
    method Start() returns (r: Outcome)
      requires Valid()
      modifies this
      ensures Valid()
      ensures EnsuredAndWrote(BlankLine, r)
    {
      var _ := EnsureProcess();
      r := SendStdin(BlankLine);
    }

    /** `/stop`: the same steps as `/start`. */
    method Stop() returns (r: Outcome)
      requires Valid()
      modifies this
      ensures Valid()
      ensures EnsuredAndWrote(BlankLine, r)
    {
      var _ := EnsureProcess();
      r := SendStdin(BlankLine);
    }

    /** `/send`: make sure a child runs, then send `text` terminated by a newline. */
    method Send(text: string) returns (r: Outcome)
      requires Valid()
      modifies this
      ensures Valid()
      ensures EnsuredAndWrote(WithNewline(text), r)
    {
      var _ := EnsureProcess();
      r := SendStdin(WithNewline(text));
    }

    /**
     * `/quit`: a running child is sent the quit line (a failed write is
     * swallowed) and asked to terminate (no effect in this model, and its
     * failure is swallowed too); the handle is then dropped in every case.
     */
    method Quit()
      requires Valid()
      modifies this`process, this`stdin
      ensures Valid()
      ensures process == None && !Running()
      ensures stdin == if old(Running()) && old(process).value.inputOpen
                       then old(stdin) + [Write(spawned, QuitLine)]
                       else old(stdin)
    {
      if process.Some? && process.value.alive {
        var _ := SendStdin(QuitLine);
      }
      process := None;
    }
  }
}
