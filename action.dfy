/**
  The action's main routine, reduced to its decisions: the listeners that
  fill `commits` and `myError`, the error gate after the `git log` call, and
  the per-commit `diff-tree` lookups. Process spawning is replaced by the
  sequences of chunks the listeners receive.
*/
module Action {
  import opened JsString
  import opened CommitLog
  import opened FileAttribution

  /** One chunk delivered to an `exec` listener. */
  datatype Output = Stdout(data: string) | Stderr(data: string)

  /** A chunk from the `diff-tree` lookup started for commit `sha`. */
  datatype LookupOutput = LookupOutput(sha: string, output: Output)

  /** The error gate: go on, or abort the run with the accumulated text as the error. */
  datatype Gate = Pass | Fail(error: string)

  /** How a run ends: the map handed to the changelog renderer, or the error thrown. */
  datatype RunResult = Completed(commits: Commits) | Aborted(error: string)

  /**
    `myError` as the stderr listener leaves it: the stderr chunks in arrival
    order. Its properties are StderrTextEmpty and StderrTextAppend.
  */
  function StderrText(outputs: seq<Output>): string
    decreases |outputs|
  {
    if outputs == [] then []
    else
      var last := outputs[|outputs| - 1];
      StderrText(outputs[..|outputs| - 1]) + (if last.Stderr? then last.data else [])
  }

  /** The gate's condition: the accumulated text is empty exactly when every stderr chunk was. */
  lemma {:induction false} StderrTextEmpty(outputs: seq<Output>)
    ensures StderrText(outputs) == [] <==>
      forall i :: 0 <= i < |outputs| && outputs[i].Stderr? ==> outputs[i].data == []
  {
    if outputs != [] {
      var init, last := outputs[..|outputs| - 1], outputs[|outputs| - 1];
      StderrTextEmpty(init);
      var tail := if last.Stderr? then last.data else [];
      assert StderrText(outputs) == StderrText(init) + tail;
      assert StderrText(outputs) == [] <==> StderrText(init) == [] && tail == [];
      assert forall i :: 0 <= i < |init| ==> init[i] == outputs[i];
    }
  }

  /** Where the chunk boundaries fall does not matter to the accumulated text. */
  lemma {:induction false} StderrTextAppend(xs: seq<Output>, ys: seq<Output>)
    ensures StderrText(xs + ys) == StderrText(xs) + StderrText(ys)
    decreases |ys|
  {
    if ys == [] {
      assert xs + ys == xs;
    } else {
      var all := xs + ys;
      assert all[..|all| - 1] == xs + ys[..|ys| - 1];
      StderrTextAppend(xs, ys[..|ys| - 1]);
    }
  }

  /**
    `commits` after the listeners of the `git log` call have seen `outputs`:
    no id is ever removed.
  */
  function LogCommits(commits: Commits, outputs: seq<Output>): (r: Commits)
    ensures commits.Keys <= r.Keys
    decreases |outputs|
  {
    if outputs == [] then commits
    else
      var prev := LogCommits(commits, outputs[..|outputs| - 1]);
      match outputs[|outputs| - 1]
      case Stdout(data) => ParseChunk(prev, data)
      case Stderr(_) => prev
  }

  /** The stdout chunks of `outputs` joined in arrival order. */
  function StdoutText(outputs: seq<Output>): string
    decreases |outputs|
  {
    if outputs == [] then []
    else
      var last := outputs[|outputs| - 1];
      StdoutText(outputs[..|outputs| - 1]) + (if last.Stdout? then last.data else [])
  }

  /** Text that is empty or ends on a line boundary. */
  predicate EndsLine(s: string)
  {
    s == [] || s[|s| - 1] == '\n'
  }

  lemma {:induction false} StdoutTextEndsLine(outputs: seq<Output>)
    requires forall i :: 0 <= i < |outputs| && outputs[i].Stdout? ==> EndsLine(outputs[i].data)
    ensures EndsLine(StdoutText(outputs))
  {
    if outputs != [] {
      var init, last := outputs[..|outputs| - 1], outputs[|outputs| - 1];
      assert forall i :: 0 <= i < |init| ==> init[i] == outputs[i];
      StdoutTextEndsLine(init);
      var tail := if last.Stdout? then last.data else [];
      assert StdoutText(outputs) == StdoutText(init) + tail;
      if tail != [] {
        assert StdoutText(outputs)[|StdoutText(outputs)| - 1] == tail[|tail| - 1];
      }
    }
  }

  /** The empty chunk parses to nothing. */
  lemma ParseEmptyChunk(commits: Commits)
    ensures ParseChunk(commits, []) == commits
  {
    var pieces: seq<string> := [[]];
    assert Split([], '\n') == pieces && pieces[..0] == [];
  }

  /**
    When every chunk but the final one ends on a line boundary, the log
    listeners build the same map as one parse of all the stdout text.
  */
  lemma {:induction false} LogCommitsJoined(commits: Commits, log: seq<Output>)
    requires forall i :: 0 <= i < |log| - 1 && log[i].Stdout? ==> EndsLine(log[i].data)
    ensures LogCommits(commits, log) == ParseChunk(commits, StdoutText(log))
  {
    if log == [] {
      ParseEmptyChunk(commits);
    } else {
      var init, last := log[..|log| - 1], log[|log| - 1];
      assert forall i :: 0 <= i < |init| ==> init[i] == log[i];
      LogCommitsJoined(commits, init);
      var text := StdoutText(init);
      if last.Stdout? {
        assert LogCommits(commits, log) == ParseChunk(LogCommits(commits, init), last.data);
        StdoutTextEndsLine(init);
        assert StdoutText(log) == text + last.data;
        if text == [] {
          ParseEmptyChunk(commits);
          assert text + last.data == last.data;
        } else {
          ChunkBoundaryAtNewline(commits, text, last.data);
        }
      } else {
        assert StdoutText(log) == text + [] == text;
        assert LogCommits(commits, log) == LogCommits(commits, init);
      }
    }
  }

  /** The lookup chunks without the commit each was addressed to. */
  function LookupOutputs(lookups: seq<LookupOutput>): seq<Output>
  {
    seq(|lookups|, i requires 0 <= i < |lookups| => lookups[i].output)
  }

  lemma LookupOutputsAt(lookups: seq<LookupOutput>)
    ensures |LookupOutputs(lookups)| == |lookups|
    ensures forall i :: 0 <= i < |lookups| ==> LookupOutputs(lookups)[i] == lookups[i].output
  {
  }

  lemma LogStep(commits: Commits, errors: string, log: seq<Output>, i: nat)
    requires i < |log|
    ensures LogCommits(commits, log[..i + 1]) ==
      if log[i].Stdout? then ParseChunk(LogCommits(commits, log[..i]), log[i].data) else LogCommits(commits, log[..i])
    ensures errors + StderrText(log[..i + 1]) == errors + StderrText(log[..i]) + (if log[i].Stderr? then log[i].data else [])
  {
    assert log[..i + 1][..i] == log[..i];
  }

  lemma LookupStderrStep(lookups: seq<LookupOutput>, j: nat)
    requires j < |lookups|
    ensures StderrText(LookupOutputs(lookups[..j + 1])) ==
      StderrText(LookupOutputs(lookups[..j])) + (if lookups[j].output.Stderr? then lookups[j].output.data else [])
  {
    var seen := LookupOutputs(lookups[..j]);
    assert LookupOutputs(lookups[..j + 1]) == seen + [lookups[j].output];
    assert (seen + [lookups[j].output])[..j] == seen;
  }

  lemma LookupErrorsStep(prefix: string, lookups: seq<LookupOutput>, j: nat)
    requires j < |lookups|
    ensures prefix + StderrText(LookupOutputs(lookups[..j + 1])) ==
      prefix + StderrText(LookupOutputs(lookups[..j])) + (if lookups[j].output.Stderr? then lookups[j].output.data else [])
  {
    LookupStderrStep(lookups, j);
  }

  /** `commits` after the lookup listeners have seen `lookups`: the ids stay. */
  function AttachAll(commits: Commits, lookups: seq<LookupOutput>): (r: Commits)
    requires forall i :: 0 <= i < |lookups| ==> lookups[i].sha in commits
    ensures r.Keys == commits.Keys
    decreases |lookups|
  {
    if lookups == [] then commits
    else
      var prev := AttachAll(commits, lookups[..|lookups| - 1]);
      var last := lookups[|lookups| - 1];
      match last.output
      case Stdout(data) => AttachFiles(prev, last.sha, data)
      case Stderr(_) => prev
  }

  /** The index of the last stdout chunk of the lookup for `sha`, if any. */
  function LastFilesChunk(lookups: seq<LookupOutput>, sha: string): (j: Option<nat>)
    ensures j.Some? ==> j.value < |lookups| && lookups[j.value].sha == sha && lookups[j.value].output.Stdout?
    ensures j.Some? ==> forall i :: j.value < i < |lookups| ==> lookups[i].sha != sha || lookups[i].output.Stderr?
    ensures j.None? ==> forall i :: 0 <= i < |lookups| ==> lookups[i].sha != sha || lookups[i].output.Stderr?
    decreases |lookups|
  {
    if lookups == [] then None
    else
      var last := lookups[|lookups| - 1];
      if last.sha == sha && last.output.Stdout? then Some(|lookups| - 1)
      else LastFilesChunk(lookups[..|lookups| - 1], sha)
  }

  /**
    The lookup chunks of a run the code carries through to the changelog.
    Every parsed id's lookup prints on stdout, which resolves its promise, and
    the sequence ends at the stdout chunk that resolves the last promise still
    pending: that is where `Promise.all` resumes, so a later chunk never
    reaches the map handed on.
  */
  predicate LookupsSettle(ids: set<string>, lookups: seq<LookupOutput>)
  {
    (forall sha :: sha in ids ==> LastFilesChunk(lookups, sha).Some?) &&
    (lookups != [] ==>
      var last := lookups[|lookups| - 1];
      last.output.Stdout? && LastFilesChunk(lookups[..|lookups| - 1], last.sha).None?)
  }

  /**
    What the lookups leave in one record: its message as parsed, and the file
    list of the last stdout chunk addressed to it, or the record unchanged
    when none was.
  */
  lemma {:induction false} AttachAllAt(commits: Commits, lookups: seq<LookupOutput>, sha: string)
    requires forall i :: 0 <= i < |lookups| ==> lookups[i].sha in commits
    requires sha in commits
    ensures AttachAll(commits, lookups)[sha].message == commits[sha].message
    ensures LastFilesChunk(lookups, sha).Some? ==>
      AttachAll(commits, lookups)[sha].files == Some(FileList(lookups[LastFilesChunk(lookups, sha).value].output.data))
    ensures LastFilesChunk(lookups, sha).None? ==> AttachAll(commits, lookups)[sha] == commits[sha]
  {
    if lookups != [] {
      AttachAllAt(commits, lookups[..|lookups| - 1], sha);
    }
  }

  lemma AttachAllSnoc(commits: Commits, lookups: seq<LookupOutput>, j: nat)
    requires j < |lookups|
    requires forall i :: 0 <= i < |lookups| ==> lookups[i].sha in commits
    ensures lookups[j].sha in AttachAll(commits, lookups[..j])
    ensures var prev := AttachAll(commits, lookups[..j]);
      AttachAll(commits, lookups[..j + 1]) ==
        if lookups[j].output.Stdout? then AttachFiles(prev, lookups[j].sha, lookups[j].output.data) else prev
  {
    assert lookups[..j + 1][..j] == lookups[..j];
  }

  /**
    The run as the code is written: the gate is checked once, after the
    `git log` call; stderr of the lookups is appended to `myError` but never
    checked again.
  */
  function RunAsWritten(log: seq<Output>, lookups: seq<LookupOutput>): (r: RunResult)
    requires forall i :: 0 <= i < |lookups| ==> lookups[i].sha in LogCommits(map[], log)
    requires StderrText(log) == [] ==> LookupsSettle(LogCommits(map[], log).Keys, lookups)
    ensures r.Aborted? ==> r.error != []
    ensures r.Completed? ==> r.commits.Keys == LogCommits(map[], log).Keys
  {
    var logError := StderrText(log);
    if logError != [] then Aborted(logError)
    else Completed(AttachAll(LogCommits(map[], log), lookups))
  }

  /**
    The run with the gate checked again once every lookup has settled. It
    differs from the run as written only by aborting some runs that would
    otherwise complete.
  */
  function Run(log: seq<Output>, lookups: seq<LookupOutput>): (r: RunResult)
    requires forall i :: 0 <= i < |lookups| ==> lookups[i].sha in LogCommits(map[], log)
    requires StderrText(log) == [] ==> LookupsSettle(LogCommits(map[], log).Keys, lookups)
    ensures r.Aborted? ==> r.error != []
    ensures r.Completed? ==> r == RunAsWritten(log, lookups)
    ensures RunAsWritten(log, lookups).Aborted? ==> r == RunAsWritten(log, lookups)
  {
    var logError := StderrText(log);
    if logError != [] then Aborted(logError)
    else
      var commits := AttachAll(LogCommits(map[], log), lookups);
      var lookupError := StderrText(LookupOutputs(lookups));
      if lookupError != [] then Aborted(logError + lookupError) else Completed(commits)
  }

  /** A run aborts exactly when some chunk of diagnostic text was non-empty. */
  lemma RunAbortsIffStderr(log: seq<Output>, lookups: seq<LookupOutput>)
    requires forall i :: 0 <= i < |lookups| ==> lookups[i].sha in LogCommits(map[], log)
    requires StderrText(log) == [] ==> LookupsSettle(LogCommits(map[], log).Keys, lookups)
    ensures Run(log, lookups).Aborted? <==>
      (exists i :: 0 <= i < |log| && log[i].Stderr? && log[i].data != []) ||
      (exists i :: 0 <= i < |lookups| && lookups[i].output.Stderr? && lookups[i].output.data != [])
  {
    StderrTextEmpty(log);
    StderrTextEmpty(LookupOutputs(lookups));
    LookupOutputsAt(lookups);
  }

  /** A completed run hands on exactly the parsed ids, each with its parsed message. */
  lemma RunKeepsParsedCommits(log: seq<Output>, lookups: seq<LookupOutput>)
    requires forall i :: 0 <= i < |lookups| ==> lookups[i].sha in LogCommits(map[], log)
    requires StderrText(log) == [] ==> LookupsSettle(LogCommits(map[], log).Keys, lookups)
    requires Run(log, lookups).Completed?
    ensures Run(log, lookups).commits.Keys == LogCommits(map[], log).Keys
    ensures forall k :: k in Run(log, lookups).commits ==>
      Run(log, lookups).commits[k].message == LogCommits(map[], log)[k].message
  {
    var parsed := LogCommits(map[], log);
    forall k | k in Run(log, lookups).commits
      ensures Run(log, lookups).commits[k].message == parsed[k].message
    {
      AttachAllAt(parsed, lookups, k);
    }
  }

  /** As written, a completed run also hands on exactly the parsed ids with their parsed messages. */
  lemma RunAsWrittenKeepsParsedCommits(log: seq<Output>, lookups: seq<LookupOutput>)
    requires forall i :: 0 <= i < |lookups| ==> lookups[i].sha in LogCommits(map[], log)
    requires StderrText(log) == [] ==> LookupsSettle(LogCommits(map[], log).Keys, lookups)
    requires RunAsWritten(log, lookups).Completed?
    ensures RunAsWritten(log, lookups).commits.Keys == LogCommits(map[], log).Keys
    ensures forall k :: k in RunAsWritten(log, lookups).commits ==>
      RunAsWritten(log, lookups).commits[k].message == LogCommits(map[], log)[k].message
  {
    var parsed := LogCommits(map[], log);
    forall k | k in RunAsWritten(log, lookups).commits
      ensures RunAsWritten(log, lookups).commits[k].message == parsed[k].message
    {
      AttachAllAt(parsed, lookups, k);
    }
  }

  /** Every record a completed run hands on carries its changed files. */
  lemma RunAsWrittenHasFiles(log: seq<Output>, lookups: seq<LookupOutput>)
    requires forall i :: 0 <= i < |lookups| ==> lookups[i].sha in LogCommits(map[], log)
    requires StderrText(log) == [] ==> LookupsSettle(LogCommits(map[], log).Keys, lookups)
    requires RunAsWritten(log, lookups).Completed?
    ensures forall k :: k in RunAsWritten(log, lookups).commits ==> RunAsWritten(log, lookups).commits[k].files.Some?
  {
    var parsed := LogCommits(map[], log);
    forall k | k in RunAsWritten(log, lookups).commits
      ensures RunAsWritten(log, lookups).commits[k].files.Some?
    {
      AttachAllAt(parsed, lookups, k);
    }
  }

  /**
    A second stdout chunk of the last pending lookup arrives after `Promise.all`
    has resumed, so such a sequence is not one the run is taken over; the
    sequence that stops at the first chunk is.
  */
  lemma LateChunkNotSettled()
    ensures LookupsSettle({"a"}, [LookupOutput("a", Stdout("f\n"))])
    ensures !LookupsSettle({"a"}, [LookupOutput("a", Stdout("f\n")), LookupOutput("a", Stdout("g\n"))])
  {
    var one := [LookupOutput("a", Stdout("f\n"))];
    var two := one + [LookupOutput("a", Stdout("g\n"))];
    assert one[..0] == [];
    assert two[..1] == one;
    assert LastFilesChunk(one, "a") == Some(0);
  }

  /** As written, only the stderr of the `git log` call can abort the run. */
  lemma RunAsWrittenAbortsIffLogStderr(log: seq<Output>, lookups: seq<LookupOutput>)
    requires forall i :: 0 <= i < |lookups| ==> lookups[i].sha in LogCommits(map[], log)
    requires StderrText(log) == [] ==> LookupsSettle(LogCommits(map[], log).Keys, lookups)
    ensures RunAsWritten(log, lookups).Aborted? <==>
      exists i :: 0 <= i < |log| && log[i].Stderr? && log[i].data != []
  {
    StderrTextEmpty(log);
  }

  /**
    As written, a lookup that reports an error is not noticed: its promise
    still resolves on its stdout chunk, and the run completes with the files
    attached, where the corrected run aborts.
  */
  lemma LookupFailureIgnoredAsWritten()
    ensures var log := [Stdout("a")];
      var lookups := [LookupOutput("a", Stderr("warning")), LookupOutput("a", Stdout("f\n"))];
      LogCommits(map[], log).Keys == {"a"} &&
      LookupsSettle({"a"}, lookups) &&
      RunAsWritten(log, lookups) == Completed(map["a" := CommitRecord([], Some(["f"]))]) &&
      Run(log, lookups) == Aborted("warning")
  {
    var log := [Stdout("a")];
    var lookups := [LookupOutput("a", Stderr("warning")), LookupOutput("a", Stdout("f\n"))];
    var parsed := map["a" := CommitRecord([], None)];
    ExampleLog();
    assert LogCommits(map[], log) == parsed;
    ExampleLookups(parsed, lookups);
    assert StderrText(log) == [] by {
      assert log[..0] == [];
    }
    assert LastFilesChunk(lookups, "a") == Some(1);
    assert lookups[..1] == [lookups[0]] && lookups[..1][..0] == [];
    assert LastFilesChunk(lookups[..1], "a") == None;
  }

  /** The log chunk of the example: one line `a`, which becomes the id `a` with an empty message. */
  lemma ExampleLog()
    ensures LogCommits(map[], [Stdout("a")]) == map["a" := CommitRecord([], None)]
  {
    var log := [Stdout("a")];
    assert log[..0] == [];
    assert CommitId("a") == "a" && CommitMessage("a") == [];
    SingleLineChunk(map[], "a");
  }

  /** The lookups of the example: a warning on stderr, then the file `f` on stdout. */
  lemma ExampleLookups(parsed: Commits, lookups: seq<LookupOutput>)
    requires parsed == map["a" := CommitRecord([], None)]
    requires lookups == [LookupOutput("a", Stderr("warning")), LookupOutput("a", Stdout("f\n"))]
    ensures AttachAll(parsed, lookups) == map["a" := CommitRecord([], Some(["f"]))]
    ensures StderrText(LookupOutputs(lookups)) == "warning"
  {
    ExampleFiles();
    assert lookups[..0] == [] && lookups[..2] == lookups;
    AttachAllSnoc(parsed, lookups, 0);
    assert AttachAll(parsed, lookups[..1]) == parsed;
    AttachAllSnoc(parsed, lookups, 1);
    ExampleLookupErrors(lookups);
  }

  lemma ExampleFiles()
    ensures FileList("f\n") == ["f"]
  {
    FileListRoundTrip(["f"]);
    assert Join(["f"], '\n') + "\n" == "f\n";
  }

  lemma ExampleLookupErrors(lookups: seq<LookupOutput>)
    requires lookups == [LookupOutput("a", Stderr("warning")), LookupOutput("a", Stdout("f\n"))]
    ensures StderrText(LookupOutputs(lookups)) == "warning"
  {
    LookupStderrStep(lookups, 0);
    LookupStderrStep(lookups, 1);
    assert lookups[..0] == [] && lookups[..2] == lookups;
    assert LookupOutputs(lookups[..0]) == [];
  }

  /** The mutable state of one run: the `commits` object and the `myError` text. */
  class ActionRun {
    var commits: Commits
    var myError: string

    constructor ()
      ensures commits == map[] && myError == []
    {
      commits := map[];
      myError := [];
    }

    /** The stdout listener of the `git log` call. */
    method OnLogStdout(data: string)
      modifies this`commits
      ensures commits == ParseChunk(old(commits), data)
    {
      var splitted := Split(data, '\n');
      var i := 0;
      while i < |splitted|
        invariant 0 <= i <= |splitted|
        invariant commits == ApplyLines(old(commits), splitted[..i])
      {
        var item := splitted[i];
        if item != [] {
          var sha := Substr(item, 0, IdLength);
          if sha != [] {
            var message := SubstrToEnd(item, MessageStart);
            commits := commits[sha := CommitRecord(message, None)];
          }
        }
        assert splitted[..i + 1][..i] == splitted[..i];
        i := i + 1;
      }
      assert splitted[..|splitted|] == splitted;
    }

    /** Either stderr listener: the chunk is appended to `myError`. */
    method OnStderr(data: string)
      modifies this`myError
      ensures myError == old(myError) + data
    {
      myError := myError + data;
    }

    /** The stdout listener of the `diff-tree` lookup for `sha`. */
    method OnFilesStdout(sha: string, data: string)
      requires sha in commits
      modifies this`commits
      ensures commits == AttachFiles(old(commits), sha, data)
    {
      var files := FilterTruthy(Split(data, '\n'));
      commits := commits[sha := commits[sha].(files := Some(files))];
    }

    /** The gate after the `git log` call: it fails when any diagnostic text has accumulated. */
    method CheckErrors() returns (gate: Gate)
      ensures gate.Fail? <==> myError != []
      ensures gate.Fail? ==> gate.error == myError
    {
      if myError != [] {
        gate := Fail(myError);
      } else {
        gate := Pass;
      }
    }

    /** The listeners of the `git log` call, fed its chunks in arrival order. */
    method ReceiveLog(log: seq<Output>)
      modifies this
      ensures commits == LogCommits(old(commits), log)
      ensures myError == old(myError) + StderrText(log)
    {
      var i := 0;
      while i < |log|
        invariant 0 <= i <= |log|
        invariant commits == LogCommits(old(commits), log[..i])
        invariant myError == old(myError) + StderrText(log[..i])
      {
        LogStep(old(commits), old(myError), log, i);
        var chunk := log[i];
        if chunk.Stdout? {
          OnLogStdout(chunk.data);
        } else {
          OnStderr(chunk.data);
        }
        i := i + 1;
      }
      assert log[..|log|] == log;
    }

    /** The listeners of the lookups, fed their chunks in the order they arrive. */
    method ReceiveLookups(lookups: seq<LookupOutput>)
      requires forall i :: 0 <= i < |lookups| ==> lookups[i].sha in commits
      modifies this
      ensures commits == AttachAll(old(commits), lookups)
      ensures myError == old(myError) + StderrText(LookupOutputs(lookups))
    {
      var j := 0;
      while j < |lookups|
        invariant 0 <= j <= |lookups|
        invariant commits == AttachAll(old(commits), lookups[..j])
        invariant myError == old(myError) + StderrText(LookupOutputs(lookups[..j]))
      {
        LookupErrorsStep(old(myError), lookups, j);
        AttachAllSnoc(old(commits), lookups, j);
        var chunk := lookups[j];
        if chunk.output.Stdout? {
          OnFilesStdout(chunk.sha, chunk.output.data);
        } else {
          OnStderr(chunk.output.data);
        }
        j := j + 1;
      }
      assert lookups[..|lookups|] == lookups;
    }
  }

  /**
    One whole run over the chunks the listeners receive: the `git log`
    chunks, the gate, the lookup chunks in the order they arrive, the gate
    again.
  */
  method ExecuteRun(log: seq<Output>, lookups: seq<LookupOutput>) returns (result: RunResult)
    requires forall i :: 0 <= i < |lookups| ==> lookups[i].sha in LogCommits(map[], log)
    requires StderrText(log) == [] ==> LookupsSettle(LogCommits(map[], log).Keys, lookups)
    ensures result == Run(log, lookups)
  {
    var run := new ActionRun();
    run.ReceiveLog(log);
    var gate := run.CheckErrors();
    if gate.Fail? {
      return Aborted(gate.error);
    }
    run.ReceiveLookups(lookups);
    gate := run.CheckErrors();
    if gate.Fail? {
      return Aborted(gate.error);
    }
    return Completed(run.commits);
  }

  /**
    The run as the code drives it: the `git log` chunks, the single gate,
    then the lookup chunks, with no further gate before the map is handed on.
  */
  method ExecuteRunAsWritten(log: seq<Output>, lookups: seq<LookupOutput>) returns (result: RunResult)
    requires forall i :: 0 <= i < |lookups| ==> lookups[i].sha in LogCommits(map[], log)
    requires StderrText(log) == [] ==> LookupsSettle(LogCommits(map[], log).Keys, lookups)
    ensures result == RunAsWritten(log, lookups)
  {
    var run := new ActionRun();
    run.ReceiveLog(log);
    var gate := run.CheckErrors();
    if gate.Fail? {
      return Aborted(gate.error);
    }
    run.ReceiveLookups(lookups);
    return Completed(run.commits);
  }
}
