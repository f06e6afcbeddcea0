/**
  The commit-log parser: each stdout chunk of `git log` is split into lines,
  and every non-empty line `<40-character id><one separator character><message>`
  writes the record `{ message }` under its id in the `commits` object.
  Chunks are parsed one at a time, so a line cut by a chunk boundary is
  parsed as two partial lines.

  This module is the value-level specification; the in-place listener that
  the action runs is `Action.ActionRun.OnLogStdout`.
*/
module CommitLog {
  import opened JsString

  datatype Option<+T> = None | Some(value: T)

  /**
    One entry of `commits`: the message, and the changed files once the
    per-commit lookup has written them (`None` while the field is absent).
  */
  datatype CommitRecord = CommitRecord(message: string, files: Option<seq<string>>)

  type Commits = map<string, CommitRecord>

  /** Width of a full commit hash, the length given to `substr`. */
  const IdLength: nat := 40
  /** Where the message starts: one separator character after the hash. */
  const MessageStart: nat := 41

  /** The id of a log line: its first 40 characters, or the whole of a shorter line. */
  function CommitId(line: string): (sha: string)
    ensures |sha| == Min(IdLength, |line|)
    ensures sha == line[..|sha|]
  {
    Substr(line, 0, IdLength)
  }

  /** The message of a log line: the text after the separator, empty for a line of 41 characters or fewer. */
  function CommitMessage(line: string): (message: string)
    ensures |line| <= MessageStart ==> message == []
    ensures |line| > MessageStart ==> message == line[MessageStart..]
  {
    SubstrToEnd(line, MessageStart)
  }

  /** A line in the provider's format is read back as the id and message it was made of. */
  lemma LogLineRoundTrip(sha: string, separator: char, message: string)
    requires |sha| == IdLength
    ensures CommitId(sha + [separator] + message) == sha
    ensures CommitMessage(sha + [separator] + message) == message
  {
    var line := sha + [separator] + message;
    assert line[..IdLength] == sha;
    assert |line| > MessageStart ==> line[MessageStart..] == message;
  }

  /** A long line is its id, one discarded character and its message. */
  lemma LogLineDecomposition(line: string)
    requires |line| > IdLength
    ensures line == CommitId(line) + [line[IdLength]] + CommitMessage(line)
  {
    if |line| == MessageStart {
      assert line == line[..IdLength] + [line[IdLength]];
    } else {
      assert line == line[..IdLength] + [line[IdLength]] + line[MessageStart..];
    }
  }

  /** The body of the `forEach` callback for one line `item`. */
  function ParseLine(commits: Commits, item: string): (r: Commits)
    ensures item == [] ==> r == commits
    ensures item != [] ==> r == commits[CommitId(item) := CommitRecord(CommitMessage(item), None)]
  {
    if item == [] then commits
    else
      var sha := CommitId(item);
      if sha == [] then commits
      else commits[sha := CommitRecord(CommitMessage(item), None)]
  }

  /** The character between id and message never influences the result. */
  lemma SeparatorIgnored(commits: Commits, line: string, c: char)
    requires |line| > IdLength
    ensures ParseLine(commits, line[IdLength := c]) == ParseLine(commits, line)
  {
    var other := line[IdLength := c];
    assert CommitId(other) == other[..IdLength] == line[..IdLength] == CommitId(line);
    assert |line| > MessageStart ==> other[MessageStart..] == line[MessageStart..];
  }

  /** The `forEach` over the lines of a chunk, in order. No id is ever removed. */
  function ApplyLines(commits: Commits, lines: seq<string>): (r: Commits)
    ensures commits.Keys <= r.Keys
    decreases |lines|
  {
    if lines == [] then commits
    else ParseLine(ApplyLines(commits, lines[..|lines| - 1]), lines[|lines| - 1])
  }

  /**
    The stdout listener of the `git log` call, for one chunk. It is total
    and keeps every id already present.
  */
  function ParseChunk(commits: Commits, data: string): (r: Commits)
    ensures commits.Keys <= r.Keys
  {
    ApplyLines(commits, Split(data, '\n'))
  }

  /** A chunk without a newline is parsed as one line. */
  lemma SingleLineChunk(commits: Commits, data: string)
    requires '\n' !in data
    ensures ParseChunk(commits, data) == ParseLine(commits, data)
  {
    SplitNoSeparator(data, '\n');
    assert [data][..0] == [];
    assert ApplyLines(commits, [data]) == ParseLine(ApplyLines(commits, []), data);
  }

  /** The index of the last non-empty line whose id is `sha`, if any. */
  function LastWriter(lines: seq<string>, sha: string): (j: Option<nat>)
    ensures j.Some? ==> j.value < |lines| && lines[j.value] != [] && CommitId(lines[j.value]) == sha
    ensures j.Some? ==> forall i :: j.value < i < |lines| ==> lines[i] == [] || CommitId(lines[i]) != sha
    ensures j.None? ==> forall i :: 0 <= i < |lines| ==> lines[i] == [] || CommitId(lines[i]) != sha
    decreases |lines|
  {
    if lines == [] then None
    else
      var last := lines[|lines| - 1];
      if last != [] && CommitId(last) == sha then Some(|lines| - 1)
      else LastWriter(lines[..|lines| - 1], sha)
  }

  /**
    What a sequence of lines leaves under every id: the record of the last
    line carrying that id, or the old entry when no line carries it.
  */
  lemma {:induction false} ApplyLinesAt(commits: Commits, lines: seq<string>, sha: string)
    ensures sha in ApplyLines(commits, lines) <==> LastWriter(lines, sha).Some? || sha in commits
    ensures LastWriter(lines, sha).Some? ==>
      ApplyLines(commits, lines)[sha] == CommitRecord(CommitMessage(lines[LastWriter(lines, sha).value]), None)
    ensures LastWriter(lines, sha).None? && sha in commits ==> ApplyLines(commits, lines)[sha] == commits[sha]
  {
    if lines != [] {
      ApplyLinesAt(commits, lines[..|lines| - 1], sha);
    }
  }

  /** Keys after a chunk: the old keys and the id of every non-empty line, nothing else. */
  lemma ApplyLinesKeys(commits: Commits, lines: seq<string>, sha: string)
    ensures sha in ApplyLines(commits, lines) <==>
      sha in commits || exists i :: 0 <= i < |lines| && lines[i] != [] && CommitId(lines[i]) == sha
  {
    ApplyLinesAt(commits, lines, sha);
  }

  /** Every new key is the prefix of a non-empty line: at most 40 characters, exactly 40 for a long line. */
  lemma NewKeysAreIds(commits: Commits, lines: seq<string>, sha: string)
    requires sha in ApplyLines(commits, lines) && sha !in commits
    ensures |sha| <= IdLength
    ensures exists i :: (0 <= i < |lines| && lines[i] != [] && |sha| <= |lines[i]| &&
                         sha == lines[i][..|sha|] && (|lines[i]| >= IdLength ==> |sha| == IdLength))
  {
    ApplyLinesAt(commits, lines, sha);
    var j := LastWriter(lines, sha).value;
    assert lines[j] != [] && sha == lines[j][..|sha|];
  }

  /** When two lines share an id, the later one's message is kept. */
  lemma LastLineWins(commits: Commits, lines: seq<string>, j: nat)
    requires j < |lines| && lines[j] != []
    requires forall i :: j < i < |lines| ==> lines[i] == [] || CommitId(lines[i]) != CommitId(lines[j])
    ensures CommitId(lines[j]) in ApplyLines(commits, lines)
    ensures ApplyLines(commits, lines)[CommitId(lines[j])] == CommitRecord(CommitMessage(lines[j]), None)
  {
    var sha := CommitId(lines[j]);
    ApplyLinesAt(commits, lines, sha);
    var w := LastWriter(lines, sha);
    assert w == Some(j);
  }

  /** An entry whose id no line of the chunk carries is left as it was. */
  lemma UnwrittenEntriesUnchanged(commits: Commits, lines: seq<string>, sha: string)
    requires forall i :: 0 <= i < |lines| ==> lines[i] == [] || CommitId(lines[i]) != sha
    ensures sha in ApplyLines(commits, lines) <==> sha in commits
    ensures sha in commits ==> ApplyLines(commits, lines)[sha] == commits[sha]
  {
    ApplyLinesAt(commits, lines, sha);
  }

  /** Empty lines add and change nothing: dropping them gives the same map. */
  lemma {:induction false} EmptyLinesIgnored(commits: Commits, lines: seq<string>)
    ensures ApplyLines(commits, FilterTruthy(lines)) == ApplyLines(commits, lines)
  {
    if lines != [] {
      var init, last := lines[..|lines| - 1], lines[|lines| - 1];
      assert lines == init + [last];
      FilterTruthyAppend(init, [last]);
      EmptyLinesIgnored(commits, init);
      if last != [] {
        assert FilterTruthy([last]) == [last];
        var kept := FilterTruthy(init) + [last];
        assert kept[..|kept| - 1] == FilterTruthy(init);
      } else {
        assert FilterTruthy([last]) == [];
        assert FilterTruthy(init) + [] == FilterTruthy(init);
      }
    }
  }

  lemma {:induction false} ApplyLinesAppend(commits: Commits, xs: seq<string>, ys: seq<string>)
    ensures ApplyLines(commits, xs + ys) == ApplyLines(ApplyLines(commits, xs), ys)
    decreases |ys|
  {
    if ys == [] {
      assert xs + ys == xs;
    } else {
      var all := xs + ys;
      assert all[..|all| - 1] == xs + ys[..|ys| - 1];
      assert all[|all| - 1] == ys[|ys| - 1];
      ApplyLinesAppend(commits, xs, ys[..|ys| - 1]);
    }
  }

  /** Parsing the same lines again changes nothing: a re-delivered chunk is harmless. */
  lemma ApplyLinesIdempotent(commits: Commits, lines: seq<string>)
    ensures ApplyLines(ApplyLines(commits, lines), lines) == ApplyLines(commits, lines)
  {
    var once := ApplyLines(commits, lines);
    var twice := ApplyLines(once, lines);
    forall sha
      ensures sha in twice <==> sha in once
      ensures sha in once ==> twice[sha] == once[sha]
    {
      ApplyLinesAt(commits, lines, sha);
      ApplyLinesAt(once, lines, sha);
    }
  }

  /**
    A chunk that ends on a line boundary can be parsed separately from the
    next one without changing the result.
  */
  lemma ChunkBoundaryAtNewline(commits: Commits, a: string, b: string)
    requires |a| > 0 && a[|a| - 1] == '\n'
    ensures ParseChunk(ParseChunk(commits, a), b) == ParseChunk(commits, a + b)
  {
    var front := a[..|a| - 1];
    assert a == front + ['\n'] + [];
    assert a + b == front + ['\n'] + b;
    SplitAround(front, '\n', []);
    SplitAround(front, '\n', b);
    var pieces := Split(front, '\n');
    assert Split(a, '\n') == pieces + [[]];
    assert ApplyLines(commits, pieces + [[]]) == ApplyLines(commits, pieces) by {
      assert (pieces + [[]])[..|pieces|] == pieces;
    }
    ApplyLinesAppend(commits, pieces, Split(b, '\n'));
  }

  /** A line cut across two chunks is parsed as two partial lines. */
  lemma LineCutAcrossChunks()
    ensures ParseChunk(ParseChunk(map[], "x"), "y") == map["x" := CommitRecord([], None), "y" := CommitRecord([], None)]
    ensures ParseChunk(map[], "xy") == map["xy" := CommitRecord([], None)]
  {
    SplitNoSeparator("x", '\n');
    SplitNoSeparator("y", '\n');
    SplitNoSeparator("xy", '\n');
    assert ["x"][..0] == [];
    assert ["y"][..0] == [];
    assert ["xy"][..0] == [];
    assert CommitId("xy") == "xy" && CommitMessage("xy") == [];
    assert CommitId("x") == "x" && CommitId("y") == "y";
  }
}
