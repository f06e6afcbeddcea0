/**
  File attribution: the stdout of `git diff-tree --name-only` for one commit
  becomes the `files` list of that commit's record, and of no other.
*/
module FileAttribution {
  import opened JsString
  import opened CommitLog

  /** The changed files of one lookup chunk: its newline-separated pieces without the empty ones. */
  function FileList(data: string): (files: seq<string>)
    ensures forall i :: 0 <= i < |files| ==> files[i] != [] && '\n' !in files[i]
    ensures forall f :: f != [] ==> multiset(files)[f] == multiset(Split(data, '\n'))[f]
  {
    var pieces := Split(data, '\n');
    var files := FilterTruthy(pieces);
    assert forall i :: 0 <= i < |files| ==> files[i] in multiset(pieces);
    files
  }

  /**
    The lookup's output format (one path per line, each line ending in a
    newline) is read back as exactly the list of paths, in order; so is the
    same text without its final newline.
  */
  lemma FileListRoundTrip(paths: seq<string>)
    requires forall i :: 0 <= i < |paths| ==> paths[i] != [] && '\n' !in paths[i]
    ensures FileList(Join(paths, '\n') + "\n") == paths
    ensures FileList(Join(paths, '\n')) == paths
  {
    var text := Join(paths, '\n');
    var pieces := Split(text, '\n');
    SplitAround(text, '\n', []);
    assert text + "\n" == text + ['\n'] + [];
    assert Split(text + "\n", '\n') == pieces + [[]];
    if paths == [] {
      assert pieces == [[]];
      assert FilterTruthy([[]]) == [];
    } else {
      SplitJoin(paths, '\n');
      FilterTruthyKeepsNonEmpty(paths);
    }
    FilterTruthyAppend(pieces, [[]]);
    assert FilterTruthy([[]]) == [];
    assert FilterTruthy(pieces) + [] == paths;
  }

  /**
    The file list keeps the order of the output: the text on either side of a
    newline contributes its paths, the left side's first. So a chunk cut just
    before a newline, or one that starts with one, is read in order too.
  */
  lemma FileListAround(a: string, b: string)
    ensures FileList(a + ['\n'] + b) == FileList(a) + FileList(b)
  {
    SplitAround(a, '\n', b);
    FilterTruthyAppend(Split(a, '\n'), Split(b, '\n'));
  }

  /**
    Storing the file list in the record for `sha`: only that record's `files` is
    written; its message, every other record and the set of ids stay.
  */
  function AttachFiles(commits: Commits, sha: string, data: string): (r: Commits)
    requires sha in commits
    ensures r.Keys == commits.Keys
    ensures r[sha].message == commits[sha].message && r[sha].files == Some(FileList(data))
    ensures forall k :: k in commits && k != sha ==> r[k] == commits[k]
  {
    commits[sha := commits[sha].(files := Some(FileList(data)))]
  }

  /** Lookups for two different commits give the same map whichever completes first. */
  lemma AttachFilesCommute(commits: Commits, a: string, da: string, b: string, db: string)
    requires a in commits && b in commits && a != b
    ensures AttachFiles(AttachFiles(commits, a, da), b, db) == AttachFiles(AttachFiles(commits, b, db), a, da)
  {
  }
}
