# pull-request-changelog: the commit-log parser and error gate, in Dafny

This project models the part of the action's main routine (`src/index.ts`) that makes decisions
before the changelog is rendered:

- **Commit-log parsing.** Each stdout chunk of `git log` is split on `'\n'`. Every non-empty line
  gives an id, its first 40 characters (`substr(0, 40)`), and a message, the text from index 41
  on (`substr(41)`). Character 40 is thrown away. The record `{ message }` is written under the id
  in the `commits` object, and a later line with the same id overwrites an earlier one. Each chunk
  is parsed on its own, so a line cut by a chunk boundary becomes two partial lines.
- **File attribution.** The stdout of `git diff-tree --name-only` for one commit is split on
  `'\n'`, empty strings are dropped, and the result goes into the `files` field of that commit's
  record only.
- **Diagnostics.** Every stderr chunk is appended to `myError`. After the `git log` call the run
  throws exactly when `myError` is non-empty.

Modules:

- `JsString` (`js_string.dfy`): the JavaScript built-ins the code relies on. These are
  `String.prototype.split` with a one-character separator, `substr` with a non-negative start,
  and `filter((i) => i)` on strings. `Join` serves as split's inverse.
- `CommitLog` (`commit_log.dfy`): the parser as functions (`ParseLine`, `ApplyLines`,
  `ParseChunk`). It also has a reference definition of what each id ends up holding
  (`LastWriter`) and the lemmas about the parser.
- `FileAttribution` (`file_attribution.dfy`): the file list and the single-record update.
- `Action` (`action.dfy`):
  - the class `ActionRun`, whose fields `commits` and `myError` are updated in place by the
    listener methods;
  - the gate;
  - two whole-run specifications over the chunks the listeners receive: `RunAsWritten`, with
    the single gate the code has, and `Run`, with the gate checked again after the lookups;
  - the methods `ExecuteRunAsWritten` and `ExecuteRun`, which drive an `ActionRun` through a
    run and are proved equal to those specifications.

Behaviour the model keeps from the code, where a reader might expect otherwise:

- A non-empty line shorter than 40 characters is not skipped. Its whole text becomes an id,
  shorter than 40 characters, with an empty message.
- The check `sha === ''` (src/index.ts:61) can never succeed. `ParseLine`'s contract proves that.
- Stderr of the per-commit lookups is never checked (see Findings).

## Model

| member | source | states |
|---|---|---|
| `JsString.Split` | src/index.ts:55 | `split('\n')` returns at least one piece, and no piece contains the separator |
| `JsString.JoinSplit` | src/index.ts:55 | joining the pieces of a split with the separator gives back the original text |
| `JsString.SplitJoin` | src/index.ts:55 | for any non-empty list of separator-free pieces, splitting their join gives exactly those pieces, so split is the unique such decomposition |
| `JsString.Join` | src/index.ts:55 | joining pieces starts with the first piece and leaves room for one separator between each two pieces; `JoinSplit` and `SplitJoin` make it split's inverse |
| `JsString.SplitAround` | src/index.ts:55 | splitting `a + sep + b` gives the pieces of `a` followed by the pieces of `b` |
| `JsString.Substr` | src/index.ts:60 | `substr(start, length)` returns at most `length` characters starting at `start`, stopping at the end of the string, and the empty string when `start` is past the end |
| `JsString.SubstrToEnd` | src/index.ts:64 | `substr(start)` returns the suffix from `start`, and the empty string when `start` is past the end |
| `JsString.FilterTruthy` | src/index.ts:91 | `filter((i) => i)` keeps no empty string, and keeps every non-empty string as many times as it occurs in the input |
| `JsString.FilterTruthyAppend` | src/index.ts:91 | filtering a concatenation gives the filtered parts in their order, so `filter((i) => i)` keeps the order of what it keeps |
| `CommitLog.CommitId` | src/index.ts:60 | the id is a prefix of the line: its first 40 characters, or the whole line when it is shorter |
| `CommitLog.CommitMessage` | src/index.ts:64 | the message is the suffix from index 41, and is empty for a line of 41 characters or fewer |
| `CommitLog.LogLineRoundTrip` | src/index.ts:60-64 | a line built as 40-character id, any separator, message is read back as that id and that message |
| `CommitLog.LogLineDecomposition` | src/index.ts:60-64 | a line longer than 40 characters equals its id, then character 40, then its message, so only character 40 is discarded |
| `CommitLog.ParseLine` | src/index.ts:57-65 | an empty line changes nothing; a non-empty line sets its id to `{ message }`; the `sha === ''` skip never fires once the empty-line skip has passed |
| `CommitLog.ApplyLines` | src/index.ts:56-66 | the `forEach` over a chunk's lines never removes an id already in `commits` |
| `CommitLog.ParseChunk` | src/index.ts:54-66 | the log stdout listener never removes an id already in `commits` |
| `CommitLog.SingleLineChunk` | src/index.ts:54-66 | a chunk without a newline writes exactly what that one line writes |
| `CommitLog.SeparatorIgnored` | src/index.ts:60-64 | replacing character 40 of a line does not change what the line writes |
| `CommitLog.LastWriter` | src/index.ts:56-66 | finds the last non-empty line whose id is `sha`: no later line has that id, and when there is none, no line has it |
| `CommitLog.ApplyLinesAt` | src/index.ts:56-66 | after a chunk's lines, an id holds the record of its last writing line, or its old entry when no line writes it; it is present exactly when written or present before |
| `CommitLog.ApplyLinesKeys` | src/index.ts:56-66 | the keys after a chunk are exactly the old keys plus the ids of its non-empty lines |
| `CommitLog.NewKeysAreIds` | src/index.ts:60-65 | every key added by a chunk is a prefix of one of its non-empty lines, of length at most 40, and exactly 40 when that line has at least 40 characters |
| `CommitLog.LastLineWins` | src/index.ts:65 | when several lines share an id, the map holds the message of the last of them |
| `CommitLog.UnwrittenEntriesUnchanged` | src/index.ts:65 | an entry whose id no line of the chunk carries is neither added, removed nor changed |
| `CommitLog.EmptyLinesIgnored` | src/index.ts:57-59 | dropping the empty lines of a chunk gives the same map |
| `CommitLog.ApplyLinesAppend` | src/index.ts:56-66 | parsing `xs + ys` equals parsing `xs`, then `ys` |
| `CommitLog.ApplyLinesIdempotent` | src/index.ts:56-66 | parsing the same lines a second time leaves the map unchanged |
| `CommitLog.ChunkBoundaryAtNewline` | src/index.ts:54-66 | when a chunk ends with a newline, parsing it and then the next chunk equals parsing their concatenation |
| `CommitLog.LineCutAcrossChunks` | src/index.ts:54-66 | a line cut across two chunks gives two short ids (`"x"` and `"y"`), where the uncut text gives one id (`"xy"`) |
| `FileAttribution.FileList` | src/index.ts:88-91 | no entry of the file list is empty or contains a newline, and every non-empty piece of the output appears in it as often as in the output |
| `FileAttribution.FileListRoundTrip` | src/index.ts:88-91 | newline-separated paths, with or without a final newline, are read back as exactly those paths in order |
| `FileAttribution.FileListAround` | src/index.ts:88-91 | the file list of `a + '\n' + b` is the list of `a` followed by the list of `b`, so the paths keep their order in any output, including one that starts or ends with a newline or has blank lines |
| `FileAttribution.AttachFiles` | src/index.ts:88 | the update writes only `commits[sha].files`; the ids, that record's message and every other record stay |
| `FileAttribution.AttachFilesCommute` | src/index.ts:85-92 | the lookups of two different commits give the same map whichever completes first |
| `Action.LogCommits` | src/index.ts:52-75 | the listeners of the `git log` call never remove an id from `commits` |
| `Action.StderrTextEmpty` | src/index.ts:71-80 | the accumulated `myError` is empty exactly when every stderr chunk was empty |
| `Action.StderrTextAppend` | src/index.ts:71-73 | `myError` for two runs of chunks is the text of the first followed by the text of the second, so chunk boundaries do not matter |
| `Action.LogCommitsJoined` | src/index.ts:52-75 | when every stdout chunk of the `git log` call but the last ends in a newline, the listeners build the same map as one parse of all the stdout text joined |
| `Action.AttachAll` | src/index.ts:85-98 | the lookups never add or remove an id |
| `Action.LastFilesChunk` | src/index.ts:87-91 | finds the last stdout chunk of the lookup for `sha`: no later chunk of that lookup is stdout, and when there is none, that lookup printed nothing on stdout |
| `Action.AttachAllAt` | src/index.ts:85-98 | after the lookups, a record keeps its parsed message and holds the file list of the last stdout chunk of its own lookup; a record whose lookup printed nothing on stdout is unchanged |
| `Action.RunAsWritten` | src/index.ts:47-104 | for lookups addressed to parsed commits that settle when the log gate passes, the run as written either aborts with non-empty error text, or completes with exactly the ids parsed from the log |
| `Action.Run` | src/index.ts:47-104 | for the same settled lookups, the corrected run aborts only with non-empty error text; when it completes it hands on what the run as written does, and where the run as written aborts it aborts identically |
| `Action.RunAsWrittenAbortsIffLogStderr` | src/index.ts:77-80 | as written, the run aborts exactly when a stderr chunk of the `git log` call was non-empty, whatever the lookups printed |
| `Action.RunAsWrittenHasFiles` | src/index.ts:82-104 | in a completed run as written, every record handed on carries a file list, because every parsed commit's lookup has resolved |
| `Action.LateChunkNotSettled` | src/index.ts:84-102 | one stdout chunk for the only pending commit settles the lookups; a second stdout chunk after it lies past the point where `Promise.all` resumes |
| `Action.RunAbortsIffStderr` | src/index.ts:77-96 | with the gate checked again after the lookups, the run aborts exactly when some stderr chunk, of the log call or of a lookup, was non-empty |
| `Action.RunKeepsParsedCommits` | src/index.ts:82-104 | a completed corrected run passes on exactly the ids parsed from the log, each with its parsed message |
| `Action.RunAsWrittenKeepsParsedCommits` | src/index.ts:82-104 | a completed run as written passes on exactly the ids parsed from the log, each with its parsed message |
| `Action.LookupFailureIgnoredAsWritten` | src/index.ts:85-102 | a log line `a` and a lookup for `a` that prints `warning` on stderr and then `f` and a newline on stdout: the lookup's promise resolves, the run as written completes with `files` `["f"]`, and the corrected run aborts with `warning` |
| `Action.ActionRun.constructor` | src/index.ts:47-49 | a run starts with an empty `commits` object and an empty `myError` |
| `Action.ActionRun.OnLogStdout` | src/index.ts:54-66 | the listener's loop leaves `commits` equal to `ParseChunk` of the old map and the chunk |
| `Action.ActionRun.OnStderr` | src/index.ts:71-73 | `myError` becomes its old text followed by the chunk |
| `Action.ActionRun.OnFilesStdout` | src/index.ts:87-91 | `commits` becomes `AttachFiles` of the old map: only `commits[sha].files` changes |
| `Action.ActionRun.ReceiveLog` | src/index.ts:52-75 | after the `git log` chunks, `commits` is the old map with every stdout chunk parsed in order, and `myError` is the old text followed by the stderr chunks |
| `Action.ActionRun.ReceiveLookups` | src/index.ts:82-98 | after the lookup chunks, `commits` is `AttachAll` of the old map, and `myError` is the old text followed by the lookups' stderr chunks |
| `Action.ActionRun.CheckErrors` | src/index.ts:77-80 | the gate fails exactly when `myError` is non-empty, and then carries `myError` as its error |
| `Action.ExecuteRun` | src/index.ts:47-102 | feeding a run's chunks to the listeners, with the gate after the log call and after the lookups, yields exactly `Run`, for lookups that settle when the log gate passes |
| `Action.ExecuteRunAsWritten` | src/index.ts:47-104 | feeding a run's chunks to the listeners, with the single gate after the log call, yields exactly `RunAsWritten`, for lookups that settle when the log gate passes |

## Left out

- `postToGit` (src/index.ts:14-28) is left out. It is an HTTP POST of the rendered comment, which is network I/O.
- The reads of the Actions context and inputs, and the checks for a missing token or branch (src/index.ts:8-12, 35-40), are left out. They are runtime plumbing, not parsing.
- Spawning the git processes (src/index.ts:43-44, 52, 85) is left out. The model takes the chunks the listeners receive as its input.
- The exit status of the git processes is left out.
- `core.setOutput` is left out.
- The `Promise` fan-out and `Promise.all` (src/index.ts:82-102) are concurrency and are not modelled. The lookup chunks are one interleaving, given as a sequence, and `AttachFilesCommute` shows that lookups for different commits do not interfere.
- A lookup's promise resolves on its first stdout chunk (src/index.ts:92), and `Promise.all` resumes once every promise has resolved (src/index.ts:102). Two kinds of chunk sequence are therefore outside the model, and `RunAsWritten`, `Run`, `ExecuteRunAsWritten`, `ExecuteRun` and the lemmas about them require `LookupsSettle` whenever the log gate passes:
  - When a parsed commit's lookup never prints on stdout, `Promise.all` never resumes. Node exits once the git processes close, without calling `makeTemplate` or `postToGit`. No result of such a run is modelled.
  - A stdout chunk arriving after the chunk that resolves the last pending promise never reaches the map handed to `makeTemplate`. The sequence given to the model ends at that resolving chunk, as `LateChunkNotSettled` shows on an example.
- RunAsWritten, Run, ExecuteRunAsWritten and ExecuteRun: nothing is promised for a run whose log gate passes but whose lookups do not settle, for the reasons above.
- RunAbortsIffStderr, RunKeepsParsedCommits, RunAsWrittenKeepsParsedCommits, RunAsWrittenAbortsIffLogStderr and RunAsWrittenHasFiles: likewise stated only for lookups that settle whenever the log gate passes.
- `makeTemplate` (imported from `./template`, src/index.ts:5, 104) is not part of this model. The changelog classification, rendering and bump-type choice live there. The model stops at the `commits` map handed to it.
- `src/commands.ts` is left out. It only holds shell-command templates with no logic.
- `commitsStr` (src/index.ts:69) is left out. It is accumulated but never read.
- The model uses a Dafny `map`, which has no order. The insertion order that `Object.keys` gives to `makeTemplate` is therefore not modelled.
- A line whose id is exactly `__proto__` would set the object's prototype instead of adding an own key. This is not modelled.
- Chunks are taken as already-decoded text.
  - The decoding done by `Buffer.toString` is not modelled, including a multi-byte character cut by a chunk boundary.
  - Lengths are counted in characters. JavaScript counts UTF-16 code units, which differ for characters outside the Basic Multilingual Plane.

## Findings

| source | as written | input that shows it | evidently intended | confidence | as-written member | corrected member |
|---|---|---|---|---|---|---|
| src/index.ts:94-102 | stderr of every `diff-tree` lookup is appended to `myError`, but `myError` is never checked after `Promise.all`, so the run renders and posts anyway | a log chunk `a` and a lookup for `a` that writes `warning` to stderr and then `f` and a newline to stdout | check `myError` again after the lookups and abort the run, as is done after the log call | medium, not executed | `Action.LookupFailureIgnoredAsWritten` | `Action.RunAbortsIffStderr` |
