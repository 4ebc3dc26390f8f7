# claude-code-flow file utilities, modelled in Dafny

This project models the three utility modules that the `init` command of
claude-code-flow uses to install its workflow files into a project without
destroying what the user already has:

- `src/utils/fs.ts`: reconciling one destination file with a source text
  (`writeFileIfChanged`), merge-copying a source tree into a destination
  directory (`safeCopyMergeDir`), comparing two files (`compareFiles`) and
  writing a timestamped backup copy (`createBackupFile`).
- `src/utils/markdown.ts`: inserting or updating the managed section of a
  markdown file, delimited by the `## DL Agentic Workflow` and
  `## DL Agentic Workflow END` marker lines
  (`insertOrUpdateSectionBySentinels`), and the marker check
  (`validateSentinels`).
- `src/utils/json.ts`: merging the package's MCP server registry into the
  user's `mcp.json` (`deepMergeMcp`) and the read / back up / write
  sequence around it (`mergeAndBackupMcp`), with `readJsonWithBackup` and
  `writeJsonFormatted`.

The filesystem is a class `Fs.FileSystem` holding a map from path to text,
plus a fixed set of paths whose writes the filesystem refuses, so that a
failed write is followed rather than ignored. Directories are implicit in
the paths. The operations that change files are methods on this class, or
take it as a parameter, and each is proved equal to a function on the file
map (`Reconcile`, `MergeFlat` over `Listing`, `BackupStep`, `McpStep`). The
properties are proved about those functions.

The markdown upsert is pure apart from its one file write, so it is a
function from the optional file text (None when the file is absent) to the
outcome and the text written. The markers are a parameter: the program uses
`Markdown.Sentinels`, and every property is proved for any marker pair
satisfying `Markdown.Nested`, which `Sentinels` does (`SentinelsNested`).

`JSON.parse` and the formatted `JSON.stringify` are function parameters
(`parse` returns None where `JSON.parse` throws). The clock reading
`new Date().toISOString()` is the parameter `iso`. The order of
`fs.readdir` is the order of the source tree value. The order of
`Object.entries` is any order: the loop of `deepMergeMcp` picks the next name
with `:|`, and its result does not depend on the choice.

Modules: `Wrappers` (Option, Result), `Types` (the records of
`src/types/index.ts` and JSON values), `Strings` (`indexOf`, `substring`,
`trim`, `trimEnd`, global-regex match counts), `Markdown`, `Fs`, `McpMerge`.

A document whose first marker line is a lone end marker throws the "end
before start" error: the start text is found inside the end marker, so both
searches return the same index (`Markdown.LoneEndMarkerRejected`).

## Model

| member | source | states |
|---|---|---|
| Strings.IndexOfFirst | src/utils/markdown.ts:19-20 | `indexOf` returns -1 exactly when the text does not occur, and otherwise an index where it occurs with no occurrence before it |
| Strings.Substring | src/utils/markdown.ts:41 | `substring(a, b)` has as many characters as the two indices are apart and holds the characters from the smaller index on, so the order of the two indices does not matter |
| Markdown.SentinelsNested | src/utils/markdown.ts:3-4 | the program's two markers are single lines, and the end marker is the start marker followed by a short suffix |
| Markdown.Locate | src/utils/markdown.ts:19-40 | a found region has its start index before its end index, and both indices lie in the document |
| Markdown.InsertOrUpdate | src/utils/markdown.ts:6-54 | the call fails only on an existing document holding the start text; on success it reports created exactly when there is no file, writes a new text exactly when it does not skip, and reports the section found exactly when the document holds the start text |
| Markdown.LocateFacts | src/utils/markdown.ts:19-40 | no start is reported exactly when the start text is absent, and an unterminated section exactly when the start text is present and the end text absent; a region's indices are matches of the markers, and its content starts after the start marker |
| Markdown.UnterminatedSectionFails | src/utils/markdown.ts:30-32 | start text present without an end marker is the missing-end error, and nothing is written |
| Markdown.LoneEndMarkerRejected | src/utils/markdown.ts:34-36 | a document whose first marker line is an end marker gets the end-before-start error, and nothing is appended |
| Markdown.LocateWrittenSection | src/utils/markdown.ts:13-14 | a freshly written block, after any line-ended text free of markers, is found exactly where it was written |
| Markdown.ReadWrittenSection | src/utils/markdown.ts:22-27 | such a block reads back as the trimmed new content |
| Markdown.ReadReplacedSection | src/utils/markdown.ts:47-53 | after an in-place replacement the region is found at the same start, ends after the new content, and reads back as the trimmed new content |
| Markdown.ReplaceKeepsOutside | src/utils/markdown.ts:38-53 | with both markers found the call succeeds with the section found; it writes exactly when the trimmed contents differ, and the written text keeps everything up to the end of the start marker's line and from the end marker on, with the new content on its own line between |
| Markdown.UpsertRoundTrip | src/utils/markdown.ts:6-54 | for content free of the start text and markers on separate lines, every successful call (create, append or replace) leaves a document whose section reads back as the trimmed new content, with the markers still on separate lines |
| Markdown.UpsertIdempotent | src/utils/markdown.ts:43-45 | for new content free of the start text, and a document without the end marker on the start marker's line, a second identical call after a successful one finds the section and skips without writing |
| Markdown.SameLineNeverSettles | src/utils/markdown.ts:39-53 | with the end marker on the start marker's line, every call with new content free of the start text rewrites the file into a longer document in the same state, so repeated such calls never skip |
| Markdown.SameLineCompared | src/utils/markdown.ts:41-43 | in that layout the compared text begins with the end marker, so it never equals new content free of the start text |
| Markdown.SameLineRewritten | src/utils/markdown.ts:48-50 | in that layout the rewritten document has both markers on one line again, and is longer |
| Markdown.CheckedUpsertIdempotent | src/utils/markdown.ts:34-53 | the corrected upsert, which rejects an end marker on the start marker's line, skips on a second identical call after any success, for new content free of the start text |
| Markdown.Judge | src/utils/markdown.ts:60-72 | the verdict is valid exactly when both counts are at most one and equal; multiple starts when more than one start; multiple ends when at most one start and more than one end; mismatched otherwise |
| Markdown.ValidateSentinels | src/utils/markdown.ts:56-72 | the text is valid exactly when the start regex matches at most once and as often as the end regex; it reports multiple start sentinels exactly when the start regex matches more than once |
| Markdown.WrittenSectionCounts | src/utils/markdown.ts:57-58 | in a document holding one written block, with line-ended text before it and any text after it free of the start text, the start regex matches twice (once inside the end marker), the start regex not followed by the end suffix once, and the end regex once |
| Markdown.LoneEndCounts | src/utils/markdown.ts:57-58 | a lone end-marker line gives one start match, no bare start match and one end match |
| Markdown.ValidateRejectsWrittenSection | src/utils/markdown.ts:56-62 | the check as written reports multiple start sentinels (2) for every document holding one written block, whatever text free of the start marker precedes or follows it |
| Markdown.ValidateAcceptsLoneEnd | src/utils/markdown.ts:56-72 | the check as written accepts a lone end-marker line |
| Markdown.BareAcceptsWrittenSection | src/utils/markdown.ts:56-72 | the corrected check accepts every document holding one written block, whatever text free of the start marker precedes or follows it |
| Markdown.BareRejectsLoneEnd | src/utils/markdown.ts:68-70 | the corrected check reports a lone end-marker line as mismatched, 0 start and 1 end |
| Fs.Decide | src/utils/fs.ts:40-63 | created exactly when the destination is absent, skipped exactly when it holds the same content, conflict exactly when it differs without force, updated exactly when it differs with force |
| Fs.Reconcile | src/utils/fs.ts:35-64 | a failed call refused to write the destination and changed nothing; a successful one reports on the destination, which then holds the source content unless it is a conflict and kept its old content; no other path changes |
| Fs.ReconcileOutcome | src/utils/fs.ts:35-64 | the call fails exactly when the decided outcome needs a write to a refused path; on success it reports the decided outcome with its reason |
| Fs.ReconcileKeepsWithoutForce | src/utils/fs.ts:54-59 | without force an existing destination is never changed |
| Fs.ReconcileIdempotent | src/utils/fs.ts:48-52 | after a call that created, updated or skipped, the same call, with or without force, skips with the reason `identical content` and changes nothing |
| Fs.IdenticalIsSkipped | src/utils/fs.ts:22-25 | a destination that compareFiles reports identical to a file holding the source content is skipped |
| Fs.FileSystem.Write | src/utils/fs.ts:62 | the write succeeds exactly when the path is not refused, and then only that path changes |
| Fs.FileSystem.CompareFiles | src/utils/fs.ts:10-29 | `exists` holds exactly when both files exist, `identical` exactly when both exist with equal content |
| Fs.FileSystem.WriteFileIfChanged | src/utils/fs.ts:35-64 | the report and the new files are those of `Reconcile` on the old files |
| Fs.FileSystem.SafeCopyMergeDir | src/utils/fs.ts:66-97 | a missing source directory is an error naming it, with nothing changed; otherwise the reports and new files are those of reconciling the tree's files one after the other in walk order |
| Fs.FileSystem.CopyEntries | src/utils/fs.ts:79-96 | the loop over the directory listing, recursing into subdirectories, equals the flat walk over the listing, stopping at the first failure |
| Fs.MergeFlat | src/utils/fs.ts:81-94 | a walk that finishes reports one result per listed file, in listing order, each naming its destination |
| Fs.ListingBelow | src/utils/fs.ts:82-83 | every file of the walk has its destination path below the destination directory |
| Fs.ListingConcat | src/utils/fs.ts:81-94 | the walk order of two consecutive runs of entries is the walk order of the first followed by that of the second |
| Fs.MergeConcat | src/utils/fs.ts:81-94 | walking two lists of files is walking the first, then, if it finished, the second from the files it left, with the reports concatenated |
| Fs.MergeAdditive | src/utils/fs.ts:66-97 | a merge-copy never deletes a file and never touches a path outside the tree; without force no existing file changes, even when the walk fails |
| Fs.MergeFailure | src/utils/fs.ts:66-97 | a failed merge-copy fails on a refused write to one of the tree's destination paths |
| Fs.MergeReports | src/utils/fs.ts:88-92 | for distinct destinations a finished walk reports one result per file, in walk order, each as decided against the files before the walk |
| Fs.MergeContents | src/utils/fs.ts:66-97 | for distinct destinations, after a finished walk each destination holds its source content, except a conflict, which keeps its old content |
| Fs.MergeNoWrites | src/utils/fs.ts:66-97 | a walk in which no file needs a write finishes and changes nothing |
| Fs.MergeStable | src/utils/fs.ts:66-97 | repeating a finished walk changes nothing and reports every file skipped, except the conflicts, which are conflicts again |
| Fs.DistinctNamesGiveDistinctPaths | src/utils/fs.ts:82-83 | a tree whose sibling names are distinct plain names lists every destination path once |
| Fs.TreeMergeSettles | src/utils/fs.ts:66-97 | for such a tree a finished merge-copy leaves each destination with its source content unless in conflict, and a second merge-copy changes nothing |
| Fs.Sanitize | src/utils/fs.ts:104 | the timestamp keeps its length, with every `:` and `.` replaced by `-` |
| Fs.SanitizeClean | src/utils/fs.ts:104 | the sanitised timestamp holds no `:` and no `.` |
| Fs.BackupPathShape | src/utils/fs.ts:104-105 | the backup path is the file path, a dot, the sanitised timestamp and `.bak`; it differs from the file path, and two files backed up at the same time get different backup paths |
| Fs.FileSystem.CreateBackupFile | src/utils/fs.ts:99-108 | the result and the new files are those of `BackupStep` on the old files |
| Fs.BackupOutcome | src/utils/fs.ts:99-108 | the backup fails with not-found exactly when the file is missing, and otherwise fails exactly on a refused backup path; on success it returns the backup path, which holds a copy of the file, and no other file changes |
| Fs.BackupStep | src/utils/fs.ts:99-108 | a failed backup changes nothing, failing with not-found when the file is missing and otherwise on the refused backup path; the file itself is always kept as it was |
| McpMerge.DeepMergeMcp | src/utils/json.ts:34-55 | the result is `Merged(user, pkg)`, and the count is the number of package server names that the user does not have as a truthy entry |
| McpMerge.AddMissing | src/utils/json.ts:45-52 | the loop over the package entries, in any order, yields the merged registry and the number of names added |
| McpMerge.AddedStep | src/utils/json.ts:46-50 | each package entry is added, and counted, exactly when the registry built so far does not hold its name as a truthy entry, which is exactly when the user's registry does not |
| McpMerge.MergeKeepsOtherFields | src/utils/json.ts:38-43 | every top-level field other than `mcpServers` is kept as it is, and `mcpServers` becomes an object holding the merged registry |
| McpMerge.MergedRegistryContents | src/utils/json.ts:45-52 | no name is lost; truthy user entries are kept unchanged; each added name holds the package's entry; the added names are package names |
| McpMerge.NoPackageServersAddsNothing | src/utils/json.ts:45 | without package servers nothing is added and the user's registry is kept |
| McpMerge.Merged | src/utils/json.ts:34-55 | the merged registry's names are exactly the user's and the package's server names: none is lost and every package server is present |
| McpMerge.MergeConverges | src/utils/json.ts:34-55 | merging the same package into a merged configuration adds nothing and returns it unchanged |
| McpMerge.ReadJson | src/utils/json.ts:6-16 | a missing file reads as None, text that does not parse is an error, and otherwise the result is the parsed value |
| McpMerge.WriteJson | src/utils/json.ts:18-32 | the serialised data becomes the whole file unless the path is refused, and then the write fails and nothing changes |
| McpMerge.MergeAndBackupMcp | src/utils/json.ts:57-89 | the summary and the new files are those of `McpStep` on the old files |
| McpMerge.McpStep | src/utils/json.ts:57-89 | a failure is unparsable JSON, a refused write of the configuration, or a refused backup path; on success the configuration exists, and a backup was made exactly when the result is updated |
| McpMerge.McpOutcomes | src/utils/json.ts:57-89 | text that does not parse is an error with nothing written; the result is created exactly when the file is missing or parses to a falsy value and the write is allowed, and then the file holds the package configuration and the count is the number of package servers, with no backup; skipped and updated happen only to a configuration that parses to a truthy value, and for it the result is skipped exactly when no package server is missing, writing nothing; updated has a backup, writes the merged configuration and counts the package servers that were missing |
| McpMerge.McpBackupBeforeWrite | src/utils/json.ts:83-88 | the configuration file is only overwritten once its backup holds the old text, unless the old text parsed to a falsy value; every update leaves the backup; no other file changes |
| McpMerge.McpBackupFailureKeepsConfig | src/utils/json.ts:83-88 | when the backup cannot be written, a configuration that parses to a truthy value is not updated and no file changes |
| McpMerge.McpRerunSkips | src/utils/json.ts:77-81 | when the configuration a successful run wrote parses back to itself, a second run is skipped and writes nothing |
| McpMerge.SkipsWhenNothingToAdd | src/utils/json.ts:77-81 | a configuration that parses to one already holding every package server is skipped and left alone |

## Left out

- `ensureDir` (fs.ts:6-8, 43, 77): directories are implicit in the paths, so creating one always succeeds and is not modelled.
- `getFileChecksum` (fs.ts:31-33): SHA-256 hashing is outside the model, and no modelled operation calls it.
- I/O errors other than a refused write are not modelled: reads, `pathExists`, `stat` and `readdir` always succeed.
- Markdown.InsertOrUpdate: the upsert's own `fs.writeFile` calls (markdown.ts:14, 26, 52) never fail, because the upsert is a function returning the text to write rather than a method on the filesystem.
- Fs.FileSystem.CompareFiles: does not model the catch branch (fs.ts:26-28), because reads never fail in the model.
- `path.join` normalisation: `Join` is `dir + "/" + name` for plain entry names; `.`/`..` segments and duplicate slashes are not resolved.
- Concurrency: the calls are sequential; `async` interleaving with other processes is not modelled.
- The formatting of `writeJsonFormatted` (`JSON.stringify` with indentation, prettier, and its fallback) is the abstract `serialise` parameter. Both branches of the fallback write the same kind of text, and a refused write fails in either.
- McpMerge.DeepMergeMcp: requires package entries to be objects (the `McpEntry` type), because `{ ...entry }` of a non-object is not modelled.
- McpMerge.DeepMergeMcp: the shallow copy `{ ...userConfig }` shares the user's `mcpServers` object, which the loop then mutates in place. The model builds a new registry, so this aliasing is not captured.
- McpMerge.MergeAndBackupMcp: requires the parsed user value to be falsy or an object whose truthy `mcpServers` is an object; a truthy non-object top-level value (an array, a number) and a non-object registry are not modelled.
- JSON numbers are reals, so `-0` (which `JSON.parse("-0")` yields) is the same number as `0`, and there is no infinity.
- McpMerge.MergeAndBackupMcp: a number too large for a double (`1e400`) parses to `Infinity`, which `JSON.stringify` writes back as `null`; an updated `mcp.json` can lose such a value, and the model, whose `parse` and `serialise` are abstract and whose numbers are exact, does not show it.
- McpMerge.DeepMergeMcp: the test `!merged.mcpServers[name]` (json.ts:47) also sees the members a plain object inherits, so a package server named `constructor`, `toString`, `hasOwnProperty`, `valueOf`, `__proto__` or another `Object.prototype` member counts as present and is never added by the source, while `AddedNames` counts it and `MergedRegistry` adds it; the registry is modelled as a map without a prototype.
- Strings are sequences of characters; JavaScript's UTF-16 code units (surrogate pairs) are not modelled. `trim` removes the ECMAScript white space and line terminator characters listed in `Strings.IsWhitespace`.
- `validateSentinels` returns an error message string; the model returns the verdict with its counts, which determine the message.
- The markdown upsert's message texts for its two errors are not modelled; the error kind is.

## Findings

| source | as written | input that shows it | evidently intended | confidence | as-written member | corrected member |
|---|---|---|---|---|---|---|
| src/utils/markdown.ts:39-53 | when the end marker sits on the start marker's line, `sectionStart` is past `endIndex`, `substring` swaps its arguments, the compared text holds the end marker, and the rewrite inserts the content after the line while keeping everything from the end marker on, so the end marker is duplicated | `## DL Agentic Workflow x ## DL Agentic Workflow END\n` with any new content free of the start text: every call reports `updated` and the file grows | such a layout is rejected like the other malformed layouts, so that a second identical call skips | not executed | Markdown.SameLineNeverSettles | Markdown.CheckedUpsertIdempotent |
| src/utils/markdown.ts:57-62 | the start regex `## DL Agentic Workflow` also matches the start of every end marker, so a document holding exactly one section counts two start sentinels | the block the upsert itself writes, `## DL Agentic Workflow\nx\n## DL Agentic Workflow END\n`, gives "Multiple start sentinels found: 2" | start matches that begin an end marker are not counted, so that one start line and one end line are valid | not executed | Markdown.ValidateRejectsWrittenSection | Markdown.BareAcceptsWrittenSection |
| src/utils/markdown.ts:57-70 | for the same reason a lone end-marker line counts one start and one end and is reported valid | `## DL Agentic Workflow END\n` gives `{ valid: true }`, while the upsert rejects this document | a lone end marker is reported as mismatched, 0 start and 1 end | not executed | Markdown.ValidateAcceptsLoneEnd | Markdown.BareRejectsLoneEnd |
