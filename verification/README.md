# Copylot edit engine

A Dafny model of the JSON-driven text-edit engine of the Copylot Android app
(`MainActivity.kt`). A run takes a decoded configuration holding a list of
modification instructions. It applies them one after another to the files of a
chosen directory and reports one line per instruction. There are three edit strategies:

- `line_range` replaces an inclusive 1-based range of lines by the lines of a new text;
- `single_line` replaces one line;
- `keyword_replace` replaces the first occurrence of a text, or every occurrence.

Every write first copies the existing file to `<path>.bak`.

The directory is a map from relative path to content. I/O failures are a
`Faults` value: it names the paths whose reads throw and the paths whose writes throw.
That makes the source's per-instruction `catch` reachable. The model reproduces the
Kotlin library behaviour the edits depend on:

- `File.readLines`: it breaks on `\n`, `\r` and `\r\n`, and a final terminator adds no line;
- `split("\n")` and `joinToString("\n")`;
- `String.replace` and `replaceFirst`, including the empty search text, which
  matches at every index. Here an index counts characters (Unicode scalar values),
  where Kotlin counts UTF-16 units; the two differ only for an empty search text on
  text outside the Basic Multilingual Plane (see "Left out");
- the 32-bit wrap-around of `(line ?: 1) - 1`.

Modules, in dependency order:

- `Wrappers`: `Option` and `Result`.
- `Seqs`: regrouping and substitution facts about concatenation.
- `Int32`: Kotlin `Int` and its wrapping decrement.
- `Lines`: `readLines`, `split` and `joinToString`.
- `Files`: the file accessors.
- `Replace`: `indexOf`, `replaceFirst`, `replace`, and the library's `replace` loop as a method.
- `EditConfig`: the records.
- `Strategies`: the range and line checks, the three strategies and the dispatch.
- `StrategyFacts`: the fault-free behaviour of the strategies.
- `Orchestrator`: `processJson`.
- `Scenarios`: concrete runs.

Three behaviours of the code that a reader might not expect, all of which the model follows:

- An empty `old_text` is not a no-op. With `global` it inserts the new text before
  every character and at the end. Otherwise it inserts the new text at the start.
- The range-replaced and line-replaced messages echo the raw nullable fields, so an
  omitted field prints as `null`. The defaulted values are not reported.
- A file read with a trailing newline has no empty last line. An edit that rewrites
  it drops that final newline (`StrategyFacts.SingleLineDropsFinalNewline`).

## Model

| member | source | states |
|---|---|---|
| Strategies.CheckRange | app/src/main/java/dev/copylot/coding/MainActivity.kt:263-268 | an accepted range is ordered and lies within the file's lines |
| Strategies.CheckRangeMeaning | app/src/main/java/dev/copylot/coding/MainActivity.kt:263-268 | despite the 32-bit decrement, the check accepts exactly `1 <= first <= last <= n` (defaults: 1 and n) and yields the zero-based range |
| Strategies.CheckLine | app/src/main/java/dev/copylot/coding/MainActivity.kt:286-289 | an accepted line index lies within the file's lines |
| Strategies.CheckLineMeaning | app/src/main/java/dev/copylot/coding/MainActivity.kt:286-289 | the check accepts exactly `1 <= line <= n` (default 1) and yields `line - 1` |
| Files.ReadContent | app/src/main/java/dev/copylot/coding/MainActivity.kt:316-324 | content is returned exactly when the file exists and its read does not throw; it is the file's content |
| Files.ReadFileLines | app/src/main/java/dev/copylot/coding/MainActivity.kt:327-335 | lines are returned exactly when the content read would succeed, and they are the content split by `readLines` |
| Files.BackupPathDiffers | app/src/main/java/dev/copylot/coding/MainActivity.kt:339-340 | the backup path never coincides with the file it backs up |
| Files.WriteFile | app/src/main/java/dev/copylot/coding/MainActivity.kt:338-349 | the write succeeds exactly when neither the backup copy nor the write throws. On success the file holds the new content and the backup holds the old content. A copy that cannot start changes nothing, and a write that cannot start leaves the target as it was. No other path key changes |
| Lines.Split | app/src/main/java/dev/copylot/coding/MainActivity.kt:272 | `split("\n")` yields one more piece than there are newlines, and no piece holds a newline |
| Lines.JoinSplit | app/src/main/java/dev/copylot/coding/MainActivity.kt:272 | joining the pieces of `split("\n")` with newlines gives back the text |
| Lines.SplitJoin | app/src/main/java/dev/copylot/coding/MainActivity.kt:277 | splitting a newline-join of newline-free lines gives back the lines |
| Lines.ReadLines | app/src/main/java/dev/copylot/coding/MainActivity.kt:331 | `readLines` yields terminator-free lines, and no lines only for empty content |
| Lines.ReadJoin | app/src/main/java/dev/copylot/coding/MainActivity.kt:277 | reading back a newline-join of terminator-free lines whose last line is not empty gives the lines |
| Lines.JoinReadLines | app/src/main/java/dev/copylot/coding/MainActivity.kt:331 | re-joining the lines read from carriage-return-free content gives the content without its final newline |
| Replace.IndexOf | app/src/main/java/dev/copylot/coding/MainActivity.kt:306-308 | `indexOf` finds the leftmost occurrence at or after the start index, or reports that none exists |
| Replace.ReplaceFirst | app/src/main/java/dev/copylot/coding/MainActivity.kt:308 | `replaceFirst` splices the new text over the leftmost occurrence, or leaves the text unchanged when there is none |
| Replace.ReplaceAllNoOccurrence | app/src/main/java/dev/copylot/coding/MainActivity.kt:306 | `replace` without an occurrence leaves the text unchanged |
| Replace.ReplaceAllFirstStep | app/src/main/java/dev/copylot/coding/MainActivity.kt:305-309 | the global replace agrees with the first replace up to and including the first replacement, then replaces all occurrences in the rest |
| Replace.ReplaceAllSelf | app/src/main/java/dev/copylot/coding/MainActivity.kt:306 | replacing every occurrence of a text by itself changes nothing |
| Replace.ReplaceFirstSelf | app/src/main/java/dev/copylot/coding/MainActivity.kt:308 | replacing the first occurrence of a text by itself changes nothing |
| Replace.ReplaceAllLength | app/src/main/java/dev/copylot/coding/MainActivity.kt:306 | the global replace changes the length by the number of non-overlapping occurrences times the length difference |
| Replace.ReplaceFirstLength | app/src/main/java/dev/copylot/coding/MainActivity.kt:308 | the first replace changes the length by the difference of the two texts' lengths when there is an occurrence, and not at all otherwise |
| Replace.ReplaceLoop | app/src/main/java/dev/copylot/coding/MainActivity.kt:306 | the library's `replace` loop (search step at least one, stop at the end) computes the non-overlapping left-to-right replacement |
| Strategies.Block | app/src/main/java/dev/copylot/coding/MainActivity.kt:272 | the inserted block is empty for an absent text; otherwise it has one line per newline plus one, and it joins back to the text |
| Strategies.RangeEdit | app/src/main/java/dev/copylot/coding/MainActivity.kt:270-275 | the lines before the range and the lines after it keep their content and order around the block; the length is `start + block + (n - 1 - end)` |
| Strategies.LineEdit | app/src/main/java/dev/copylot/coding/MainActivity.kt:291-292 | the target line holds the new text, and every other line and the count are unchanged |
| Strategies.Commit | app/src/main/java/dev/copylot/coding/MainActivity.kt:277-278 | the success message is reported exactly when the write returns normally; otherwise the call throws, and the directory is confined as `WriteFile` states |
| Strategies.ModifyLineRange | app/src/main/java/dev/copylot/coding/MainActivity.kt:259-261 | a missing or unreadable file reports "file not found" without a write; otherwise the lines read are edited; only the target and its backup can change |
| Strategies.EditRange | app/src/main/java/dev/copylot/coding/MainActivity.kt:263-278 | a range outside `1..n` reports an invalid range and writes nothing; a valid range writes the joined spliced lines and reports the raw start and end fields |
| Strategies.ModifySingleLine | app/src/main/java/dev/copylot/coding/MainActivity.kt:282-284 | a missing or unreadable file reports "file not found" without a write; otherwise the lines read are edited; only the target and its backup can change |
| Strategies.EditLine | app/src/main/java/dev/copylot/coding/MainActivity.kt:286-295 | a line outside `1..n` reports an invalid line and writes nothing; a valid line becomes the new text (empty when absent), the lines are joined and written, and the raw line field is reported |
| Strategies.ReplaceKeyword | app/src/main/java/dev/copylot/coding/MainActivity.kt:299-313 | for a missing file, "file not found" without a write. With `global` true, every occurrence is replaced. Otherwise the leftmost occurrence is spliced out, or the content is rewritten unchanged when there is none. The write always happens |
| Strategies.Apply | app/src/main/java/dev/copylot/coding/MainActivity.kt:240-245 | the `type` selects the strategy; an unknown type reports itself and touches nothing |
| StrategyFacts.WriteWithoutFaults | app/src/main/java/dev/copylot/coding/MainActivity.kt:338-349 | a fault-free write succeeds, puts the content in place, backs up an existing file and leaves all else alone |
| StrategyFacts.LineRangeSuccess | app/src/main/java/dev/copylot/coding/MainActivity.kt:263-278 | a valid fault-free range edit reports success and writes the spliced lines behind a backup |
| StrategyFacts.LineRangeReadBack | app/src/main/java/dev/copylot/coding/MainActivity.kt:270-277 | reading the edited file back gives exactly the spliced lines |
| StrategyFacts.SingleLineReadBack | app/src/main/java/dev/copylot/coding/MainActivity.kt:286-295 | reading the edited file back gives the same line count, the new text at the target line and every other line unchanged; the backup holds the old content |
| StrategyFacts.SingleLineDropsFinalNewline | app/src/main/java/dev/copylot/coding/MainActivity.kt:291-294 | replacing a line by its own text rewrites the file without its final newline |
| StrategyFacts.KeywordSelfReplace | app/src/main/java/dev/copylot/coding/MainActivity.kt:303-311 | replacing a keyword by itself leaves the content as it was, yet writes it behind a backup |
| StrategyFacts.KeywordAbsentStillWrites | app/src/main/java/dev/copylot/coding/MainActivity.kt:305-312 | without an occurrence, the content is unchanged, yet it is written and backed up, and success is reported |
| StrategyFacts.MissingFileUntouched | app/src/main/java/dev/copylot/coding/MainActivity.kt:259-301 | a missing target reports "file not found" from every strategy and the directory is unchanged |
| Orchestrator.ApplyAll | app/src/main/java/dev/copylot/coding/MainActivity.kt:238-250 | the loop produces one entry per instruction |
| Orchestrator.ProcessJson | app/src/main/java/dev/copylot/coding/MainActivity.kt:228-256 | a decode error, or a missing directory after a successful decode, is the whole report and touches no file. Otherwise entry `i` belongs to instruction `i` |
| Orchestrator.ApplyAllAppend | app/src/main/java/dev/copylot/coding/MainActivity.kt:238-250 | running two instruction lists one after the other is running their concatenation |
| Orchestrator.ReportFollowsInstructions | app/src/main/java/dev/copylot/coding/MainActivity.kt:238-249 | entry `i` names the path of instruction `i` |
| Orchestrator.RunsInOrder | app/src/main/java/dev/copylot/coding/MainActivity.kt:238-250 | instruction `i` runs against the directory the earlier instructions left |
| Orchestrator.UnknownTypeIsolated | app/src/main/java/dev/copylot/coding/MainActivity.kt:240-246 | an instruction of unknown type adds its entry and leaves the other instructions' entries and writes as they would be without it |
| Orchestrator.UntouchedPathsKept | app/src/main/java/dev/copylot/coding/MainActivity.kt:238-250 | a path that no instruction targets, directly or as a backup, keeps its presence and content |
| Orchestrator.ProcessAll | app/src/main/java/dev/copylot/coding/MainActivity.kt:236-250 | the source's loop with a mutable result list computes the same entries and directory as `ApplyAll` |
| Scenarios.ReadSample | app/src/main/java/dev/copylot/coding/MainActivity.kt:331 | `1\n2\n3` reads as three lines |
| Scenarios.ReplaceSecondLine | app/src/main/java/dev/copylot/coding/MainActivity.kt:282-295 | setting line 2 of `1\n2\n3` to `X` gives `1\nX\n3`, a backup of the old content and one entry |
| Scenarios.MissingTarget | app/src/main/java/dev/copylot/coding/MainActivity.kt:283-284 | a missing target is reported and no file, not even a backup, is created |
| Scenarios.LaterSeesEarlier | app/src/main/java/dev/copylot/coding/MainActivity.kt:238-250 | a second keyword instruction sees the first one's write, and the backup holds the intermediate content |

## Left out

- The Compose user interface is not modelled. This covers the text field, the buttons,
  the directory picker, the storage permission requests and `restartMainActivity`.
- JSON decoding is not modelled. It is an input: a decoded `Config` or a decode error
  message.
- Whether a directory was selected (`rootUri`) is a boolean input. The files are read
  from and written to one map. The source checks `rootUri` but uses the app's
  `filesDir`; that difference is not modelled.
- Coroutines and `Dispatchers.IO` are not modelled; a run is sequential.
- Messages are symbolic constructors, not the localized strings. The report is the
  sequence of entries, not their newline-joined string.
- Exception messages are not modelled: a thrown step is `Threw`.
- Charset decoding in `readText` and `readLines` is not modelled: content is a sequence of characters.
- The capacity check of Kotlin's `replace` is not modelled. That check throws
  `OutOfMemoryError` when the estimated length overflows an `Int`; strings here are unbounded.
- Faults are a fixed set of failing paths per run, not failures that vary over time.
- Files.WriteFile: a fault stands for an I/O call that fails before it changes
  anything. `copyTo(overwrite = true)` deletes an existing `.bak` before copying, and
  `writeText` truncates the target before writing. A failure part-way through either
  (a lost or partial backup, a truncated or partly written target) is not modelled.
  `Strategies.Commit` and `Strategies.Apply` inherit this through `Strategies.Contained`.
- Files.WriteFile: paths are compared as strings. `java.io.File` resolves `a.txt`,
  `./a.txt`, `d//a.txt` and `d/../a.txt` to one file, but here they are different keys.
  The "no other path changes" clause holds for keys, not for files on disk.
- Orchestrator.UntouchedPathsKept: holds for path keys. A key that names the same file
  as a targeted path (such as `./a.txt` beside `a.txt`) is not modelled as changing.
- Orchestrator.RunsInOrder: a later instruction sees an earlier write under the same
  key. Two different spellings of one file are not linked.
- Path resolution is not modelled. The source neither normalises paths nor rejects `..`
  or absolute paths that leave the directory, and the model adds no such check.
- Replace.ReplaceLoop: strings are sequences of Unicode scalar values, not UTF-16
  units. With an empty search text, Kotlin's `replace` steps one UTF-16 unit at a time
  and splits a surrogate pair. `writeText` then writes each half as `?`. The model
  inserts the new text only between whole characters. For non-empty search texts the
  two agree, since a well-formed search text cannot start inside a surrogate pair.
- Strategies.CheckRangeMeaning: the exact 1-based reading is stated only for at most
  `Int.MAX_VALUE` lines, the most a Kotlin list can hold.
- Strategies.CheckLineMeaning: the exact 1-based reading is stated only for at most `Int.MAX_VALUE` lines.
- Strategies.EditRange: the invalid and valid cases are stated only for at most `Int.MAX_VALUE` lines.
- Strategies.EditLine: the invalid and valid cases are stated only for at most `Int.MAX_VALUE` lines.
- StrategyFacts.LineRangeReadBack: the read-back is stated only when the new text has no
  carriage return and the final line is not empty. Otherwise `readLines` splits the
  text further, or drops the empty final line.
- StrategyFacts.SingleLineReadBack: the read-back is stated only when the new text has no
  terminator and the final line is not empty, for the same reason.
