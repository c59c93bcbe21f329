/**
 * The three edit strategies: replace a range of lines, replace one line, and replace
 * a keyword (first occurrence or all). Each reads the target file, validates the
 * instruction against it, and either returns an error message without writing or
 * writes the edited content through the backing-up `WriteFile`.
 */
module Strategies {
  import opened Wrappers
  import opened Int32
  import opened Lines
  import opened Files
  import opened Replace
  import opened EditConfig

  /** A zero-based, inclusive line range `[start, end]`. */
  datatype Range = Range(start: nat, end: nat)

  /**
   * The range check of the line-range strategy: `start = (start_line ?: 1) - 1`,
   * `end = (end_line ?: n) - 1`, both in 32-bit arithmetic, then rejection when
   * `start < 0 || end >= n || start > end`. `None` is the "invalid range" verdict.
   */
  function CheckRange(startLine: Option<i32>, endLine: Option<i32>, n: nat): (r: Option<Range>)
    ensures r.Some? ==> r.value.start <= r.value.end < n
  {
    var start: int := Dec(startLine.GetOr(1)) as int;
    var end: int := if endLine.Some? then Dec(endLine.value) as int else n - 1;
    if start < 0 || end >= n || start > end then None
    else Some(Range(start, end))
  }

  /**
   * The index check of the single-line strategy: `idx = (line ?: 1) - 1` in 32-bit
   * arithmetic, rejected when `idx < 0 || idx >= n`. `None` is "invalid line number".
   */
  function CheckLine(line: Option<i32>, n: nat): (r: Option<nat>)
    ensures r.Some? ==> r.value < n
  {
    var idx: int := Dec(line.GetOr(1)) as int;
    if idx < 0 || idx >= n then None else Some(idx)
  }

  /**
   * Despite the wrap-around, the range check accepts exactly the 1-based ranges
   * `1 <= first <= last <= n` (defaults: first line 1, last line n) and reports
   * them zero-based. A Kotlin list has at most `Int.MAX_VALUE` elements, so `n` is
   * bounded by that. Beyond it the wrapped `Int.MIN_VALUE - 1` would be accepted.
   */
  lemma CheckRangeMeaning(startLine: Option<i32>, endLine: Option<i32>, n: nat)
    ensures var first := startLine.GetOr(1) as int;
            var last := if endLine.Some? then endLine.value as int else n;
            n <= MAX ==>
            && (CheckRange(startLine, endLine, n).Some? <==> 1 <= first <= last <= n)
            && (CheckRange(startLine, endLine, n).Some? ==>
                  CheckRange(startLine, endLine, n).value == Range(first - 1, last - 1))
  {
    var first := startLine.GetOr(1) as int;
    if endLine.Some? && endLine.value as int == MIN {
      assert Dec(endLine.value) as int == MAX;
    }
    if first == MIN {
      assert Dec(startLine.GetOr(1)) as int == MAX;
    }
  }

  /** The line check accepts exactly the 1-based lines `1 <= line <= n` (default line 1). */
  lemma CheckLineMeaning(line: Option<i32>, n: nat)
    ensures var k := line.GetOr(1) as int;
            n <= MAX ==>
            && (CheckLine(line, n).Some? <==> 1 <= k <= n)
            && (CheckLine(line, n).Some? ==> CheckLine(line, n).value == k - 1)
  {
    if line.GetOr(1) as int == MIN {
      assert Dec(line.GetOr(1)) as int == MAX;
    }
  }

  /** The messages a strategy returns, standing for the source's localized strings. */
  datatype Message =
    | FileNotFound
    | InvalidRange
    | InvalidLine
      /** Echoes the raw, possibly absent, fields: defaults are not reported. */
    | RangeReplaced(startLine: Option<i32>, endLine: Option<i32>)
    | LineReplaced(line: Option<i32>)
    | ReplacedAll
    | ReplacedFirst
    | UnknownType(kind: string)
  {
    /** The messages a strategy returns without writing. */
    predicate Failed() {
      FileNotFound? || InvalidRange? || InvalidLine? || UnknownType?
    }
  }

  /** A strategy returns a message, or throws because the write failed. */
  datatype Status = Returned(message: Message) | Threw

  /** The status of one strategy call and the directory after it. */
  datatype Step = Step(status: Status, files: FileSystem)

  /**
   * What a strategy call may do to the directory: an error message comes without a
   * write; a success message comes after the old content of the existing target was
   * copied to its backup; a throw (a failure before any change, see `Faults`) leaves
   * the target as it was; and no path other than the target and its backup changes.
   */
  ghost predicate Contained(fs: FileSystem, path: string, r: Step) {
    && (r.status.Returned? && r.status.message.Failed() ==> r.files == fs)
    && (r.status.Returned? && !r.status.message.Failed() ==>
          path in fs && path in r.files && BackupPath(path) in r.files && r.files[BackupPath(path)] == fs[path])
    && (r.status.Threw? ==> path in fs && path in r.files && r.files[path] == fs[path])
    && UnchangedExcept(fs, r.files, path)
  }

  /** Writing `content` and reporting the success `message` if the write returns normally. */
  function Commit(fs: FileSystem, faults: Faults, path: string, content: string, message: Message): (r: Step)
    requires !message.Failed()
    ensures r.files == WriteFile(fs, faults, path, content).files
    ensures r.status == (if WriteFile(fs, faults, path, content).ok then Returned(message) else Threw)
    ensures path in fs ==> Contained(fs, path, r)
  {
    var w := WriteFile(fs, faults, path, content);
    Step(if w.ok then Returned(message) else Threw, w.files)
  }

  /** The lines inserted by a range replacement: the split text, or none when absent. */
  function Block(newText: Option<string>): (b: seq<string>)
    ensures newText.None? ==> b == []
    ensures newText.Some? ==> |b| == CountChar(newText.value, NL) + 1 && Join(b) == newText.value
  {
    if newText.Some? then
      JoinSplit(newText.value);
      Split(newText.value)
    else []
  }

  /**
   * Lines `start..end` (zero-based, inclusive) replaced by `block`: the lines before
   * `start` and after `end` keep their content and order around the new block.
   */
  function RangeEdit(lines: seq<string>, start: nat, end: nat, block: seq<string>): (r: seq<string>)
    requires start <= end < |lines|
    ensures |r| == start + |block| + (|lines| - 1 - end)
    ensures forall i :: 0 <= i < start ==> r[i] == lines[i]
    ensures forall i :: 0 <= i < |block| ==> r[start + i] == block[i]
    ensures forall j :: end < j < |lines| ==> r[start + |block| + (j - end - 1)] == lines[j]
  {
    // The source takes an empty tail when `end` is the last line; `lines[end + 1..]`
    // is then empty as well.
    var head, tail := lines[..start], lines[end + 1..];
    var r := head + block + tail;
    assert |head| == start && |tail| == |lines| - 1 - end;
    assert forall i :: 0 <= i < start ==> r[i] == head[i];
    assert forall i :: 0 <= i < |block| ==> r[start + i] == block[i];
    assert forall j :: end < j < |lines| ==> r[start + |block| + (j - end - 1)] == lines[j];
    r
  }

  /** Line `idx` replaced by `text`; every other line is kept. */
  function LineEdit(lines: seq<string>, idx: nat, text: string): (r: seq<string>)
    requires idx < |lines|
    ensures |r| == |lines| && r[idx] == text
    ensures forall j :: 0 <= j < |lines| && j != idx ==> r[j] == lines[j]
  {
    lines[idx := text]
  }

  /** The first line (1-based) a range instruction names: `start_line`, default 1. */
  function FirstLine(m: Modification): int {
    m.startLine.GetOr(1) as int
  }

  /** The last line (1-based) a range instruction names: `end_line`, default the line count. */
  function LastLine(m: Modification, n: nat): int {
    if m.endLine.Some? then m.endLine.value as int else n
  }

  /** The lines a valid range instruction leaves: `RangeEdit` at the instruction's 1-based range. */
  function RangeLines(m: Modification, lines: seq<string>): seq<string>
    requires 1 <= FirstLine(m) <= LastLine(m, |lines|) <= |lines|
  {
    RangeEdit(lines, FirstLine(m) - 1, LastLine(m, |lines|) - 1, Block(m.newText))
  }

  /** The line (1-based) a single-line instruction names: `line`, default 1. */
  function TargetLine(m: Modification): int {
    m.line.GetOr(1) as int
  }

  /**
   * `modifyLineRange`. A missing or unreadable file gives `FileNotFound` without a
   * write; otherwise the lines `readLines` returns are edited by `EditRange`.
   */
  function ModifyLineRange(m: Modification, fs: FileSystem, faults: Faults): (r: Step)
    ensures ReadContent(fs, faults, m.filePath).None? ==> r == Step(Returned(FileNotFound), fs)
    ensures ReadContent(fs, faults, m.filePath).Some? ==> r == EditRange(m, fs, faults, ReadLines(fs[m.filePath]))
    ensures Contained(fs, m.filePath, r)
  {
    match ReadFileLines(fs, faults, m.filePath)
    case None => Step(Returned(FileNotFound), fs)
    case Some(lines) => EditRange(m, fs, faults, lines)
  }

  /**
   * The part of `modifyLineRange` after the file was read as `lines`. A range outside
   * `1 <= first <= last <= n` (first line defaulting to 1, last to the line count `n`)
   * gives `InvalidRange` without a write. Otherwise the lines `first..last` are
   * replaced by the split new text, and the result is joined and written.
   */
  function EditRange(m: Modification, fs: FileSystem, faults: Faults, lines: seq<string>): (r: Step)
    requires m.filePath in fs
    ensures var first, last := FirstLine(m), LastLine(m, |lines|);
            |lines| <= MAX ==>
              && (!(1 <= first <= last <= |lines|) ==> r == Step(Returned(InvalidRange), fs))
              && (1 <= first <= last <= |lines| ==>
                    r == Commit(fs, faults, m.filePath, Join(RangeLines(m, lines)),
                                RangeReplaced(m.startLine, m.endLine)))
    ensures Contained(fs, m.filePath, r)
  {
    CheckRangeMeaning(m.startLine, m.endLine, |lines|);
    match CheckRange(m.startLine, m.endLine, |lines|)
    case None => Step(Returned(InvalidRange), fs)
    case Some(range) =>
      CheckedRangeLines(m, lines, range);
      Commit(fs, faults, m.filePath, Join(RangeEdit(lines, range.start, range.end, Block(m.newText))),
             RangeReplaced(m.startLine, m.endLine))
  }

  /** The range the check accepts is the instruction's 1-based range, zero-based. */
  lemma CheckedRangeLines(m: Modification, lines: seq<string>, range: Range)
    requires CheckRange(m.startLine, m.endLine, |lines|) == Some(range)
    ensures |lines| <= MAX ==>
              && 1 <= FirstLine(m) <= LastLine(m, |lines|) <= |lines|
              && RangeEdit(lines, range.start, range.end, Block(m.newText)) == RangeLines(m, lines)
  {
    CheckRangeMeaning(m.startLine, m.endLine, |lines|);
  }

  /**
   * `modifySingleLine`. A missing or unreadable file gives `FileNotFound` without a
   * write; otherwise the lines `readLines` returns are edited by `EditLine`.
   */
  function ModifySingleLine(m: Modification, fs: FileSystem, faults: Faults): (r: Step)
    ensures ReadContent(fs, faults, m.filePath).None? ==> r == Step(Returned(FileNotFound), fs)
    ensures ReadContent(fs, faults, m.filePath).Some? ==> r == EditLine(m, fs, faults, ReadLines(fs[m.filePath]))
    ensures Contained(fs, m.filePath, r)
  {
    match ReadFileLines(fs, faults, m.filePath)
    case None => Step(Returned(FileNotFound), fs)
    case Some(lines) => EditLine(m, fs, faults, lines)
  }

  /**
   * The part of `modifySingleLine` after the file was read as `lines`. A line outside
   * `1..n` (defaulting to 1) gives `InvalidLine` without a write. Otherwise that line
   * becomes the new text (empty when absent) and the lines are joined and written.
   */
  function EditLine(m: Modification, fs: FileSystem, faults: Faults, lines: seq<string>): (r: Step)
    requires m.filePath in fs
    ensures var k := TargetLine(m);
            |lines| <= MAX ==>
              && (!(1 <= k <= |lines|) ==> r == Step(Returned(InvalidLine), fs))
              && (1 <= k <= |lines| ==>
                    r == Commit(fs, faults, m.filePath, Join(LineEdit(lines, k - 1, m.newText.GetOr(""))),
                                LineReplaced(m.line)))
    ensures Contained(fs, m.filePath, r)
  {
    CheckLineMeaning(m.line, |lines|);
    match CheckLine(m.line, |lines|)
    case None => Step(Returned(InvalidLine), fs)
    case Some(idx) =>
      Commit(fs, faults, m.filePath, Join(LineEdit(lines, idx, m.newText.GetOr(""))), LineReplaced(m.line))
  }

  /** The keyword replacement applied to the whole content. */
  function Rewrite(content: string, m: Modification): string {
    var oldText := m.oldText.GetOr("");
    var newText := m.newText.GetOr("");
    if m.global == Some(true) then ReplaceAll(content, oldText, newText)
    else ReplaceFirst(content, oldText, newText)
  }

  /**
   * `replaceKeyword`. A missing or unreadable file gives `FileNotFound` without a write.
   * Otherwise, with `global` true every occurrence of the old text (empty when absent)
   * is replaced, else only the leftmost; the result is written even when nothing was
   * replaced, so the file is backed up regardless.
   */
  function ReplaceKeyword(m: Modification, fs: FileSystem, faults: Faults): (r: Step)
    ensures ReadContent(fs, faults, m.filePath).None? ==> r == Step(Returned(FileNotFound), fs)
    ensures ReadContent(fs, faults, m.filePath).Some? ==>
              var content := fs[m.filePath];
              var oldText := m.oldText.GetOr("");
              var newText := m.newText.GetOr("");
              && (m.global == Some(true) ==>
                    r == Commit(fs, faults, m.filePath, ReplaceAll(content, oldText, newText), ReplacedAll))
              && (m.global != Some(true) && (forall j :: !OccursAt(content, oldText, j)) ==>
                    r == Commit(fs, faults, m.filePath, content, ReplacedFirst))
              && (forall i :: m.global != Some(true) && FirstFrom(content, oldText, 0, i) ==>
                    r == Commit(fs, faults, m.filePath,
                                content[..i] + newText + content[i + |oldText|..], ReplacedFirst))
    ensures Contained(fs, m.filePath, r)
  {
    match ReadContent(fs, faults, m.filePath)
    case None => Step(Returned(FileNotFound), fs)
    case Some(content) =>
      Commit(fs, faults, m.filePath, Rewrite(content, m),
             if m.global == Some(true) then ReplacedAll else ReplacedFirst)
  }

  /** `processJson`'s dispatch on the instruction's `type`. */
  function Apply(m: Modification, fs: FileSystem, faults: Faults): (r: Step)
    ensures m.kind == LineRangeKind ==> r == ModifyLineRange(m, fs, faults)
    ensures m.kind == SingleLineKind ==> r == ModifySingleLine(m, fs, faults)
    ensures m.kind == KeywordKind ==> r == ReplaceKeyword(m, fs, faults)
    ensures m.kind !in {LineRangeKind, SingleLineKind, KeywordKind} ==>
              r == Step(Returned(UnknownType(m.kind)), fs)
    ensures Contained(fs, m.filePath, r)
  {
    if m.kind == LineRangeKind then ModifyLineRange(m, fs, faults)
    else if m.kind == SingleLineKind then ModifySingleLine(m, fs, faults)
    else if m.kind == KeywordKind then ReplaceKeyword(m, fs, faults)
    else Step(Returned(UnknownType(m.kind)), fs)
  }
}
