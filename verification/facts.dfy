/**
 * What the strategies do to the directory when no I/O call throws: the target file
 * holds the edited content, its previous content sits in the `.bak` file, nothing
 * else changes, and reading the file back as lines gives the intended lines.
 */
module StrategyFacts {
  import opened Wrappers
  import opened Int32
  import opened Lines
  import opened Files
  import opened Replace
  import opened EditConfig
  import opened Strategies

  /** A directory in which every read and write succeeds. */
  const NoFaults: Faults := Faults({}, {})

  /** `after` is `before` with `content` written to `path` behind a backup of the old file. */
  ghost predicate WroteWithBackup(before: FileSystem, after: FileSystem, path: string, content: string) {
    && path in after && after[path] == content
    && (path in before ==> BackupPath(path) in after && after[BackupPath(path)] == before[path])
    && (path !in before ==>
          (BackupPath(path) in after <==> BackupPath(path) in before) &&
          (BackupPath(path) in before ==> after[BackupPath(path)] == before[BackupPath(path)]))
    && UnchangedExcept(before, after, path)
  }

  /** Without faults a write always succeeds and backs up first. */
  lemma WriteWithoutFaults(fs: FileSystem, path: string, content: string)
    ensures WriteFile(fs, NoFaults, path, content).ok
    ensures WroteWithBackup(fs, WriteFile(fs, NoFaults, path, content).files, path, content)
  {
  }

  /** A line edit of an existing file that passes validation writes the edited lines. */
  lemma LineRangeSuccess(m: Modification, fs: FileSystem)
    requires m.filePath in fs
    requires var n := |ReadLines(fs[m.filePath])|; n <= MAX && 1 <= FirstLine(m) <= LastLine(m, n) <= n
    ensures var r := ModifyLineRange(m, fs, NoFaults);
            && r.status == Returned(RangeReplaced(m.startLine, m.endLine))
            && WroteWithBackup(fs, r.files, m.filePath, Join(RangeLines(m, ReadLines(fs[m.filePath]))))
  {
    WriteWithoutFaults(fs, m.filePath, Join(RangeLines(m, ReadLines(fs[m.filePath]))));
  }

  /** The split pieces of a text without carriage returns hold no terminators. */
  lemma BlockNoBreaks(newText: Option<string>)
    requires newText.Some? ==> CR !in newText.value
    ensures AllNoBreaks(Block(newText))
  {
    var b := Block(newText);
    forall k, i | 0 <= k < |b| && 0 <= i < |b[k]| ensures !IsBreak(b[k][i]) {
      assert b[k][i] in b[k];
    }
  }

  /**
   * After a range replacement, reading the file back gives exactly the spliced lines
   * (the old lines before the range, the pieces of the new text, the old lines after
   * the range; see `RangeEdit`). This needs a new text without carriage returns and a
   * non-empty final line (an empty one is lost as a trailing newline).
   */
  lemma LineRangeReadBack(m: Modification, fs: FileSystem)
    requires m.filePath in fs
    requires var n := |ReadLines(fs[m.filePath])|; n <= MAX && 1 <= FirstLine(m) <= LastLine(m, n) <= n
    requires m.newText.Some? ==> CR !in m.newText.value
    requires var e := RangeLines(m, ReadLines(fs[m.filePath])); e == [] || e[|e| - 1] != ""
    ensures ReadLines(ModifyLineRange(m, fs, NoFaults).files[m.filePath]) == RangeLines(m, ReadLines(fs[m.filePath]))
  {
    var e := RangeLines(m, ReadLines(fs[m.filePath]));
    LineRangeWritten(m, fs);
    RangeEditReadable(m, ReadLines(fs[m.filePath]));
    ReadSame(ModifyLineRange(m, fs, NoFaults).files[m.filePath], Join(e), e);
  }

  /** Equal contents read as equal lines. */
  lemma ReadSame(a: string, b: string, ls: seq<string>)
    requires a == b && ReadLines(b) == ls
    ensures ReadLines(a) == ls
  {
  }

  /** Range-edited lines read back as themselves once joined. */
  lemma RangeEditReadable(m: Modification, lines: seq<string>)
    requires AllNoBreaks(lines) && 1 <= FirstLine(m) <= LastLine(m, |lines|) <= |lines|
    requires m.newText.Some? ==> CR !in m.newText.value
    requires var e := RangeLines(m, lines); e == [] || e[|e| - 1] != ""
    ensures ReadLines(Join(RangeLines(m, lines))) == RangeLines(m, lines)
  {
    RangeLinesNoBreaks(m, lines);
    ReadJoin(RangeLines(m, lines));
  }

  /** A range edit with a carriage-return-free text keeps the lines terminator-free. */
  lemma RangeLinesNoBreaks(m: Modification, lines: seq<string>)
    requires AllNoBreaks(lines) && 1 <= FirstLine(m) <= LastLine(m, |lines|) <= |lines|
    requires m.newText.Some? ==> CR !in m.newText.value
    ensures AllNoBreaks(RangeLines(m, lines))
  {
    BlockNoBreaks(m.newText);
    RangeEditNoBreaks(lines, FirstLine(m) - 1, LastLine(m, |lines|) - 1, Block(m.newText));
  }

  /** The content a successful range edit leaves in the target file. */
  lemma LineRangeWritten(m: Modification, fs: FileSystem)
    requires m.filePath in fs
    requires var n := |ReadLines(fs[m.filePath])|; n <= MAX && 1 <= FirstLine(m) <= LastLine(m, n) <= n
    ensures var r := ModifyLineRange(m, fs, NoFaults);
            m.filePath in r.files && r.files[m.filePath] == Join(RangeLines(m, ReadLines(fs[m.filePath])))
  {
    LineRangeSuccess(m, fs);
  }

  /** Splicing terminator-free lines gives terminator-free lines. */
  lemma RangeEditNoBreaks(lines: seq<string>, start: nat, end: nat, block: seq<string>)
    requires start <= end < |lines|
    requires AllNoBreaks(lines) && AllNoBreaks(block)
    ensures AllNoBreaks(RangeEdit(lines, start, end, block))
  {
    var e := RangeEdit(lines, start, end, block);
    forall i | 0 <= i < |e| ensures NoBreaks(e[i]) {
      if i < start {
        assert e[i] == lines[i];
      } else if i < start + |block| {
        assert e[start + (i - start)] == block[i - start];
      } else {
        var j := i - start - |block| + end + 1;
        assert e[start + |block| + (j - end - 1)] == lines[j];
      }
    }
  }

  /**
   * After a single-line replacement the file read back has the same number of lines,
   * line `k` holds the new text and every other line is unchanged, provided the new
   * text holds no terminator and the final line does not end up empty.
   */
  lemma SingleLineReadBack(m: Modification, fs: FileSystem)
    requires m.filePath in fs
    requires var n := |ReadLines(fs[m.filePath])|; n <= MAX && 1 <= TargetLine(m) <= n
    requires NoBreaks(m.newText.GetOr(""))
    requires var lines := ReadLines(fs[m.filePath]);
             LineEdit(lines, TargetLine(m) - 1, m.newText.GetOr(""))[|lines| - 1] != ""
    ensures var lines := ReadLines(fs[m.filePath]);
            var r := ModifySingleLine(m, fs, NoFaults);
            var written := ReadLines(r.files[m.filePath]);
            && r.status == Returned(LineReplaced(m.line))
            && r.files[BackupPath(m.filePath)] == fs[m.filePath]
            && |written| == |lines|
            && written[TargetLine(m) - 1] == m.newText.GetOr("")
            && forall j :: 0 <= j < |lines| && j != TargetLine(m) - 1 ==> written[j] == lines[j]
  {
    var lines := ReadLines(fs[m.filePath]);
    var e := LineEdit(lines, TargetLine(m) - 1, m.newText.GetOr(""));
    WriteWithoutFaults(fs, m.filePath, Join(e));
    forall i | 0 <= i < |e| ensures NoBreaks(e[i]) {
      if i != TargetLine(m) - 1 {
        assert e[i] == lines[i];
      }
    }
    ReadJoin(e);
  }

  /**
   * Replacing a line by its own text is not a no-op: the file is rewritten without
   * its final newline (for content without carriage returns).
   */
  lemma SingleLineDropsFinalNewline(m: Modification, fs: FileSystem)
    requires m.filePath in fs && CR !in fs[m.filePath]
    requires var lines := ReadLines(fs[m.filePath]);
             |lines| <= MAX && 1 <= TargetLine(m) <= |lines| && m.newText == Some(lines[TargetLine(m) - 1])
    ensures ModifySingleLine(m, fs, NoFaults).files[m.filePath] == Chomp(fs[m.filePath])
  {
    var lines := ReadLines(fs[m.filePath]);
    var e := LineEdit(lines, TargetLine(m) - 1, m.newText.GetOr(""));
    assert e == lines;
    WriteWithoutFaults(fs, m.filePath, Join(e));
    JoinReadLines(fs[m.filePath]);
  }

  /** Replacing a keyword by itself, first or global, rewrites the same content behind a backup. */
  lemma KeywordSelfReplace(m: Modification, fs: FileSystem)
    requires m.filePath in fs
    requires m.oldText.GetOr("") == m.newText.GetOr("")
    ensures var r := ReplaceKeyword(m, fs, NoFaults);
            && r.status.Returned?
            && r.files[m.filePath] == fs[m.filePath]
            && r.files[BackupPath(m.filePath)] == fs[m.filePath]
  {
    var content := fs[m.filePath];
    ReplaceAllSelf(content, m.oldText.GetOr(""));
    ReplaceFirstSelf(content, m.oldText.GetOr(""));
    WriteWithoutFaults(fs, m.filePath, content);
  }

  /** Without an occurrence the content stays the same, yet the file is written and backed up. */
  lemma KeywordAbsentStillWrites(m: Modification, fs: FileSystem)
    requires m.filePath in fs
    requires forall j :: !OccursAt(fs[m.filePath], m.oldText.GetOr(""), j)
    ensures var r := ReplaceKeyword(m, fs, NoFaults);
            && r.status == Returned(if m.global == Some(true) then ReplacedAll else ReplacedFirst)
            && r.files[m.filePath] == fs[m.filePath]
            && r.files[BackupPath(m.filePath)] == fs[m.filePath]
  {
    var content := fs[m.filePath];
    ReplaceAllNoOccurrence(content, m.oldText.GetOr(""), m.newText.GetOr(""));
    WriteWithoutFaults(fs, m.filePath, content);
  }

  /** A missing target file is reported by every strategy and nothing is written. */
  lemma MissingFileUntouched(m: Modification, fs: FileSystem, faults: Faults)
    requires m.filePath !in fs
    requires m.kind in {LineRangeKind, SingleLineKind, KeywordKind}
    ensures Apply(m, fs, faults) == Step(Returned(FileNotFound), fs)
  {
  }
}
