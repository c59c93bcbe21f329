/**
 * `processJson`: decode the configuration, require a selected directory, then run the
 * instructions in document order against the directory, one report entry each.
 */
module Orchestrator {
  import opened Wrappers
  import opened Files
  import opened EditConfig
  import opened Strategies
  import opened Seqs

  /** One report line: `file: <path> - <message>`, or `- error: ...` when the step threw. */
  datatype Entry = Entry(path: string, status: Status)

  /** The report of a run: a decode error, the missing-directory error, or one entry per instruction. */
  datatype Report = ParseError(reason: string) | NoDirectory | Entries(entries: seq<Entry>)

  datatype Run = Run(report: Report, files: FileSystem)

  /** The entries so far and the directory they left behind. */
  datatype Progress = Progress(entries: seq<Entry>, files: FileSystem)

  /**
   * The `for` loop over the instructions: each one is applied to the directory the
   * previous ones left, and its status, thrown or returned, becomes its entry.
   */
  function ApplyAll(mods: seq<Modification>, fs: FileSystem, faults: Faults): (r: Progress)
    ensures |r.entries| == |mods|
    decreases |mods|
  {
    if mods == [] then Progress([], fs)
    else
      var step := Apply(mods[0], fs, faults);
      var rest := ApplyAll(mods[1..], step.files, faults);
      Progress([Entry(mods[0].filePath, step.status)] + rest.entries, rest.files)
  }

  /**
   * `processJson`. A decode failure is the whole report and a missing directory is
   * checked only after a successful decode; neither touches a file.
   */
  function ProcessJson(decoded: Result<Config>, rootSelected: bool, fs: FileSystem, faults: Faults): (r: Run)
    ensures decoded.Failure? ==> r == Run(ParseError(decoded.error), fs)
    ensures decoded.Success? && !rootSelected ==> r == Run(NoDirectory, fs)
    ensures decoded.Success? && rootSelected ==>
              var mods := decoded.value.modifications;
              && r.report.Entries?
              && |r.report.entries| == |mods|
              && (forall i :: 0 <= i < |mods| ==> r.report.entries[i].path == mods[i].filePath)
              && r.report.entries == ApplyAll(mods, fs, faults).entries
              && r.files == ApplyAll(mods, fs, faults).files
  {
    match decoded
    case Failure(reason) => Run(ParseError(reason), fs)
    case Success(config) =>
      if !rootSelected then Run(NoDirectory, fs)
      else
        ReportFollowsInstructions(config.modifications, fs, faults);
        var done := ApplyAll(config.modifications, fs, faults);
        Run(Entries(done.entries), done.files)
  }

  /** Running `a` then `b` is running `a + b`: the directory is threaded through. */
  lemma {:induction false} ApplyAllAppend(a: seq<Modification>, b: seq<Modification>, fs: FileSystem, faults: Faults)
    ensures var first := ApplyAll(a, fs, faults);
            var second := ApplyAll(b, first.files, faults);
            ApplyAll(a + b, fs, faults) == Progress(first.entries + second.entries, second.files)
    decreases |a|
  {
    if a == [] {
      assert a + b == b;
    } else {
      var step := Apply(a[0], fs, faults);
      assert (a + b)[0] == a[0];
      assert (a + b)[1..] == a[1..] + b;
      ApplyAllAppend(a[1..], b, step.files, faults);
      var first := ApplyAll(a[1..], step.files, faults);
      Associate([Entry(a[0].filePath, step.status)], first.entries, ApplyAll(b, first.files, faults).entries);
    }
  }

  /** Entry `i` of the report belongs to instruction `i`. */
  lemma {:induction false} ReportFollowsInstructions(mods: seq<Modification>, fs: FileSystem, faults: Faults)
    ensures forall i :: 0 <= i < |mods| ==> ApplyAll(mods, fs, faults).entries[i].path == mods[i].filePath
    decreases |mods|
  {
    if mods != [] {
      var step := Apply(mods[0], fs, faults);
      ReportFollowsInstructions(mods[1..], step.files, faults);
      var rest := ApplyAll(mods[1..], step.files, faults).entries;
      forall i | 0 <= i < |mods| ensures ApplyAll(mods, fs, faults).entries[i].path == mods[i].filePath {
        if i > 0 {
          assert ApplyAll(mods, fs, faults).entries[i] == rest[i - 1];
          assert mods[1..][i - 1] == mods[i];
        }
      }
    }
  }

  /**
   * Instruction `i` runs against the directory left by instructions `0..i`: a later
   * instruction sees the writes of earlier ones to the same path.
   */
  lemma RunsInOrder(mods: seq<Modification>, fs: FileSystem, faults: Faults, i: nat)
    requires i < |mods|
    ensures var before := ApplyAll(mods[..i], fs, faults).files;
            ApplyAll(mods, fs, faults).entries[i] == Entry(mods[i].filePath, Apply(mods[i], before, faults).status)
  {
    var before := ApplyAll(mods[..i], fs, faults);
    ApplyAllAppend(mods[..i], mods[i..], fs, faults);
    assert mods[..i] + mods[i..] == mods;
    assert mods[i..][0] == mods[i];
  }

  /**
   * An instruction of unknown type yields its `UnknownType` entry and changes nothing:
   * the other instructions report and write as if it were not there.
   */
  lemma UnknownTypeIsolated(a: seq<Modification>, u: Modification, b: seq<Modification>,
                            fs: FileSystem, faults: Faults)
    requires u.kind !in {LineRangeKind, SingleLineKind, KeywordKind}
    ensures var before := ApplyAll(a, fs, faults);
            var after := ApplyAll(b, before.files, faults);
            && ApplyAll(a + [u] + b, fs, faults)
                 == Progress(before.entries + [Entry(u.filePath, Returned(UnknownType(u.kind)))] + after.entries,
                             after.files)
            && ApplyAll(a + b, fs, faults) == Progress(before.entries + after.entries, after.files)
  {
    var before := ApplyAll(a, fs, faults);
    var after := ApplyAll(b, before.files, faults);
    var entry := Entry(u.filePath, Returned(UnknownType(u.kind)));
    assert ([u] + b)[0] == u && ([u] + b)[1..] == b;
    ApplyAllAppend(a, [u] + b, fs, faults);
    Associate(a, [u], b);
    Associate(before.entries, [entry], after.entries);
    ApplyAllAppend(a, b, fs, faults);
  }

  /** The paths an instruction may write: its target and the target's backup. */
  function Touched(m: Modification): set<string> {
    {m.filePath, BackupPath(m.filePath)}
  }

  /** A path no instruction targets, directly or as a backup, keeps its presence and content. */
  lemma {:induction false} UntouchedPathsKept(mods: seq<Modification>, fs: FileSystem, faults: Faults, q: string)
    requires forall i :: 0 <= i < |mods| ==> q !in Touched(mods[i])
    ensures var after := ApplyAll(mods, fs, faults).files;
            (q in after <==> q in fs) && (q in fs ==> after[q] == fs[q])
    decreases |mods|
  {
    if mods != [] {
      var step := Apply(mods[0], fs, faults);
      assert q !in Touched(mods[0]);
      assert (q in step.files <==> q in fs) && (q in fs ==> step.files[q] == fs[q]);
      UntouchedPathsKept(mods[1..], step.files, faults, q);
    }
  }

  /**
   * The same loop as `ApplyAll`, written as the source writes it: a mutable result
   * list and directory updated once per instruction.
   */
  method ProcessAll(mods: seq<Modification>, fs: FileSystem, faults: Faults)
    returns (results: seq<Entry>, files: FileSystem)
    ensures Progress(results, files) == ApplyAll(mods, fs, faults)
    ensures |results| == |mods|
  {
    results, files := [], fs;
    var i := 0;
    while i < |mods|
      invariant 0 <= i <= |mods|
      invariant Progress(results, files) == ApplyAll(mods[..i], fs, faults)
    {
      var step := Apply(mods[i], files, faults);
      ApplyAllAppend(mods[..i], [mods[i]], fs, faults);
      assert mods[..i + 1] == mods[..i] + [mods[i]];
      results := results + [Entry(mods[i].filePath, step.status)];
      files := step.files;
      i := i + 1;
    }
    assert mods[..i] == mods;
  }
}
