/** Concrete runs of `processJson` on small directories. */
module Scenarios {
  import opened Wrappers
  import opened Int32
  import opened Lines
  import opened Files
  import opened EditConfig
  import opened Strategies
  import opened StrategyFacts
  import opened Orchestrator
  import opened Replace

  function SingleLine(path: string, line: i32, text: string): Modification {
    Modification(SingleLineKind, path, None, None, Some(line), None, Some(text), None)
  }

  function Keyword(path: string, oldText: string, newText: string, global: bool): Modification {
    Modification(KeywordKind, path, None, None, None, Some(oldText), Some(newText), Some(global))
  }

  /** The three-line file `1`, `2`, `3`, without a final newline. */
  function Sample(): string {
    Join(["1", "2", "3"])
  }

  lemma ReadSample()
    ensures ReadLines(Sample()) == ["1", "2", "3"]
  {
    ReadJoin(["1", "2", "3"]);
  }

  /** Line 2 of the sample becomes `X` and the previous content goes to the backup. */
  lemma SampleStep()
    ensures var step := ModifySingleLine(SingleLine("a.txt", 2, "X"), map["a.txt" := Sample()], NoFaults);
            && step.status == Returned(LineReplaced(Some(2)))
            && step.files == map["a.txt" := Sample()][BackupPath("a.txt") := Sample()]["a.txt" := Join(["1", "X", "3"])]
  {
    var fs := map["a.txt" := Sample()];
    var m := SingleLine("a.txt", 2, "X");
    ReadSample();
    assert ReadContent(fs, NoFaults, m.filePath).Some?;
    assert CheckLine(m.line, 3) == Some(1);
    assert LineEdit(["1", "2", "3"], 1, "X") == ["1", "X", "3"];
  }

  /** The whole run of that one instruction: one entry, the edited file and its backup. */
  lemma ReplaceSecondLine()
    ensures var run := ProcessJson(Success(Config([SingleLine("a.txt", 2, "X")])), true,
                                   map["a.txt" := Sample()], NoFaults);
            && run.report == Entries([Entry("a.txt", Returned(LineReplaced(Some(2))))])
            && run.files.Keys == {"a.txt", BackupPath("a.txt")}
            && run.files["a.txt"] == Join(["1", "X", "3"])
            && run.files[BackupPath("a.txt")] == Sample()
  {
    SampleStep();
    BackupPathDiffers("a.txt");
    var m := SingleLine("a.txt", 2, "X");
    assert [m][1..] == [];
  }

  /** A missing target is reported and no file, not even a backup, is created. */
  lemma MissingTarget()
    ensures var fs := map["a.txt" := "1"];
            var run := ProcessJson(Success(Config([SingleLine("missing.txt", 1, "X")])), true, fs, NoFaults);
            && run.report == Entries([Entry("missing.txt", Returned(FileNotFound))])
            && run.files == fs
  {
  }

  /** Replacing the first `a` of `a` by `b`. */
  lemma FirstKeywordStep()
    ensures Apply(Keyword("k.txt", "a", "b", false), map["k.txt" := "a"], NoFaults)
              == Step(Returned(ReplacedFirst), map["k.txt" := "a"][BackupPath("k.txt") := "a"]["k.txt" := "b"])
  {
    assert FirstFrom("a", "a", 0, 0);
    assert "a"[..0] + "b" + "a"[1..] == "b";
  }

  /** Replacing every `b` of `b` by `c`. */
  lemma SecondKeywordStep(fs: FileSystem)
    requires "k.txt" in fs && fs["k.txt"] == "b"
    ensures Apply(Keyword("k.txt", "b", "c", true), fs, NoFaults)
              == Step(Returned(ReplacedAll), fs[BackupPath("k.txt") := "b"]["k.txt" := "c"])
  {
    assert "b"[..1] == "b" && "b"[1..] == "";
    assert ReplaceAll("b", "b", "c") == "c";
  }

  /**
   * The second instruction sees the first one's write: `a` becomes `b`, then `c`, and
   * the backup holds the intermediate content.
   */
  lemma LaterSeesEarlier()
    ensures var mods := [Keyword("k.txt", "a", "b", false), Keyword("k.txt", "b", "c", true)];
            var run := ProcessJson(Success(Config(mods)), true, map["k.txt" := "a"], NoFaults);
            && run.report == Entries([Entry("k.txt", Returned(ReplacedFirst)), Entry("k.txt", Returned(ReplacedAll))])
            && run.files.Keys == {"k.txt", BackupPath("k.txt")}
            && run.files["k.txt"] == "c"
            && run.files[BackupPath("k.txt")] == "b"
  {
    var first := Keyword("k.txt", "a", "b", false);
    var second := Keyword("k.txt", "b", "c", true);
    BackupPathDiffers("k.txt");
    FirstKeywordStep();
    var fs1 := map["k.txt" := "a"][BackupPath("k.txt") := "a"]["k.txt" := "b"];
    SecondKeywordStep(fs1);
    assert [first, second][1..] == [second];
    assert [second][1..] == [];
  }
}
