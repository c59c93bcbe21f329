/** The decoded edit configuration: one flat record per instruction, as in the JSON. */
module EditConfig {
  import opened Wrappers
  import opened Int32

  /**
   * One instruction. `kind` is the JSON `type` ("line_range", "single_line" or
   * "keyword_replace"); every other field but the path may be absent.
   */
  datatype Modification = Modification(
    kind: string,
    filePath: string,
    startLine: Option<i32>,
    endLine: Option<i32>,
    line: Option<i32>,
    oldText: Option<string>,
    newText: Option<string>,
    global: Option<bool>)

  /** The whole document: the instructions in execution order. */
  datatype Config = Config(modifications: seq<Modification>)

  const LineRangeKind: string := "line_range"
  const SingleLineKind: string := "single_line"
  const KeywordKind: string := "keyword_replace"
}
