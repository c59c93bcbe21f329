/**
 * The file accessor: the directory the edits run in, as a map from relative path to
 * content, with reads that report a missing file and a write that first backs up the
 * file it overwrites.
 */
module Files {
  import opened Wrappers
  import Lines

  /** Relative path, compared as a string (no path normalisation), to file content. */
  type FileSystem = map<string, string>

  /**
   * Which I/O calls throw. Reads of an `unreadable` path fail; a write fails when the
   * target path, or the backup path it must copy to first, is `unwritable`. A failing
   * call fails before it changes anything: a copy or write that breaks off part-way
   * is not modelled.
   */
  datatype Faults = Faults(unreadable: set<string>, unwritable: set<string>)

  /** The path the previous content of `path` is copied to before it is overwritten. */
  function BackupPath(path: string): string {
    path + ".bak"
  }

  /** A backup path is never the path it backs up. */
  lemma BackupPathDiffers(path: string)
    ensures BackupPath(path) != path
  {
    assert |BackupPath(path)| == |path| + 4;
  }

  /**
   * `readFileContent`: the whole content, or `None` when the file does not exist or
   * reading it throws (the exception is swallowed into `null`).
   */
  function ReadContent(fs: FileSystem, faults: Faults, path: string): (r: Option<string>)
    ensures r.Some? <==> path in fs && path !in faults.unreadable
    ensures r.Some? ==> r.value == fs[path]
  {
    if path in fs && path !in faults.unreadable then Some(fs[path]) else None
  }

  /** `readFileLines`: the content split by `File.readLines`, or `None` as for `ReadContent`. */
  function ReadFileLines(fs: FileSystem, faults: Faults, path: string): (r: Option<seq<string>>)
    ensures r.Some? <==> ReadContent(fs, faults, path).Some?
    ensures r.Some? ==> r.value == Lines.ReadLines(fs[path])
  {
    match ReadContent(fs, faults, path)
    case None => None
    case Some(content) => Some(Lines.ReadLines(content))
  }

  /** Every path other than `path` and its backup has the same presence and content. */
  ghost predicate UnchangedExcept(before: FileSystem, after: FileSystem, path: string) {
    forall q :: q != path && q != BackupPath(path) ==>
      (q in after <==> q in before) && (q in before ==> after[q] == before[q])
  }

  /** The directory after a write, and whether the write returned normally. */
  datatype Written = Written(files: FileSystem, ok: bool)

  /**
   * `writeFile`: when the file exists it is first copied over `path + ".bak"`, then
   * its content is replaced. A copy that throws stops the write before anything
   * changes; a write that throws after the copy leaves the fresh backup behind.
   */
  function WriteFile(fs: FileSystem, faults: Faults, path: string, content: string): (w: Written)
    ensures w.ok <==> path !in faults.unwritable && (path in fs ==> BackupPath(path) !in faults.unwritable)
    ensures w.ok ==> path in w.files && w.files[path] == content
    ensures !w.ok ==> (path in w.files <==> path in fs) && (path in fs ==> w.files[path] == fs[path])
    ensures path in fs && BackupPath(path) !in faults.unwritable ==>
              BackupPath(path) in w.files && w.files[BackupPath(path)] == fs[path]
    ensures path !in fs || BackupPath(path) in faults.unwritable ==>
              (BackupPath(path) in w.files <==> BackupPath(path) in fs) &&
              (BackupPath(path) in fs ==> w.files[BackupPath(path)] == fs[BackupPath(path)])
    ensures UnchangedExcept(fs, w.files, path)
  {
    BackupPathDiffers(path);
    var bak := BackupPath(path);
    if path in fs && bak in faults.unwritable then Written(fs, false)
    else
      var backedUp := if path in fs then fs[bak := fs[path]] else fs;
      if path in faults.unwritable then Written(backedUp, false)
      else Written(backedUp[path := content], true)
  }
}
