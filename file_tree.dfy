/** The directory tree the importers walk, as input values: what `exists()`,
    `isDirectory()`, `isFile()` and `listFiles()` report, the parsed mapping sheet,
    and the outcome of copying a file. */
module FileTree {
  import opened MappingSheet
  import opened Catalog

  /** One entry of a directory listing. `copies` is what `Files.copy` does with the
      file when the target path is still free: succeed, or fail with an I/O error. */
  datatype Entry = Entry(name: string, isFile: bool, copies: bool)

  /** A directory as the code probes it: absent, present but not a directory, a
      directory whose `listFiles()` returns `null` (an I/O error), or its entries. */
  datatype Listing<T> = Missing | NotADirectory | Unlistable | Listed(entries: seq<T>)

  /** A subject folder's `yonalish.xlsx`: absent, present but failing to open as a
      workbook, or the rows of its first sheet. */
  datatype SheetFile = NoSheet | Unreadable | Sheet(rows: seq<SheetRow>)

  /** A subject folder: its name, its mapping sheet and its `adabiyotlar` folder. */
  datatype SubjectDir = SubjectDir(name: string, sheet: SheetFile, books: Listing<Entry>)

  /** An entry of the `./fanlar` root. */
  datatype RootEntry = Directory(dir: SubjectDir) | NonDirectory(name: string)

  /** `getAbsolutePath()` of a path relative to the working directory `cwd`: the two are
      joined with `/` and nothing is normalised (a leading `./` stays in place). */
  function AbsolutePath(cwd: string, relative: string): string {
    cwd + "/" + relative
  }

  /** Every folder among `entries` has a subject of its name. */
  predicate SubjectsFor(subjects: seq<Row<Subject>>, entries: seq<RootEntry>) {
    forall i :: 0 <= i < |entries| && entries[i].Directory? ==>
      FindSubjectByName(subjects, entries[i].dir.name).Some?
  }

  /** Subjects are only ever appended, so a folder once covered stays covered. */
  lemma SubjectsForGrow(a: seq<Row<Subject>>, b: seq<Row<Subject>>, entries: seq<RootEntry>)
    requires a <= b && SubjectsFor(a, entries)
    ensures SubjectsFor(b, entries)
  {
    assert a + b[|a|..] == b;
    forall i | 0 <= i < |entries| && entries[i].Directory?
      ensures FindSubjectByName(b, entries[i].dir.name).Some?
    {
      FindSubjectByNameExtend(a, b[|a|..], entries[i].dir.name);
    }
  }

  /** Covering the earlier entries and the last folder covers them all. */
  lemma SubjectsForStep(subjects: seq<Row<Subject>>, entries: seq<RootEntry>)
    requires entries != [] && SubjectsFor(subjects, entries[..|entries| - 1])
    requires entries[|entries| - 1].Directory? ==> FindSubjectByName(subjects, entries[|entries| - 1].dir.name).Some?
    ensures SubjectsFor(subjects, entries)
  {
    var init := entries[..|entries| - 1];
    assert forall i :: 0 <= i < |init| ==> entries[i] == init[i];
  }
}
