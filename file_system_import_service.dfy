/** The incremental importer (`importBooksFromFanlar`): it walks `./fanlar`, finds or
    creates a subject per folder, copies every accepted file of the folder's
    `adabiyotlar` directory into attachment storage under a fresh UUID and appends a
    book that points at the stored copy. Nothing is deleted and nothing is checked for
    duplicates; the copy refuses to overwrite, and the first exception ends the run
    with every record saved before it still in place. */
module FileSystemImportService {
  import opened Wrappers
  import opened JavaText
  import opened FilenameDecoder
  import opened FileTree
  import opened Catalog
  import opened Registry

  /** The attachment storage directory, relative to the working directory. */
  const StorageRoot: string := "backend/files"
  const RootNotFoundMessage: string := "fanlar folder not found"
  const ImportedDescription: string := "Imported from filesystem"

  /** The exception that ends a run. None of them is caught by the service. */
  datatype Failure =
    | RootNotFound                  // `IllegalStateException`, thrown before any write
    | NullListing                   // `listFiles` returned `null`: a `NullPointerException`
    | TargetExists(path: string)    // `Files.copy` without replace found the target present
    | CopyFailed(path: string)      // any other I/O error of the copy

  /** How a run ends, with the store as it is left. */
  datatype Run = Done(db: Db) | Failed(failure: Failure, db: Db)

  /** The attachment prefix of a subject's files. */
  function Prefix(subjectName: string): string {
    "/" + subjectName
  }

  /** Where a subject's file is copied to. */
  function Target(subjectName: string, fileName: string): string {
    StorageRoot + Prefix(subjectName) + "/" + fileName
  }

  /** A listed entry the importer processes: a regular file whose name splits into at
      least four parts. */
  predicate Imported(e: Entry) {
    e.isFile && Decode(e.name, ImportExtensions).Some?
  }

  /** The book saved for a decoded file name: no path, no image, the copy as its pdf. */
  function ImportedBook(f: Fields, subject: nat, uuid: nat, now: Time): Book {
    Book(f.name, ImportedDescription, now, f.author, f.publisher, f.genre, None, subject, None, Some(uuid), None, None)
  }

  /** Only books, attachments, the stored files and the two counters change, and the
      three collections only grow. */
  predicate Grows(db: Db, r: Db) {
    && r == db.(books := r.books, attachments := r.attachments, storedFiles := r.storedFiles,
                nextId := r.nextId, nextUuid := r.nextUuid)
    && db.books <= r.books && db.attachments <= r.attachments && db.storedFiles <= r.storedFiles
  }

  /** The stored copy, its attachment row and its book, for an accepted file. */
  predicate Recorded(db: Db, r: Db, subject: nat, subjectName: string, e: Entry, now: Time)
    requires Imported(e)
  {
    && r.storedFiles == db.storedFiles + {Target(subjectName, e.name)}
    && r.attachments == db.attachments + [Row(db.nextUuid, Attachment(Prefix(subjectName), e.name))]
    && r.books == db.books + [Row(db.nextId, ImportedBook(Decode(e.name, ImportExtensions).value, subject, db.nextUuid, now))]
    && r.nextUuid == db.nextUuid + 1 && r.nextId == db.nextId + 1
  }

  /* ---------------- one file ---------------- */

  /** `processBookFile` with `saveFileAsAttachment`: a name with fewer than four parts
      is passed over; otherwise the copy is made, then the attachment row, then the
      book. A copy that fails writes nothing. */
  function ImportFile(db: Db, subject: nat, subjectName: string, e: Entry, now: Time): (r: Run)
    ensures Grows(db, r.db)
    ensures !Imported(e) ==> r == Done(db)
    ensures Imported(e) && Target(subjectName, e.name) in db.storedFiles ==>
      r == Failed(TargetExists(Target(subjectName, e.name)), db)
    ensures Imported(e) && Target(subjectName, e.name) !in db.storedFiles && !e.copies ==>
      r == Failed(CopyFailed(Target(subjectName, e.name)), db)
    ensures Imported(e) && Target(subjectName, e.name) !in db.storedFiles && e.copies ==>
      r.Done? && Recorded(db, r.db, subject, subjectName, e, now)
  {
    if !e.isFile then Done(db)
    else match Decode(e.name, ImportExtensions)
    case None => Done(db)
    case Some(f) =>
      var target := Target(subjectName, e.name);
      if target in db.storedFiles then Failed(TargetExists(target), db)
      else if !e.copies then Failed(CopyFailed(target), db)
      else
        var copied := db.(storedFiles := db.storedFiles + {target});
        var stored := InsertAttachment(copied, Attachment(Prefix(subjectName), e.name));
        Done(InsertBook(stored, ImportedBook(f, subject, db.nextUuid, now)))
  }

  /** One file keeps the store valid when its subject exists. */
  lemma ImportFileValid(db: Db, subject: nat, subjectName: string, e: Entry, now: Time)
    requires Valid(db) && Has(db.subjects, subject)
    ensures Valid(ImportFile(db, subject, subjectName, e, now).db)
  {
    if Imported(e) && Target(subjectName, e.name) !in db.storedFiles && e.copies {
      var f := Decode(e.name, ImportExtensions).value;
      var target := Target(subjectName, e.name);
      StoreCopyValid(db, subject, Attachment(Prefix(subjectName), e.name), target, ImportedBook(f, subject, db.nextUuid, now));
    }
  }

  /** A stored copy, its attachment and a book of an existing subject pointing at the
      attachment keep the store valid. */
  lemma StoreCopyValid(db: Db, subject: nat, a: Attachment, target: string, book: Book)
    requires Valid(db) && Has(db.subjects, subject)
    requires book.subject == subject && book.pdf == Some(db.nextUuid) && book.image.None?
    ensures Valid(InsertBook(InsertAttachment(db.(storedFiles := db.storedFiles + {target}), a), book))
  {
    var copied := db.(storedFiles := db.storedFiles + {target});
    assert Valid(copied);
    InsertAttachmentValid(copied, a);
    var stored := InsertAttachment(copied, a);
    HasLast(copied.attachments, Row(db.nextUuid, a));
    assert Has(stored.subjects, subject);
    InsertBookValid(stored, book);
  }

  /* ---------------- one folder ---------------- */

  /** The files of an `adabiyotlar` folder, in listing order, up to the first failure. */
  function ImportFiles(db: Db, subject: nat, subjectName: string, files: seq<Entry>, now: Time): (r: Run)
    ensures Grows(db, r.db)
    ensures r.Failed? ==> r.failure.TargetExists? || r.failure.CopyFailed?
    decreases |files|
  {
    if files == [] then Done(db)
    else
      var prev := ImportFiles(db, subject, subjectName, files[..|files| - 1], now);
      if prev.Failed? then prev else ImportFile(prev.db, subject, subjectName, files[|files| - 1], now)
  }

  /** The copies a folder's files should produce, in listing order. */
  function FileTargets(subjectName: string, files: seq<Entry>): seq<string>
    decreases |files|
  {
    if files == [] then []
    else
      var last := files[|files| - 1];
      FileTargets(subjectName, files[..|files| - 1]) + (if Imported(last) then [Target(subjectName, last.name)] else [])
  }

  /** A folder imported to the end adds one book and one attachment per accepted file,
      and each of their copies is stored. */
  lemma {:induction false} ImportFilesDone(db: Db, subject: nat, subjectName: string, files: seq<Entry>, now: Time)
    ensures var r := ImportFiles(db, subject, subjectName, files, now);
            r.Done? ==>
              && |r.db.books| == |db.books| + |FileTargets(subjectName, files)|
              && |r.db.attachments| == |db.attachments| + |FileTargets(subjectName, files)|
              && forall t :: t in FileTargets(subjectName, files) ==> t in r.db.storedFiles
    decreases |files|
  {
    if files != [] {
      ImportFilesDone(db, subject, subjectName, files[..|files| - 1], now);
    }
  }

  /** New book `k` was imported from the file stored as attachment `j`. */
  predicate PairedAt(r: Db, k: nat, j: nat) {
    && k < |r.books| && j < |r.attachments|
    && r.books[k].fields.pdf == Some(r.attachments[j].id)
    && r.books[k].fields.path.None? && r.books[k].fields.description == ImportedDescription
  }

  /** The books added since `db` and the attachments added since `db` pair up one to
      one, in order: each new book points at the attachment saved just before it. */
  predicate Paired(db: Db, r: Db) {
    && |db.books| <= |r.books| && |db.attachments| <= |r.attachments|
    && |r.books| - |db.books| == |r.attachments| - |db.attachments|
    && forall i :: 0 <= i < |r.books| - |db.books| ==> PairedFrom(r, |db.books|, |db.attachments|, i)
  }

  /** The `i`-th new book, counting from table sizes `k0` and `j0`, pairs with the
      `i`-th new attachment. */
  predicate PairedFrom(r: Db, k0: nat, j0: nat, i: nat) {
    PairedAt(r, k0 + i, j0 + i)
  }

  /** Pairing composes along a run, since rows are only ever appended. */
  lemma PairedTrans(a: Db, b: Db, c: Db)
    requires Paired(a, b) && Paired(b, c) && a.books <= b.books <= c.books && a.attachments <= b.attachments <= c.attachments
    ensures Paired(a, c)
  {
    forall i | 0 <= i < |c.books| - |a.books|
      ensures PairedFrom(c, |a.books|, |a.attachments|, i)
    {
      var n := |b.books| - |a.books|;
      if i < n {
        assert PairedFrom(b, |a.books|, |a.attachments|, i);
        assert c.books[|a.books| + i] == b.books[|a.books| + i];
        assert c.attachments[|a.attachments| + i] == b.attachments[|a.attachments| + i];
      } else {
        assert PairedFrom(c, |b.books|, |b.attachments|, i - n);
      }
    }
  }

  /** Whatever the outcome, every book a folder adds points at its own new attachment. */
  lemma {:induction false} ImportFilesPaired(db: Db, subject: nat, subjectName: string, files: seq<Entry>, now: Time)
    ensures Paired(db, ImportFiles(db, subject, subjectName, files, now).db)
    decreases |files|
  {
    if files != [] {
      var prev := ImportFiles(db, subject, subjectName, files[..|files| - 1], now);
      ImportFilesPaired(db, subject, subjectName, files[..|files| - 1], now);
      if prev.Done? {
        var r := ImportFile(prev.db, subject, subjectName, files[|files| - 1], now);
        assert Paired(prev.db, r.db) by {
          if r.db != prev.db {
            assert PairedFrom(r.db, |prev.db.books|, |prev.db.attachments|, 0);
          }
        }
        PairedTrans(db, prev.db, r.db);
      }
    }
  }

  /** The files of a folder keep the store valid when its subject exists. */
  lemma {:induction false} ImportFilesValid(db: Db, subject: nat, subjectName: string, files: seq<Entry>, now: Time)
    requires Valid(db) && Has(db.subjects, subject)
    ensures Valid(ImportFiles(db, subject, subjectName, files, now).db)
    decreases |files|
  {
    if files != [] {
      ImportFilesValid(db, subject, subjectName, files[..|files| - 1], now);
      var prev := ImportFiles(db, subject, subjectName, files[..|files| - 1], now);
      if prev.Done? {
        ImportFileValid(prev.db, subject, subjectName, files[|files| - 1], now);
      }
    }
  }

  /** With every copy of the folder already stored, the folder writes nothing: it stops
      at its first accepted file, or passes over all of them when there is none. */
  lemma {:induction false} ImportFilesRerun(db: Db, subject: nat, subjectName: string, files: seq<Entry>, now: Time)
    requires forall t :: t in FileTargets(subjectName, files) ==> t in db.storedFiles
    ensures ImportFiles(db, subject, subjectName, files, now) ==
            if FileTargets(subjectName, files) == [] then Done(db)
            else Failed(TargetExists(FileTargets(subjectName, files)[0]), db)
    decreases |files|
  {
    if files != [] {
      var init := files[..|files| - 1];
      var last := files[|files| - 1];
      var ts := FileTargets(subjectName, files);
      assert FileTargets(subjectName, init) <= ts;
      ImportFilesRerun(db, subject, subjectName, init, now);
      if Imported(last) {
        assert Target(subjectName, last.name) == ts[|ts| - 1];
      }
    }
  }

  /* ---------------- the walk ---------------- */

  /** One subject folder: its subject is found by name or created without a
      description; a missing `adabiyotlar` adds nothing more, one that cannot be listed
      ends the run. */
  function ImportDir(db: Db, dir: SubjectDir, now: Time): (r: Run)
    ensures r.db == db.(subjects := r.db.subjects, books := r.db.books, attachments := r.db.attachments,
                        storedFiles := r.db.storedFiles, nextId := r.db.nextId, nextUuid := r.db.nextUuid)
    ensures db.subjects <= r.db.subjects && db.books <= r.db.books && db.attachments <= r.db.attachments
    ensures db.storedFiles <= r.db.storedFiles
    ensures FindSubjectByName(r.db.subjects, dir.name).Some?
    ensures r.Failed? && r.failure == NullListing <==> dir.books.NotADirectory? || dir.books.Unlistable?
    ensures dir.books.Missing? ==>
      r.Done? && r.db.books == db.books && r.db.attachments == db.attachments && r.db.storedFiles == db.storedFiles
    ensures FindSubjectByName(db.subjects, dir.name).Some? ==> r.db.subjects == db.subjects
    ensures FindSubjectByName(db.subjects, dir.name).None? ==>
      && |r.db.subjects| == |db.subjects| + 1
      && r.db.subjects[|db.subjects|].fields == Subject(dir.name, None, now, now)
  {
    var s := FindOrCreateSubject(db, dir.name, None, now);
    match dir.books
    case Missing => Done(s.db)
    case Listed(files) => ImportFiles(s.db, s.id, dir.name, files, now)
    case _ => Failed(NullListing, s.db)
  }

  /** The folders of `./fanlar`, in listing order, up to the first failure; entries
      that are not directories are not listed. */
  function ImportDirs(db: Db, entries: seq<RootEntry>, now: Time): (r: Run)
    ensures db.subjects <= r.db.subjects && db.books <= r.db.books && db.attachments <= r.db.attachments
    ensures db.storedFiles <= r.db.storedFiles
    ensures r.db == db.(subjects := r.db.subjects, books := r.db.books, attachments := r.db.attachments,
                        storedFiles := r.db.storedFiles, nextId := r.db.nextId, nextUuid := r.db.nextUuid)
    decreases |entries|
  {
    if entries == [] then Done(db)
    else
      var prev := ImportDirs(db, entries[..|entries| - 1], now);
      var last := entries[|entries| - 1];
      if prev.Failed? || last.NonDirectory? then prev else ImportDir(prev.db, last.dir, now)
  }

  /** The last folder of a walk is imported after the others, unless the walk has
      already failed or the entry is not a directory. */
  lemma ImportDirsLast(db: Db, entries: seq<RootEntry>, now: Time)
    requires entries != []
    ensures var prev := ImportDirs(db, entries[..|entries| - 1], now);
            var last := entries[|entries| - 1];
            ImportDirs(db, entries, now) == if prev.Failed? || last.NonDirectory? then prev else ImportDir(prev.db, last.dir, now)
  {
  }

  /** `importBooksFromFanlar`: a missing root, or one that is not a directory, fails
      before any write; a root that cannot be listed fails too; otherwise its folders
      are walked. */
  function ImportBooksFromFanlar(db: Db, root: Listing<RootEntry>, now: Time): (r: Run)
    ensures root.Missing? || root.NotADirectory? ==> r == Failed(RootNotFound, db)
    ensures root.Unlistable? ==> r == Failed(NullListing, db)
    ensures db.subjects <= r.db.subjects && db.books <= r.db.books && db.attachments <= r.db.attachments
    ensures db.faculties == r.db.faculties && db.links == r.db.links && db.educationTypes == r.db.educationTypes
    ensures db.badiiy == r.db.badiiy && db.audios == r.db.audios
  {
    match root
    case Listed(entries) => ImportDirs(db, entries, now)
    case Unlistable => Failed(NullListing, db)
    case _ => Failed(RootNotFound, db)
  }

  /* ---------------- properties of a whole run ---------------- */

  /** The copies a walk should produce, folder by folder. */
  function DirTargets(dir: SubjectDir): seq<string> {
    if dir.books.Listed? then FileTargets(dir.name, dir.books.entries) else []
  }

  function ExpectedTargets(entries: seq<RootEntry>): seq<string>
    decreases |entries|
  {
    if entries == [] then []
    else
      var last := entries[|entries| - 1];
      ExpectedTargets(entries[..|entries| - 1]) + (if last.Directory? then DirTargets(last.dir) else [])
  }

  /** Every folder's `adabiyotlar` is missing or can be listed. */
  predicate Readable(entries: seq<RootEntry>) {
    forall i :: 0 <= i < |entries| && entries[i].Directory? ==>
      entries[i].dir.books.Missing? || entries[i].dir.books.Listed?
  }

  /** What one folder adds pairs up. */
  lemma ImportDirPaired(db: Db, dir: SubjectDir, now: Time)
    ensures Paired(db, ImportDir(db, dir, now).db)
  {
    var s := FindOrCreateSubject(db, dir.name, None, now);
    if dir.books.Listed? {
      ImportFilesPaired(s.db, s.id, dir.name, dir.books.entries, now);
    }
  }

  /** Everything a run adds pairs up: one attachment per new book, the book pointing at it. */
  lemma {:induction false} ImportDirsPaired(db: Db, entries: seq<RootEntry>, now: Time)
    ensures Paired(db, ImportDirs(db, entries, now).db)
    decreases |entries|
  {
    if entries != [] {
      var prev := ImportDirs(db, entries[..|entries| - 1], now);
      var last := entries[|entries| - 1];
      ImportDirsPaired(db, entries[..|entries| - 1], now);
      if prev.Done? && last.Directory? {
        ImportDirPaired(prev.db, last.dir, now);
        PairedTrans(db, prev.db, ImportDir(prev.db, last.dir, now).db);
      }
    }
  }

  /** A run that reaches its end has listed every folder. */
  lemma {:induction false} ImportDirsReadable(db: Db, entries: seq<RootEntry>, now: Time)
    ensures ImportDirs(db, entries, now).Done? ==> Readable(entries)
    decreases |entries|
  {
    if entries != [] {
      var init := entries[..|entries| - 1];
      ImportDirsReadable(db, init, now);
      forall i | 0 <= i < |init| ensures entries[i] == init[i] { }
    }
  }

  /** A run that reaches its end has a subject for every folder. */
  lemma {:induction false} ImportDirsCovers(db: Db, entries: seq<RootEntry>, now: Time)
    ensures var r := ImportDirs(db, entries, now);
            r.Done? ==> SubjectsFor(r.db.subjects, entries)
    decreases |entries|
  {
    if entries != [] {
      var init := entries[..|entries| - 1];
      var last := entries[|entries| - 1];
      var prev := ImportDirs(db, init, now);
      var r := ImportDirs(db, entries, now);
      ImportDirsLast(db, entries, now);
      ImportDirsCovers(db, init, now);
      if r.Done? {
        assert prev.Done?;
        SubjectsForGrow(prev.db.subjects, r.db.subjects, init);
        SubjectsForStep(r.db.subjects, entries);
      }
    }
  }

  /** A run that reaches its end adds one book and one attachment per accepted file
      and stores every copy. */
  lemma {:induction false} ImportDirsCounts(db: Db, entries: seq<RootEntry>, now: Time)
    ensures var r := ImportDirs(db, entries, now);
            r.Done? ==>
              && |r.db.books| == |db.books| + |ExpectedTargets(entries)|
              && |r.db.attachments| == |db.attachments| + |ExpectedTargets(entries)|
              && (forall t :: t in ExpectedTargets(entries) ==> t in r.db.storedFiles)
    decreases |entries|
  {
    if entries != [] {
      var init := entries[..|entries| - 1];
      var last := entries[|entries| - 1];
      var prev := ImportDirs(db, init, now);
      ImportDirsCounts(db, init, now);
      if prev.Done? && last.Directory? && last.dir.books.Listed? {
        var s := FindOrCreateSubject(prev.db, last.dir.name, None, now);
        ImportFilesDone(s.db, s.id, last.dir.name, last.dir.books.entries, now);
      }
    }
  }

  /** With every folder's subject present and every copy already stored, a walk writes
      nothing: it fails at the first accepted file, or ends with the store unchanged
      when there is none. */
  lemma {:induction false} ImportDirsRerun(db: Db, entries: seq<RootEntry>, now: Time)
    requires Readable(entries)
    requires SubjectsFor(db.subjects, entries)
    requires forall t :: t in ExpectedTargets(entries) ==> t in db.storedFiles
    ensures ImportDirs(db, entries, now) ==
            if ExpectedTargets(entries) == [] then Done(db)
            else Failed(TargetExists(ExpectedTargets(entries)[0]), db)
    decreases |entries|
  {
    if entries != [] {
      var init := entries[..|entries| - 1];
      var last := entries[|entries| - 1];
      var ts := ExpectedTargets(entries);
      assert ExpectedTargets(init) <= ts;
      forall i | 0 <= i < |init| ensures entries[i] == init[i] { }
      ImportDirsRerun(db, init, now);
      ImportDirsLast(db, entries, now);
      if ExpectedTargets(init) == [] && last.Directory? {
        assert ts == DirTargets(last.dir);
        ImportDirRerun(db, last.dir, now);
      }
    }
  }

  /** A folder whose subject exists and whose copies are all stored writes nothing. */
  lemma ImportDirRerun(db: Db, dir: SubjectDir, now: Time)
    requires FindSubjectByName(db.subjects, dir.name).Some?
    requires dir.books.Missing? || dir.books.Listed?
    requires forall t :: t in DirTargets(dir) ==> t in db.storedFiles
    ensures ImportDir(db, dir, now) ==
            if DirTargets(dir) == [] then Done(db) else Failed(TargetExists(DirTargets(dir)[0]), db)
  {
    var s := FindOrCreateSubject(db, dir.name, None, now);
    assert s.db == db;
    if dir.books.Listed? {
      ImportFilesRerun(db, s.id, dir.name, dir.books.entries, now);
    }
  }

  /** A second run over the same tree, after a first one that reached its end and
      stored at least one copy, fails at the first file with `TargetExists` and
      changes nothing: re-importing never duplicates a book. */
  lemma RerunFails(db: Db, root: Listing<RootEntry>, now: Time, later: Time)
    requires ImportBooksFromFanlar(db, root, now).Done?
    requires root.Listed? && ExpectedTargets(root.entries) != []
    ensures var first := ImportBooksFromFanlar(db, root, now).db;
            ImportBooksFromFanlar(first, root, later) == Failed(TargetExists(ExpectedTargets(root.entries)[0]), first)
  {
    var first := ImportBooksFromFanlar(db, root, now).db;
    ImportDirsReadable(db, root.entries, now);
    ImportDirsCovers(db, root.entries, now);
    ImportDirsCounts(db, root.entries, now);
    ImportDirsRerun(first, root.entries, later);
  }

  /** A folder keeps the store valid. */
  lemma ImportDirValid(db: Db, dir: SubjectDir, now: Time)
    requires Valid(db)
    ensures Valid(ImportDir(db, dir, now).db)
  {
    var s := FindOrCreateSubject(db, dir.name, None, now);
    FindOrCreateSubjectValid(db, dir.name, None, now);
    match dir.books
    case Listed(files) =>
      ImportFilesValid(s.db, s.id, dir.name, files, now);
      assert ImportDir(db, dir, now).db == ImportFiles(s.db, s.id, dir.name, files, now).db;
    case _ =>
      assert ImportDir(db, dir, now).db == s.db;
  }

  /** A run keeps the store valid, however it ends. */
  lemma {:induction false} ImportDirsValid(db: Db, entries: seq<RootEntry>, now: Time)
    requires Valid(db)
    ensures Valid(ImportDirs(db, entries, now).db)
    decreases |entries|
  {
    if entries != [] {
      ImportDirsValid(db, entries[..|entries| - 1], now);
      ImportDirsLast(db, entries, now);
      var prev := ImportDirs(db, entries[..|entries| - 1], now);
      if prev.Done? && entries[|entries| - 1].Directory? {
        ImportDirValid(prev.db, entries[|entries| - 1].dir, now);
      }
    }
  }

  /* ---------------- the service, step by step ---------------- */

  /** `saveFileAsAttachment`: copy first, then save the attachment under the next UUID. */
  method SaveFileAsAttachment(store: Store, source: Entry, prefix: string) returns (failure: Option<Failure>, uuid: nat)
    modifies store
    ensures var target := StorageRoot + prefix + "/" + source.name;
            && (target in old(store.db).storedFiles ==> failure == Some(TargetExists(target)) && store.db == old(store.db))
            && (target !in old(store.db).storedFiles && !source.copies ==> failure == Some(CopyFailed(target)) && store.db == old(store.db))
            && (target !in old(store.db).storedFiles && source.copies ==>
                  && failure.None? && uuid == old(store.db).nextUuid
                  && store.db == InsertAttachment(old(store.db).(storedFiles := old(store.db).storedFiles + {target}),
                                                  Attachment(prefix, source.name)))
  {
    var target := StorageRoot + prefix + "/" + source.name;
    if target in store.db.storedFiles {
      return Some(TargetExists(target)), 0;
    }
    if !source.copies {
      return Some(CopyFailed(target)), 0;
    }
    store.db := store.db.(storedFiles := store.db.storedFiles + {target});
    uuid := store.db.nextUuid;
    store.db := InsertAttachment(store.db, Attachment(prefix, source.name));
    failure := None;
  }

  /** `processBookFile`. */
  method ProcessBookFile(store: Store, subject: nat, subjectName: string, file: Entry, now: Time) returns (failure: Option<Failure>)
    requires file.isFile
    modifies store
    ensures ImportFile(old(store.db), subject, subjectName, file, now) ==
            if failure.None? then Done(store.db) else Failed(failure.value, store.db)
  {
    var parts := Split(file.name, '_');
    if |parts| < 4 {
      return None;
    }
    var genre := RemoveAll(parts[3], ".pdf");
    var pdf;
    failure, pdf := SaveFileAsAttachment(store, file, "/" + subjectName);
    if failure.Some? {
      return;
    }
    assert StripExtensions(parts[3], ImportExtensions) == genre by {
      assert ImportExtensions[1..] == [];
    }
    var book := Book(parts[0], ImportedDescription, now, parts[1], parts[2], genre, None, subject, None, Some(pdf), None, None);
    store.db := InsertBook(store.db, book);
  }

  /** The loop over a folder's files (only regular files are listed). */
  method ImportBookFolder(store: Store, subject: nat, subjectName: string, files: seq<Entry>, now: Time) returns (failure: Option<Failure>)
    modifies store
    ensures ImportFiles(old(store.db), subject, subjectName, files, now) ==
            if failure.None? then Done(store.db) else Failed(failure.value, store.db)
  {
    ghost var start := store.db;
    var i := 0;
    while i < |files|
      invariant 0 <= i <= |files|
      invariant ImportFiles(start, subject, subjectName, files[..i], now) == Done(store.db)
    {
      assert files[..i + 1][..i] == files[..i];
      if files[i].isFile {
        failure := ProcessBookFile(store, subject, subjectName, files[i], now);
        if failure.Some? {
          assert files[..i + 1] == files || ImportFiles(start, subject, subjectName, files[..i + 1], now).Failed?;
          ImportFilesStops(start, subject, subjectName, files, i + 1, now);
          return;
        }
      }
      i := i + 1;
    }
    assert files[..i] == files;
    return None;
  }

  /** Once a folder's import has failed, the remaining files are never processed. */
  lemma {:induction false} ImportFilesStops(db: Db, subject: nat, subjectName: string, files: seq<Entry>, n: nat, now: Time)
    requires n <= |files|
    requires ImportFiles(db, subject, subjectName, files[..n], now).Failed?
    ensures ImportFiles(db, subject, subjectName, files, now) == ImportFiles(db, subject, subjectName, files[..n], now)
    decreases |files| - n
  {
    if n < |files| {
      assert files[..n + 1][..n] == files[..n];
      ImportFilesStops(db, subject, subjectName, files, n + 1, now);
    } else {
      assert files[..n] == files;
    }
  }

  /** Once a walk has failed, the remaining folders are never visited. */
  lemma {:induction false} ImportDirsStops(db: Db, entries: seq<RootEntry>, n: nat, now: Time)
    requires n <= |entries|
    requires ImportDirs(db, entries[..n], now).Failed?
    ensures ImportDirs(db, entries, now) == ImportDirs(db, entries[..n], now)
    decreases |entries| - n
  {
    if n < |entries| {
      assert entries[..n + 1][..n] == entries[..n];
      ImportDirsStops(db, entries, n + 1, now);
    } else {
      assert entries[..n] == entries;
    }
  }

  /** One subject folder, as the service's outer loop body performs it. */
  method ImportSubjectFolder(store: Store, dir: SubjectDir, now: Time) returns (failure: Option<Failure>)
    modifies store
    ensures ImportDir(old(store.db), dir, now) == if failure.None? then Done(store.db) else Failed(failure.value, store.db)
  {
    var subject := FindOrCreateSubject(store.db, dir.name, None, now);
    store.db := subject.db;
    if dir.books.Missing? {
      return None;
    }
    if !dir.books.Listed? {
      return Some(NullListing);
    }
    failure := ImportBookFolder(store, subject.id, dir.name, dir.books.entries, now);
  }

  /** The service's loop over the folders of `./fanlar`. */
  method ImportFolders(store: Store, entries: seq<RootEntry>, now: Time) returns (failure: Option<Failure>)
    modifies store
    ensures ImportDirs(old(store.db), entries, now) == if failure.None? then Done(store.db) else Failed(failure.value, store.db)
  {
    ghost var start := store.db;
    var i := 0;
    while i < |entries|
      invariant 0 <= i <= |entries|
      invariant ImportDirs(start, entries[..i], now) == Done(store.db)
    {
      assert entries[..i + 1][..i] == entries[..i];
      ImportDirsLast(start, entries[..i + 1], now);
      if entries[i].Directory? {
        failure := ImportSubjectFolder(store, entries[i].dir, now);
        if failure.Some? {
          ImportDirsStops(start, entries, i + 1, now);
          return;
        }
      }
      i := i + 1;
    }
    assert entries[..i] == entries;
    return None;
  }

  /** `importBooksFromFanlar`, step by step over the store. */
  method ImportBooksFromFanlarStore(store: Store, root: Listing<RootEntry>, now: Time) returns (failure: Option<Failure>)
    modifies store
    ensures ImportBooksFromFanlar(old(store.db), root, now) ==
            if failure.None? then Done(store.db) else Failed(failure.value, store.db)
    ensures old(Valid(store.db)) ==> Valid(store.db)
  {
    if Valid(store.db) && root.Listed? {
      ImportDirsValid(store.db, root.entries, now);
    }
    if root.Missing? || root.NotADirectory? {
      return Some(RootNotFound);
    }
    if root.Unlistable? {
      return Some(NullListing);
    }
    failure := ImportFolders(store, root.entries, now);
  }
}
