/** The full-refresh importers of the admin API: `/update` rebuilds subjects,
    faculty-subject links and books from the `./fanlar` tree (faculties are found or
    created, never wiped), while `/update/badiiy` and `/update/audio` rebuild the flat
    literary and audio collections from `./badiiy` and `./audio`.

    Each handler is a method over the `Store`, proved equal to a specification
    function over `Db` values; the functions carry what a run promises. */
module OldAdminController {
  import opened Wrappers
  import opened JavaText
  import opened FilenameDecoder
  import opened MappingSheet
  import opened FileTree
  import opened Catalog
  import opened Registry

  const InvalidRootMessage := "Invalid root folder path."
  const BooksDoneMessage := "All books and faculties updated successfully."
  const BadiiyDoneMessage := "All badiiy books updated successfully."
  const AudioDoneMessage := "All audio books updated successfully."
  /** `Objects.requireNonNull` on a `null` listing: the exception escapes the handler. */
  const NullListing := "java.lang.NullPointerException"

  /** A handler's answer and the store it leaves behind. */
  datatype Refresh = Refresh(response: Response<string>, db: Db)

  /* ---------------- which files are imported ---------------- */

  /** The fields of a directory entry the refresh importers save: only a regular file
      whose name contains `_` and splits into at least four parts. */
  function Accepted(e: Entry, exts: seq<string>): (r: Option<Fields>)
    requires ValidExtensions(exts)
    ensures r.Some? <==> e.isFile && |Split(e.name, '_')| >= 4
    ensures r.Some? ==> r == Decode(e.name, exts)
  {
    if e.isFile && '_' in e.name then Decode(e.name, exts) else None
  }

  /* ---------------- mapping-sheet rows ---------------- */

  /** Whether a row ends in a new link: it decodes, and its faculty code is known or
      its education type exists so that the faculty can be created. */
  predicate RowLinks(db: Db, row: SheetRow) {
    var d := DecodeRow(row);
    d.Mapping? &&
    (FindFacultyByCode(db.faculties, d.code).Some? || (d.educationTypeId >= 0 && Has(db.educationTypes, d.educationTypeId)))
  }

  /** Some faculty with this id carries this code. */
  predicate FacultyCodeIs(faculties: seq<Row<Faculty>>, id: nat, code: string) {
    exists k :: 0 <= k < |faculties| && faculties[k].id == id && faculties[k].fields.code == code
  }

  /** Only faculties and links grew, and ids moved on; nothing else differs. */
  predicate OnlyLinksGrew(db: Db, r: Db) {
    && r == db.(faculties := r.faculties, links := r.links, nextId := r.nextId)
    && db.faculties <= r.faculties && db.links <= r.links
  }

  /** One row of `yonalish.xlsx` for a subject: a row that fails to decode, or whose
      new faculty would have a missing education type, changes nothing; otherwise the
      faculty is found by code (or created from this row) and one link is appended. */
  function ImportRow(db: Db, subject: nat, row: SheetRow): (r: Db)
    ensures OnlyLinksGrew(db, r)
    ensures !RowLinks(db, row) ==> r == db
    ensures RowLinks(db, row) ==>
      && |r.links| == |db.links| + 1
      && r.links[|db.links|].fields.subject == subject
      && FacultyCodeIs(r.faculties, r.links[|db.links|].fields.faculty, DecodeRow(row).code)
    ensures DecodeRow(row).Mapping? && FindFacultyByCode(db.faculties, DecodeRow(row).code).Some? ==>
      && r.faculties == db.faculties
      && r.links[|db.links|].fields.faculty == db.faculties[FindFacultyByCode(db.faculties, DecodeRow(row).code).value].id
    ensures RowLinks(db, row) && FindFacultyByCode(db.faculties, DecodeRow(row).code).None? ==>
      var d := DecodeRow(row);
      r.faculties == db.faculties + [Row(db.nextId, Faculty(d.code, d.name, Some(d.educationTypeId)))]
  {
    var d := DecodeRow(row);
    if d.Skip? then db
    else
      match FindOrCreateFaculty(db, d.code, d.name, d.educationTypeId)
      case Found(id) =>
        InsertLink(db, Link(id, subject))
      case Created(created, id) =>
        assert created.faculties[|db.faculties|].fields.code == d.code;
        InsertLink(created, Link(id, subject))
      case NoEducationType =>
        db
  }

  /** A row keeps the store valid: a new faculty has a free code and an existing
      education type, and a new link joins two existing rows. */
  lemma ImportRowValid(db: Db, subject: nat, row: SheetRow)
    requires Valid(db) && Has(db.subjects, subject)
    ensures Valid(ImportRow(db, subject, row))
  {
    var d := DecodeRow(row);
    if d.Mapping? {
      var lookup := FindOrCreateFaculty(db, d.code, d.name, d.educationTypeId);
      FindOrCreateFacultyValid(db, d.code, d.name, d.educationTypeId);
      if lookup.Found? {
        InsertLinkValid(db, Link(lookup.id, subject));
      } else if lookup.Created? {
        InsertLinkValid(lookup.db, Link(lookup.id, subject));
      }
    }
  }

  /** The rows of a sheet, in order. */
  function ImportRows(db: Db, subject: nat, rows: seq<SheetRow>): (r: Db)
    ensures OnlyLinksGrew(db, r)
    ensures |r.links| <= |db.links| + |rows|
    ensures forall k :: |db.links| <= k < |r.links| ==> r.links[k].fields.subject == subject
    decreases |rows|
  {
    if rows == [] then db
    else ImportRow(ImportRows(db, subject, rows[..|rows| - 1]), subject, rows[|rows| - 1])
  }

  /** A whole sheet keeps the store valid. */
  lemma {:induction false} ImportRowsValid(db: Db, subject: nat, rows: seq<SheetRow>)
    requires Valid(db) && Has(db.subjects, subject)
    ensures Valid(ImportRows(db, subject, rows))
    decreases |rows|
  {
    if rows != [] {
      ImportRowsValid(db, subject, rows[..|rows| - 1]);
      ImportRowValid(ImportRows(db, subject, rows[..|rows| - 1]), subject, rows[|rows| - 1]);
    }
  }

  /** Two identical rows that link give two identical links: nothing checks whether
      the (faculty, subject) pair is already there. */
  lemma DuplicateRowsDuplicateLinks(db: Db, subject: nat, row: SheetRow)
    requires CodesUnique(db.faculties) && RowLinks(db, row)
    ensures var r := ImportRows(db, subject, [row, row]);
            && |r.links| == |db.links| + 2
            && r.links[|db.links|].fields == r.links[|db.links| + 1].fields
  {
    assert [row, row][..1] == [row];
    assert [row][..0] == [];
    var once := ImportRow(db, subject, row);
    assert ImportRows(db, subject, [row]) == once;
    ImportRowKeepsCodesUnique(db, subject, row);
    var code := DecodeRow(row).code;
    var f := once.links[|db.links|].fields.faculty;
    var k :| 0 <= k < |once.faculties| && once.faculties[k].id == f && once.faculties[k].fields.code == code;
    var found := FindFacultyByCode(once.faculties, code);
    assert found.Some?;
    assert found.value == k;
  }

  /** A sheet row never gives two faculties the same code: it creates one only for a
      code not yet present. */
  lemma ImportRowKeepsCodesUnique(db: Db, subject: nat, row: SheetRow)
    requires CodesUnique(db.faculties)
    ensures CodesUnique(ImportRow(db, subject, row).faculties)
  {
    var d := DecodeRow(row);
    if d.Mapping? {
      var lookup := FindOrCreateFaculty(db, d.code, d.name, d.educationTypeId);
      if lookup.Created? {
        assert FindFacultyByCode(db.faculties, d.code).None?;
      }
    }
  }

  /* ---------------- book files ---------------- */

  /** What a catalogue listing shows of a book. */
  datatype Card = Card(name: string, author: string, publisher: string, genre: string,
                       description: string, path: Option<string>)

  function BookCard(b: Book): Card {
    Card(b.name, b.author, b.publisher, b.genre, b.description, b.path)
  }

  function BookCards(t: seq<Row<Book>>): (r: seq<Card>)
    ensures |r| == |t|
  {
    if t == [] then [] else BookCards(t[..|t| - 1]) + [BookCard(t[|t| - 1].fields)]
  }

  lemma BookCardsAppend(t: seq<Row<Book>>, row: Row<Book>)
    ensures BookCards(t + [row]) == BookCards(t) + [BookCard(row.fields)]
  {
    assert (t + [row])[..|t|] == t;
  }

  /** `getAbsolutePath()` of a file in a subject's `adabiyotlar` folder. */
  function BookPath(cwd: string, subject: string, file: string): string {
    AbsolutePath(cwd, "./fanlar/" + subject + "/adabiyotlar/" + file)
  }

  /** The card an accepted file should produce, if any. */
  function FileCard(subject: string, e: Entry, cwd: string): seq<Card> {
    match Accepted(e, BookExtensions)
    case None => []
    case Some(f) => [Card(f.name, f.author, f.publisher, f.genre, "Book from " + subject, Some(BookPath(cwd, subject, e.name)))]
  }

  /** The cards the accepted files of a subject folder should produce, in listing order. */
  function FileCards(subject: string, files: seq<Entry>, cwd: string): seq<Card>
    decreases |files|
  {
    if files == [] then []
    else FileCards(subject, files[..|files| - 1], cwd) + FileCard(subject, files[|files| - 1], cwd)
  }

  /** A book as the refresh saves it: for this subject, at this time, with neither
      cover nor file attachment and the library columns unset. */
  predicate RefreshedBook(b: Book, subject: nat, now: Time) {
    b.subject == subject && b.createdAt == now && b.image.None? && b.pdf.None?
    && b.isHaveLibrary.None? && b.libraryCount.None?
  }

  /** Only books grew, and ids moved on; nothing else differs. */
  predicate OnlyBooksGrew(db: Db, r: Db) {
    r == db.(books := r.books, nextId := r.nextId) && db.books <= r.books
  }

  /** One entry of a subject's `adabiyotlar` folder: an accepted file appends one
      book, with no check for a book of the same name; any other entry is passed over. */
  function ImportBookFile(db: Db, subject: nat, subjectName: string, e: Entry, cwd: string, now: Time): (r: Db)
    ensures OnlyBooksGrew(db, r)
    ensures BookCards(r.books) == BookCards(db.books) + FileCard(subjectName, e, cwd)
    ensures forall k :: |db.books| <= k < |r.books| ==> RefreshedBook(r.books[k].fields, subject, now)
  {
    match Accepted(e, BookExtensions)
    case None => db
    case Some(f) =>
      var book := Book(f.name, "Book from " + subjectName, now, f.author, f.publisher, f.genre,
                       Some(BookPath(cwd, subjectName, e.name)), subject, None, None, None, None);
      BookCardsAppend(db.books, Row(db.nextId, book));
      InsertBook(db, book)
  }

  /** The files of a subject's `adabiyotlar` folder, in listing order. */
  function ImportBookFiles(db: Db, subject: nat, subjectName: string, files: seq<Entry>, cwd: string, now: Time): (r: Db)
    ensures OnlyBooksGrew(db, r)
    ensures BookCards(r.books) == BookCards(db.books) + FileCards(subjectName, files, cwd)
    ensures forall k :: |db.books| <= k < |r.books| ==> RefreshedBook(r.books[k].fields, subject, now)
    decreases |files|
  {
    if files == [] then db
    else
      var prev := ImportBookFiles(db, subject, subjectName, files[..|files| - 1], cwd, now);
      var r := ImportBookFile(prev, subject, subjectName, files[|files| - 1], cwd, now);
      Associative(BookCards(db.books), FileCards(subjectName, files[..|files| - 1], cwd), FileCard(subjectName, files[|files| - 1], cwd));
      r
  }

  /** The books of a folder keep the store valid: each refers to the existing subject
      and to no attachment. */
  lemma {:induction false} ImportBookFilesValid(db: Db, subject: nat, subjectName: string, files: seq<Entry>, cwd: string, now: Time)
    requires Valid(db) && Has(db.subjects, subject)
    ensures Valid(ImportBookFiles(db, subject, subjectName, files, cwd, now))
    decreases |files|
  {
    if files != [] {
      ImportBookFilesValid(db, subject, subjectName, files[..|files| - 1], cwd, now);
      ImportBookFileValid(ImportBookFiles(db, subject, subjectName, files[..|files| - 1], cwd, now), subject, subjectName, files[|files| - 1], cwd, now);
    }
  }

  /** One book file keeps the store valid when its subject exists. */
  lemma ImportBookFileValid(db: Db, subject: nat, subjectName: string, e: Entry, cwd: string, now: Time)
    requires Valid(db) && Has(db.subjects, subject)
    ensures Valid(ImportBookFile(db, subject, subjectName, e, cwd, now))
  {
    var f := Accepted(e, BookExtensions);
    if f.Some? {
      InsertBookValid(db, Book(f.value.name, "Book from " + subjectName, now, f.value.author, f.value.publisher, f.value.genre,
                               Some(BookPath(cwd, subjectName, e.name)), subject, None, None, None, None));
    }
  }

  lemma Associative<T>(a: seq<T>, b: seq<T>, c: seq<T>)
    ensures (a + b) + c == a + (b + c)
  {
  }

  /** A file whose decoded name already names a book of the subject is still saved:
      the refresh does not apply the create handler's duplicate guard. */
  lemma RefreshSkipsNameGuard(db: Db, subject: nat, subjectName: string, e: Entry, cwd: string, now: Time)
    requires Accepted(e, BookExtensions).Some?
    requires HasBookNamed(db.books, Accepted(e, BookExtensions).value.name, subject)
    ensures var r := ImportBookFiles(db, subject, subjectName, [e], cwd, now);
            && |r.books| == |db.books| + 1
            && r.books[|db.books|].fields.name == Accepted(e, BookExtensions).value.name
            && r.books[|db.books|].fields.subject == subject
  {
    assert [e][..0] == [];
    var r := ImportBookFiles(db, subject, subjectName, [e], cwd, now);
    assert FileCards(subjectName, [e], cwd)[0].name == Accepted(e, BookExtensions).value.name;
    assert BookCards(r.books)[|db.books|] == BookCard(r.books[|db.books|].fields) by {
      assert r.books == r.books[..|r.books|];
    }
  }

  /* ---------------- subject folders ---------------- */

  /** How far a walk got: to its end, or to an exception that escaped the handler. */
  datatype Outcome = Completed(db: Db) | Aborted(db: Db)

  function DirCards(dir: SubjectDir, cwd: string): seq<Card> {
    if dir.books.Listed? then FileCards(dir.name, dir.books.entries, cwd) else []
  }

  /** The tables and counters the books refresh never writes. */
  predicate KeepsOthers(db: Db, r: Db) {
    && r.educationTypes == db.educationTypes && r.badiiy == db.badiiy && r.audios == db.audios
    && r.attachments == db.attachments && r.storedFiles == db.storedFiles && r.nextUuid == db.nextUuid
  }

  /** The first two steps for a subject folder: its subject is found by name or created
      with description `Description for <name>`, then its mapping sheet, if it has one
      that opens, is read row by row. Subjects gain at most that one row. */
  function SubjectAndSheet(db: Db, dir: SubjectDir, now: Time): (r: Saved)
    ensures KeepsOthers(db, r.db) && r.db.books == db.books
    ensures FindSubjectByName(r.db.subjects, dir.name).Some?
    ensures r.id == r.db.subjects[FindSubjectByName(r.db.subjects, dir.name).value].id
    ensures db.faculties <= r.db.faculties && db.subjects <= r.db.subjects
    ensures |r.db.subjects| == |db.subjects| + (if FindSubjectByName(db.subjects, dir.name).Some? then 0 else 1)
    ensures forall k :: |db.subjects| <= k < |r.db.subjects| ==> r.db.subjects[k].fields.name == dir.name
    ensures NamesUnique(db.subjects) ==> NamesUnique(r.db.subjects)
  {
    var s := FindOrCreateSubject(db, dir.name, Some("Description for " + dir.name), now);
    var after := if dir.sheet.Sheet? then ImportRows(s.db, s.id, dir.sheet.rows) else s.db;
    Saved(after, s.id)
  }

  /** The last step for a subject folder: its `adabiyotlar` directory, if present, is
      listed and its accepted files saved; a `null` listing aborts the whole refresh. */
  function ImportDirBooks(db: Db, subject: nat, dir: SubjectDir, cwd: string, now: Time): (r: Outcome)
    ensures OnlyBooksGrew(db, r.db)
    ensures r.Aborted? <==> dir.books.Unlistable?
    ensures r.Completed? ==> BookCards(r.db.books) == BookCards(db.books) + DirCards(dir, cwd)
  {
    match dir.books
    case Unlistable => Aborted(db)
    case Listed(files) => Completed(ImportBookFiles(db, subject, dir.name, files, cwd, now))
    case _ => Completed(db)
  }

  /** The book files of a folder keep the store valid when its subject exists. */
  lemma ImportDirBooksValid(db: Db, subject: nat, dir: SubjectDir, cwd: string, now: Time)
    requires Valid(db) && Has(db.subjects, subject)
    ensures Valid(ImportDirBooks(db, subject, dir, cwd, now).db)
  {
    if dir.books.Listed? {
      ImportBookFilesValid(db, subject, dir.name, dir.books.entries, cwd, now);
    }
  }

  /** One subject folder of `./fanlar`. */
  function ImportSubjectDir(db: Db, dir: SubjectDir, cwd: string, now: Time): (r: Outcome)
    ensures KeepsOthers(db, r.db)
    ensures db.faculties <= r.db.faculties && db.subjects <= r.db.subjects
    ensures forall k :: |db.subjects| <= k < |r.db.subjects| ==> r.db.subjects[k].fields.name == dir.name
    ensures NamesUnique(db.subjects) ==> NamesUnique(r.db.subjects)
    ensures FindSubjectByName(r.db.subjects, dir.name).Some?
    ensures r.Aborted? <==> dir.books.Unlistable?
    ensures r.Completed? ==> BookCards(r.db.books) == BookCards(db.books) + DirCards(dir, cwd)
  {
    var s := SubjectAndSheet(db, dir, now);
    ImportDirBooks(s.db, s.id, dir, cwd, now)
  }

  /** The subject and sheet steps keep the store valid and leave the subject in place. */
  lemma SubjectAndSheetValid(db: Db, dir: SubjectDir, now: Time)
    requires Valid(db)
    ensures Valid(SubjectAndSheet(db, dir, now).db)
    ensures Has(SubjectAndSheet(db, dir, now).db.subjects, SubjectAndSheet(db, dir, now).id)
  {
    var s := FindOrCreateSubject(db, dir.name, Some("Description for " + dir.name), now);
    FindOrCreateSubjectValid(db, dir.name, Some("Description for " + dir.name), now);
    if dir.sheet.Sheet? {
      ImportRowsValid(s.db, s.id, dir.sheet.rows);
    }
  }

  /** A subject folder keeps the store valid. */
  lemma ImportSubjectDirValid(db: Db, dir: SubjectDir, cwd: string, now: Time)
    requires Valid(db)
    ensures Valid(ImportSubjectDir(db, dir, cwd, now).db)
  {
    var s := SubjectAndSheet(db, dir, now);
    SubjectAndSheetValid(db, dir, now);
    ImportDirBooksValid(s.db, s.id, dir, cwd, now);
  }

  /* ---------------- the books refresh ---------------- */

  predicate IsDirName(entries: seq<RootEntry>, name: string) {
    exists i :: 0 <= i < |entries| && entries[i].Directory? && entries[i].dir.name == name
  }

  /** No subject folder has an `adabiyotlar` directory that cannot be listed. */
  predicate AllListable(entries: seq<RootEntry>) {
    forall i :: 0 <= i < |entries| && entries[i].Directory? ==> !entries[i].dir.books.Unlistable?
  }

  /** The cards a complete walk of the root entries should produce, folder by folder. */
  function ExpectedCards(entries: seq<RootEntry>, cwd: string): seq<Card>
    decreases |entries|
  {
    if entries == [] then []
    else
      var last := entries[|entries| - 1];
      ExpectedCards(entries[..|entries| - 1], cwd) + (if last.Directory? then DirCards(last.dir, cwd) else [])
  }

  /** The entries of `./fanlar`, in listing order; non-directories are passed over, and
      the walk stops at the first folder whose books cannot be listed. */
  function ImportEntries(db: Db, entries: seq<RootEntry>, cwd: string, now: Time): (r: Outcome)
    ensures KeepsOthers(db, r.db)
    ensures db.faculties <= r.db.faculties && db.subjects <= r.db.subjects
    ensures r.Completed? <==> AllListable(entries)
    ensures r.Completed? ==> BookCards(r.db.books) == BookCards(db.books) + ExpectedCards(entries, cwd)
    decreases |entries|
  {
    if entries == [] then Completed(db)
    else
      var init := entries[..|entries| - 1];
      var last := entries[|entries| - 1];
      var prev := ImportEntries(db, init, cwd, now);
      assert forall i :: 0 <= i < |init| ==> init[i] == entries[i];
      if prev.Aborted? || last.NonDirectory? then
        prev
      else
        var r := ImportSubjectDir(prev.db, last.dir, cwd, now);
        Associative(BookCards(db.books), ExpectedCards(init, cwd), DirCards(last.dir, cwd));
        r
  }

  /** The last entry of a walk: skipped after an abort or when it is not a folder,
      imported otherwise. */
  lemma ImportEntriesLast(db: Db, entries: seq<RootEntry>, cwd: string, now: Time)
    requires entries != []
    ensures var prev := ImportEntries(db, entries[..|entries| - 1], cwd, now);
            var last := entries[|entries| - 1];
            ImportEntries(db, entries, cwd, now) ==
              if prev.Aborted? || last.NonDirectory? then prev else ImportSubjectDir(prev.db, last.dir, cwd, now)
  {
  }

  /** A walk keeps the store valid. */
  lemma {:induction false} ImportEntriesValid(db: Db, entries: seq<RootEntry>, cwd: string, now: Time)
    requires Valid(db)
    ensures Valid(ImportEntries(db, entries, cwd, now).db)
    decreases |entries|
  {
    if entries != [] {
      ImportEntriesValid(db, entries[..|entries| - 1], cwd, now);
      ImportEntriesStepValid(db, entries, cwd, now);
    }
  }

  /** The last entry of a walk keeps the store valid. */
  lemma ImportEntriesStepValid(db: Db, entries: seq<RootEntry>, cwd: string, now: Time)
    requires entries != [] && Valid(ImportEntries(db, entries[..|entries| - 1], cwd, now).db)
    ensures Valid(ImportEntries(db, entries, cwd, now).db)
  {
    var prev := ImportEntries(db, entries[..|entries| - 1], cwd, now);
    ImportEntriesLast(db, entries, cwd, now);
    if prev.Completed? && entries[|entries| - 1].Directory? {
      ImportSubjectDirValid(prev.db, entries[|entries| - 1].dir, cwd, now);
    }
  }

  /** A walk never gives two subjects the same name. */
  lemma {:induction false} WalkKeepsNamesUnique(db: Db, entries: seq<RootEntry>, cwd: string, now: Time)
    requires NamesUnique(db.subjects)
    ensures NamesUnique(ImportEntries(db, entries, cwd, now).db.subjects)
    decreases |entries|
  {
    if entries != [] {
      WalkKeepsNamesUnique(db, entries[..|entries| - 1], cwd, now);
    }
  }

  /** Every subject in `after` beyond those of `before` is named after a folder. */
  predicate NewSubjectsAreFolders(before: Db, after: Db, entries: seq<RootEntry>) {
    forall k :: |before.subjects| <= k < |after.subjects| ==> IsDirName(entries, after.subjects[k].fields.name)
  }

  /** Every subject a walk creates is named after a folder of the root. */
  lemma {:induction false} WalkSubjectsAreFolders(db: Db, entries: seq<RootEntry>, cwd: string, now: Time)
    ensures NewSubjectsAreFolders(db, ImportEntries(db, entries, cwd, now).db, entries)
    decreases |entries|
  {
    if entries != [] {
      var init := entries[..|entries| - 1];
      var last := entries[|entries| - 1];
      WalkSubjectsAreFolders(db, init, cwd, now);
      var prev := ImportEntries(db, init, cwd, now);
      var r := ImportEntries(db, entries, cwd, now).db;
      forall k | |db.subjects| <= k < |r.subjects|
        ensures IsDirName(entries, r.subjects[k].fields.name)
      {
        if k < |prev.db.subjects| {
          assert r.subjects[k] == prev.db.subjects[k];
          assert IsDirName(init, prev.db.subjects[k].fields.name);
          var i :| 0 <= i < |init| && init[i].Directory? && init[i].dir.name == prev.db.subjects[k].fields.name;
          assert entries[i] == init[i];
        } else {
          assert prev.Completed? && last.Directory?;
          assert last.dir.name == r.subjects[k].fields.name;
          assert entries[|entries| - 1] == last;
        }
      }
    }
  }

  /** A walk that completes leaves a subject for every folder of the root. */
  lemma {:induction false} CompletedWalkCoversFolders(db: Db, entries: seq<RootEntry>, cwd: string, now: Time)
    requires ImportEntries(db, entries, cwd, now).Completed?
    ensures SubjectsFor(ImportEntries(db, entries, cwd, now).db.subjects, entries)
    decreases |entries|
  {
    if entries != [] {
      var init := entries[..|entries| - 1];
      var prev := ImportEntries(db, init, cwd, now);
      ImportEntriesLast(db, entries, cwd, now);
      assert prev.Completed?;
      CompletedWalkCoversFolders(db, init, cwd, now);
      var r := ImportEntries(db, entries, cwd, now).db;
      SubjectsForGrow(prev.db.subjects, r.subjects, init);
      SubjectsForStep(r.subjects, entries);
    }
  }

  /** Once the walk has aborted, the remaining entries are never visited. */
  lemma {:induction false} AbortedWalkStops(db: Db, entries: seq<RootEntry>, n: nat, cwd: string, now: Time)
    requires n <= |entries|
    requires ImportEntries(db, entries[..n], cwd, now).Aborted?
    ensures ImportEntries(db, entries, cwd, now) == ImportEntries(db, entries[..n], cwd, now)
    decreases |entries| - n
  {
    if n < |entries| {
      assert entries[..n + 1][..n] == entries[..n];
      AbortedWalkStops(db, entries, n + 1, cwd, now);
    } else {
      assert entries[..n] == entries;
    }
  }

  /* ---------------- the links the refresh rebuilds ---------------- */

  /** A link as a reader of the catalogue sees it: its subject's name and its
      faculty's code. */
  datatype LinkView = LinkView(subject: string, code: string)

  /** The links a stretch of the import should write, and the faculty codes known
      once it is done. */
  datatype Plan = Plan(views: seq<LinkView>, known: set<string>)

  /** The faculty codes present in a table. */
  function Codes(faculties: seq<Row<Faculty>>): set<string> {
    set k | 0 <= k < |faculties| :: faculties[k].fields.code
  }

  lemma CodesFind(faculties: seq<Row<Faculty>>, code: string)
    ensures FindFacultyByCode(faculties, code).Some? <==> code in Codes(faculties)
  {
    if code in Codes(faculties) {
      var k :| 0 <= k < |faculties| && faculties[k].fields.code == code;
    }
  }

  lemma CodesAppend(faculties: seq<Row<Faculty>>, row: Row<Faculty>)
    ensures Codes(faculties + [row]) == Codes(faculties) + {row.fields.code}
  {
    var all := faculties + [row];
    forall c | c in Codes(faculties) ensures c in Codes(all) {
      var k :| 0 <= k < |faculties| && faculties[k].fields.code == c;
      assert all[k] == faculties[k];
    }
    assert all[|faculties|] == row;
  }

  /** Some subject with this id carries this name. */
  predicate SubjectNameIs(subjects: seq<Row<Subject>>, id: nat, name: string) {
    exists k :: 0 <= k < |subjects| && subjects[k].id == id && subjects[k].fields.name == name
  }

  /** The link joins a subject and a faculty as the view says. */
  predicate ShowsLink(db: Db, l: Link, v: LinkView) {
    SubjectNameIs(db.subjects, l.subject, v.subject) && FacultyCodeIs(db.faculties, l.faculty, v.code)
  }

  /** The links `r` holds beyond those of `db` show `views`, one for one and in order. */
  predicate NewLinksShow(db: Db, r: Db, views: seq<LinkView>) {
    && |r.links| == |db.links| + |views|
    && forall k :: 0 <= k < |views| ==> ShowsLink(r, r.links[|db.links| + k].fields, views[k])
  }

  /** What one row of a folder's sheet should link: a decoded row whose code is known
      links to that faculty; an unknown code links to a new faculty when its education
      type exists, and becomes known; any other row links nothing. */
  function RowPlan(known: set<string>, types: seq<Row<EducationType>>, folder: string, row: SheetRow): Plan {
    var d := DecodeRow(row);
    if d.Skip? then Plan([], known)
    else if d.code in known then Plan([LinkView(folder, d.code)], known)
    else if d.educationTypeId >= 0 && Has(types, d.educationTypeId) then Plan([LinkView(folder, d.code)], known + {d.code})
    else Plan([], known)
  }

  /** The rows of a folder's sheet, in order. */
  function SheetPlan(known: set<string>, types: seq<Row<EducationType>>, folder: string, rows: seq<SheetRow>): Plan
    decreases |rows|
  {
    if rows == [] then Plan([], known)
    else
      var p := SheetPlan(known, types, folder, rows[..|rows| - 1]);
      var q := RowPlan(p.known, types, folder, rows[|rows| - 1]);
      Plan(p.views + q.views, q.known)
  }

  /** A subject folder links only through a sheet that opens. */
  function DirPlan(known: set<string>, types: seq<Row<EducationType>>, dir: SubjectDir): Plan {
    if dir.sheet.Sheet? then SheetPlan(known, types, dir.name, dir.sheet.rows) else Plan([], known)
  }

  /** The folders of the root, in listing order. */
  function WalkPlan(known: set<string>, types: seq<Row<EducationType>>, entries: seq<RootEntry>): Plan
    decreases |entries|
  {
    if entries == [] then Plan([], known)
    else
      var p := WalkPlan(known, types, entries[..|entries| - 1]);
      var last := entries[|entries| - 1];
      if last.NonDirectory? then p
      else
        var q := DirPlan(p.known, types, last.dir);
        Plan(p.views + q.views, q.known)
  }

  /** The links a complete books refresh should leave, in table order. */
  function ExpectedLinks(db: Db, entries: seq<RootEntry>): seq<LinkView> {
    WalkPlan(Codes(db.faculties), db.educationTypes, entries).views
  }

  /** Links shown once stay shown while subjects and faculties only grow. */
  lemma NewLinksShowGrow(db: Db, mid: Db, r: Db, views: seq<LinkView>)
    requires NewLinksShow(db, mid, views)
    requires mid.links == r.links && mid.subjects <= r.subjects && mid.faculties <= r.faculties
    ensures NewLinksShow(db, r, views)
  {
    forall k | 0 <= k < |views| ensures ShowsLink(r, r.links[|db.links| + k].fields, views[k]) {
      var l := r.links[|db.links| + k].fields;
      assert ShowsLink(mid, l, views[k]);
      var i :| 0 <= i < |mid.subjects| && mid.subjects[i].id == l.subject && mid.subjects[i].fields.name == views[k].subject;
      assert r.subjects[i] == mid.subjects[i];
      var j :| 0 <= j < |mid.faculties| && mid.faculties[j].id == l.faculty && mid.faculties[j].fields.code == views[k].code;
      assert r.faculties[j] == mid.faculties[j];
    }
  }

  /** Two stretches of new links, the first kept in place, make one. */
  lemma NewLinksShowTrans(db: Db, mid: Db, r: Db, v1: seq<LinkView>, v2: seq<LinkView>)
    requires NewLinksShow(db, mid, v1) && NewLinksShow(mid, r, v2)
    requires mid.links <= r.links && mid.subjects <= r.subjects && mid.faculties <= r.faculties
    ensures NewLinksShow(db, r, v1 + v2)
  {
    var wide := r.(links := mid.links);
    NewLinksShowGrow(db, mid, wide, v1);
    forall k | 0 <= k < |v1| ensures ShowsLink(r, r.links[|db.links| + k].fields, (v1 + v2)[k]) {
      assert r.links[|db.links| + k] == mid.links[|db.links| + k];
      assert ShowsLink(wide, wide.links[|db.links| + k].fields, v1[k]);
    }
    forall k | |v1| <= k < |v1| + |v2| ensures ShowsLink(r, r.links[|db.links| + k].fields, (v1 + v2)[k]) {
      assert r.links[|db.links| + k] == r.links[|mid.links| + (k - |v1|)];
      assert ShowsLink(r, r.links[|mid.links| + (k - |v1|)].fields, v2[k - |v1|]);
    }
  }

  /** One sheet row writes exactly the link its plan gives, and the known codes follow
      the faculty table. */
  lemma ImportRowPlan(db: Db, subject: nat, folder: string, row: SheetRow)
    requires SubjectNameIs(db.subjects, subject, folder)
    ensures var r := ImportRow(db, subject, row);
            var q := RowPlan(Codes(db.faculties), db.educationTypes, folder, row);
            Codes(r.faculties) == q.known && NewLinksShow(db, r, q.views)
  {
    var d := DecodeRow(row);
    if d.Mapping? {
      CodesFind(db.faculties, d.code);
      if FindFacultyByCode(db.faculties, d.code).None? && RowLinks(db, row) {
        CodesAppend(db.faculties, Row(db.nextId, Faculty(d.code, d.name, Some(d.educationTypeId))));
      }
    }
  }

  /** A sheet writes exactly the links its plan gives. */
  lemma {:induction false} ImportRowsPlan(db: Db, subject: nat, folder: string, rows: seq<SheetRow>)
    requires SubjectNameIs(db.subjects, subject, folder)
    ensures var r := ImportRows(db, subject, rows);
            var p := SheetPlan(Codes(db.faculties), db.educationTypes, folder, rows);
            Codes(r.faculties) == p.known && NewLinksShow(db, r, p.views)
    decreases |rows|
  {
    if rows != [] {
      var init := rows[..|rows| - 1];
      var mid := ImportRows(db, subject, init);
      ImportRowsPlan(db, subject, folder, init);
      ImportRowPlan(mid, subject, folder, rows[|rows| - 1]);
      var r := ImportRow(mid, subject, rows[|rows| - 1]);
      var p := SheetPlan(Codes(db.faculties), db.educationTypes, folder, init);
      NewLinksShowTrans(db, mid, r, p.views, RowPlan(p.known, db.educationTypes, folder, rows[|rows| - 1]).views);
    }
  }

  /** The subject and sheet steps of a folder write exactly the links of its plan. */
  lemma SubjectAndSheetPlan(db: Db, dir: SubjectDir, now: Time)
    ensures var r := SubjectAndSheet(db, dir, now).db;
            var p := DirPlan(Codes(db.faculties), db.educationTypes, dir);
            Codes(r.faculties) == p.known && NewLinksShow(db, r, p.views)
  {
    var s := FindOrCreateSubject(db, dir.name, Some("Description for " + dir.name), now);
    assert SubjectNameIs(s.db.subjects, s.id, dir.name) by {
      var k := FindSubjectByName(s.db.subjects, dir.name).value;
      assert s.db.subjects[k].id == s.id;
    }
    if dir.sheet.Sheet? {
      ImportRowsPlan(s.db, s.id, dir.name, dir.sheet.rows);
    }
  }

  /** A subject folder writes exactly the links its sheet's plan gives: the book step
      writes no link. */
  lemma ImportSubjectDirPlan(db: Db, dir: SubjectDir, cwd: string, now: Time)
    ensures var r := ImportSubjectDir(db, dir, cwd, now).db;
            var p := DirPlan(Codes(db.faculties), db.educationTypes, dir);
            Codes(r.faculties) == p.known && NewLinksShow(db, r, p.views)
  {
    var after := SubjectAndSheet(db, dir, now);
    SubjectAndSheetPlan(db, dir, now);
    var r := ImportSubjectDir(db, dir, cwd, now).db;
    assert r.links == after.db.links && r.subjects == after.db.subjects && r.faculties == after.db.faculties;
    NewLinksShowGrow(db, after.db, r, DirPlan(Codes(db.faculties), db.educationTypes, dir).views);
  }

  /** A walk that completes writes exactly the links of its plan, folder by folder. */
  lemma {:induction false} ImportEntriesPlan(db: Db, entries: seq<RootEntry>, cwd: string, now: Time)
    requires ImportEntries(db, entries, cwd, now).Completed?
    ensures var r := ImportEntries(db, entries, cwd, now).db;
            var p := WalkPlan(Codes(db.faculties), db.educationTypes, entries);
            Codes(r.faculties) == p.known && NewLinksShow(db, r, p.views)
    decreases |entries|
  {
    if entries != [] {
      var init := entries[..|entries| - 1];
      var last := entries[|entries| - 1];
      ImportEntriesLast(db, entries, cwd, now);
      var prev := ImportEntries(db, init, cwd, now);
      ImportEntriesPlan(db, init, cwd, now);
      if last.Directory? {
        var p := WalkPlan(Codes(db.faculties), db.educationTypes, init);
        var r := ImportSubjectDir(prev.db, last.dir, cwd, now).db;
        ImportSubjectDirPlan(prev.db, last.dir, cwd, now);
        NewLinksShowTrans(db, prev.db, r, p.views, DirPlan(p.known, db.educationTypes, last.dir).views);
      }
    }
  }

  /** `GET /update`: with a usable root, books, links and subjects are deleted and
      rebuilt from the tree. Faculties survive and are reused by code; subject names
      come out unique, one per folder; and the books are exactly the accepted files,
      folder by folder. */
  function BooksRefresh(db: Db, root: Listing<RootEntry>, cwd: string, now: Time): (r: Refresh)
    ensures root.Missing? || root.NotADirectory? ==> r == Refresh(BadRequest(InvalidRootMessage), db)
    ensures root.Unlistable? || root.Listed? ==>
      && KeepsOthers(db, r.db) && db.faculties <= r.db.faculties && NamesUnique(r.db.subjects)
    ensures root.Unlistable? ==>
      r.response == Failure(NullListing) && r.db.subjects == [] && r.db.links == [] && r.db.books == []
    ensures root.Listed? ==> NewSubjectsAreFolders(WipeCatalog(db), r.db, root.entries)
    ensures r.response.Ok? <==> root.Listed? && AllListable(root.entries)
    ensures r.response.Ok? ==>
      && r.response.body == BooksDoneMessage
      && BookCards(r.db.books) == ExpectedCards(root.entries, cwd)
      && |r.db.links| == |ExpectedLinks(db, root.entries)|
      && (forall k :: 0 <= k < |r.db.links| ==> ShowsLink(r.db, r.db.links[k].fields, ExpectedLinks(db, root.entries)[k]))
      && forall i :: 0 <= i < |root.entries| && root.entries[i].Directory? ==>
           FindSubjectByName(r.db.subjects, root.entries[i].dir.name).Some?
  {
    match root
    case Missing => Refresh(BadRequest(InvalidRootMessage), db)
    case NotADirectory => Refresh(BadRequest(InvalidRootMessage), db)
    case Unlistable => Refresh(Failure(NullListing), WipeCatalog(db))
    case Listed(entries) =>
      var wiped := WipeCatalog(db);
      var out := ImportEntries(wiped, entries, cwd, now);
      WalkKeepsNamesUnique(wiped, entries, cwd, now);
      WalkSubjectsAreFolders(wiped, entries, cwd, now);
      if out.Completed? then
        CompletedWalkCoversFolders(wiped, entries, cwd, now);
        ImportEntriesPlan(wiped, entries, cwd, now);
        assert BookCards([]) == [];
        Refresh(Ok(BooksDoneMessage), out.db)
      else
        Refresh(Failure(NullListing), out.db)
  }

  /** The books refresh keeps the store valid, whatever the tree holds. */
  lemma BooksRefreshValid(db: Db, root: Listing<RootEntry>, cwd: string, now: Time)
    requires Valid(db)
    ensures Valid(BooksRefresh(db, root, cwd, now).db)
  {
    WipeCatalogValid(db);
    if root.Listed? {
      ImportEntriesValid(WipeCatalog(db), root.entries, cwd, now);
    }
  }

  /* ---------------- the books handler, step by step ---------------- */

  /** One row of the mapping sheet, as the handler's loop body performs it. */
  method ImportSheetRow(store: Store, subject: nat, row: SheetRow)
    modifies store
    ensures store.db == ImportRow(old(store.db), subject, row)
  {
    var d := DecodeRow(row);
    if d.Mapping? {
      var lookup := FindOrCreateFaculty(store.db, d.code, d.name, d.educationTypeId);
      if lookup.Found? {
        store.db := InsertLink(store.db, Link(lookup.id, subject));
      } else if lookup.Created? {
        store.db := InsertLink(lookup.db, Link(lookup.id, subject));
      }
    }
  }

  /** Every row of the first sheet, in order. */
  method ImportSheet(store: Store, subject: nat, rows: seq<SheetRow>)
    modifies store
    ensures store.db == ImportRows(old(store.db), subject, rows)
  {
    ghost var start := store.db;
    var j := 0;
    while j < |rows|
      invariant 0 <= j <= |rows|
      invariant store.db == ImportRows(start, subject, rows[..j])
    {
      ImportSheetRow(store, subject, rows[j]);
      assert rows[..j + 1][..j] == rows[..j];
      j := j + 1;
    }
    assert rows[..j] == rows;
  }

  /** One entry of a subject's `adabiyotlar` folder, as the handler's loop body performs it. */
  method ImportBookEntry(store: Store, subject: nat, subjectName: string, file: Entry, cwd: string, now: Time)
    modifies store
    ensures store.db == ImportBookFile(old(store.db), subject, subjectName, file, cwd, now)
  {
    if file.isFile && '_' in file.name {
      var parts := Split(file.name, '_');
      if |parts| >= 4 {
        var book := Book(parts[0], "Book from " + subjectName, now, parts[1], parts[2],
                         StripExtensions(parts[3], BookExtensions), Some(BookPath(cwd, subjectName, file.name)),
                         subject, None, None, None, None);
        store.db := InsertBook(store.db, book);
      }
    }
  }

  /** Every entry of a subject's `adabiyotlar` folder, in listing order. */
  method ImportBookFolder(store: Store, subject: nat, subjectName: string, files: seq<Entry>, cwd: string, now: Time)
    modifies store
    ensures store.db == ImportBookFiles(old(store.db), subject, subjectName, files, cwd, now)
  {
    ghost var start := store.db;
    var j := 0;
    while j < |files|
      invariant 0 <= j <= |files|
      invariant store.db == ImportBookFiles(start, subject, subjectName, files[..j], cwd, now)
    {
      ImportBookEntry(store, subject, subjectName, files[j], cwd, now);
      assert files[..j + 1][..j] == files[..j];
      j := j + 1;
    }
    assert files[..j] == files;
  }

  /** One subject folder: the subject, the sheet rows, the book files. */
  method ImportSubjectFolder(store: Store, dir: SubjectDir, cwd: string, now: Time) returns (aborted: bool)
    modifies store
    ensures ImportSubjectDir(old(store.db), dir, cwd, now) == (if aborted then Aborted(store.db) else Completed(store.db))
  {
    var saved := FindOrCreateSubject(store.db, dir.name, Some("Description for " + dir.name), now);
    store.db := saved.db;
    if dir.sheet.Sheet? {
      ImportSheet(store, saved.id, dir.sheet.rows);
    }
    if dir.books.Unlistable? {
      return true;
    }
    if dir.books.Listed? {
      ImportBookFolder(store, saved.id, dir.name, dir.books.entries, cwd, now);
    }
    return false;
  }

  /** The walk over the entries of `./fanlar`, stopping at the first abort. */
  method WalkRoot(store: Store, entries: seq<RootEntry>, cwd: string, now: Time) returns (completed: bool)
    modifies store
    ensures ImportEntries(old(store.db), entries, cwd, now) == (if completed then Completed(store.db) else Aborted(store.db))
  {
    ghost var start := store.db;
    var i := 0;
    while i < |entries|
      invariant 0 <= i <= |entries|
      invariant ImportEntries(start, entries[..i], cwd, now) == Completed(store.db)
    {
      assert entries[..i + 1][..i] == entries[..i];
      ImportEntriesLast(start, entries[..i + 1], cwd, now);
      if entries[i].Directory? {
        var aborted := ImportSubjectFolder(store, entries[i].dir, cwd, now);
        if aborted {
          AbortedWalkStops(start, entries, i + 1, cwd, now);
          return false;
        }
      }
      i := i + 1;
    }
    assert entries[..i] == entries;
    return true;
  }

  /** `GET /update`, step by step over the store. */
  method UpdateBooksList(store: Store, root: Listing<RootEntry>, cwd: string, now: Time) returns (response: Response<string>)
    modifies store
    ensures Refresh(response, store.db) == BooksRefresh(old(store.db), root, cwd, now)
    ensures old(Valid(store.db)) ==> Valid(store.db)
  {
    ghost var initial := store.db;
    if Valid(initial) {
      BooksRefreshValid(initial, root, cwd, now);
    }
    if root.Missing? || root.NotADirectory? {
      return BadRequest(InvalidRootMessage);
    }
    store.db := WipeCatalog(store.db);
    if root.Unlistable? {
      return Failure(NullListing);
    }
    var completed := WalkRoot(store, root.entries, cwd, now);
    if !completed {
      return Failure(NullListing);
    }
    return Ok(BooksDoneMessage);
  }

  /* ---------------- the flat collections ---------------- */

  /** The two flat collections a refresh rebuilds from a single folder. */
  datatype Shelf = BadiiyShelf | AudioShelf

  /** The folder a shelf is read from, relative to the working directory. */
  function ShelfRoot(s: Shelf): string {
    if s == BadiiyShelf then "./badiiy" else "./audio"
  }

  /** The extensions removed from a shelf item's genre. */
  function ShelfExtensions(s: Shelf): (r: seq<string>)
    ensures ValidExtensions(r)
  {
    if s == BadiiyShelf then BookExtensions else AudioExtensions
  }

  function ShelfDescription(s: Shelf): string {
    if s == BadiiyShelf then "Badiiy book from folder" else "Audio book from folder"
  }

  function ShelfMessage(s: Shelf): string {
    if s == BadiiyShelf then BadiiyDoneMessage else AudioDoneMessage
  }

  function ShelfItems(db: Db, s: Shelf): seq<Row<Item>> {
    if s == BadiiyShelf then db.badiiy else db.audios
  }

  /** The shelf's table and the id counter are all that differ. */
  predicate OnlyShelfChanged(db: Db, r: Db, s: Shelf) {
    if s == BadiiyShelf then r == db.(badiiy := r.badiiy, nextId := r.nextId)
    else r == db.(audios := r.audios, nextId := r.nextId)
  }

  /** The item an accepted file of a shelf folder should produce, if any. */
  function ShelfItem(s: Shelf, e: Entry, cwd: string, now: Time): seq<Item> {
    match Accepted(e, ShelfExtensions(s))
    case None => []
    case Some(f) => [Item(f.name, f.author, f.publisher, f.genre, ShelfDescription(s), now,
                          AbsolutePath(cwd, ShelfRoot(s) + "/" + e.name))]
  }

  /** The items a shelf folder should produce, in listing order. */
  function ExpectedItems(s: Shelf, files: seq<Entry>, cwd: string, now: Time): seq<Item>
    decreases |files|
  {
    if files == [] then []
    else ExpectedItems(s, files[..|files| - 1], cwd, now) + ShelfItem(s, files[|files| - 1], cwd, now)
  }

  /** One entry of a shelf folder: an accepted file appends one item. */
  function ImportShelfFile(db: Db, s: Shelf, e: Entry, cwd: string, now: Time): (r: Db)
    ensures OnlyShelfChanged(db, r, s)
  {
    var item := ShelfItem(s, e, cwd, now);
    if item == [] then db
    else if s == BadiiyShelf then InsertBadiiy(db, item[0])
    else InsertAudio(db, item[0])
  }

  /** An entry adds to the shelf exactly the item it should produce. */
  lemma ImportShelfFileItems(db: Db, s: Shelf, e: Entry, cwd: string, now: Time)
    ensures Columns(ShelfItems(ImportShelfFile(db, s, e, cwd, now), s)) == Columns(ShelfItems(db, s)) + ShelfItem(s, e, cwd, now)
  {
    var item := ShelfItem(s, e, cwd, now);
    if item != [] {
      if s == BadiiyShelf {
        ColumnsAppend(db.badiiy, Row(db.nextId, item[0]));
      } else {
        ColumnsAppend(db.audios, Row(db.nextId, item[0]));
      }
    }
  }

  /** The entries of a shelf folder, in listing order. */
  function ImportShelfFiles(db: Db, s: Shelf, files: seq<Entry>, cwd: string, now: Time): Db
    decreases |files|
  {
    if files == [] then db
    else ImportShelfFile(ImportShelfFiles(db, s, files[..|files| - 1], cwd, now), s, files[|files| - 1], cwd, now)
  }

  /** A shelf folder changes only its shelf and the id counter. */
  lemma {:induction false} ImportShelfFilesOnlyShelf(db: Db, s: Shelf, files: seq<Entry>, cwd: string, now: Time)
    ensures OnlyShelfChanged(db, ImportShelfFiles(db, s, files, cwd, now), s)
    decreases |files|
  {
    if files != [] {
      ImportShelfFilesOnlyShelf(db, s, files[..|files| - 1], cwd, now);
    }
  }

  /** File `i` of a shelf folder is imported after the files before it. */
  lemma ImportShelfFilesStep(db: Db, s: Shelf, files: seq<Entry>, i: nat, cwd: string, now: Time)
    requires i < |files|
    ensures ImportShelfFiles(db, s, files[..i + 1], cwd, now) ==
            ImportShelfFile(ImportShelfFiles(db, s, files[..i], cwd, now), s, files[i], cwd, now)
  {
    assert files[..i + 1][..i] == files[..i];
  }

  /** A shelf folder adds to the shelf exactly the items its files should produce,
      in listing order. */
  lemma {:induction false} ImportShelfFilesItems(db: Db, s: Shelf, files: seq<Entry>, cwd: string, now: Time)
    ensures Columns(ShelfItems(ImportShelfFiles(db, s, files, cwd, now), s)) == Columns(ShelfItems(db, s)) + ExpectedItems(s, files, cwd, now)
    decreases |files|
  {
    if files == [] {
      assert Columns(ShelfItems(db, s)) + [] == Columns(ShelfItems(db, s));
    } else {
      var init := files[..|files| - 1];
      var last := files[|files| - 1];
      ImportShelfFilesItems(db, s, init, cwd, now);
      ImportShelfFileItems(ImportShelfFiles(db, s, init, cwd, now), s, last, cwd, now);
      Associative(Columns(ShelfItems(db, s)), ExpectedItems(s, init, cwd, now), ShelfItem(s, last, cwd, now));
    }
  }

  /** The shelf files keep the store valid. */
  lemma {:induction false} ImportShelfFilesValid(db: Db, s: Shelf, files: seq<Entry>, cwd: string, now: Time)
    requires Valid(db)
    ensures Valid(ImportShelfFiles(db, s, files, cwd, now))
    decreases |files|
  {
    if files != [] {
      ImportShelfFilesValid(db, s, files[..|files| - 1], cwd, now);
      var prev := ImportShelfFiles(db, s, files[..|files| - 1], cwd, now);
      var item := ShelfItem(s, files[|files| - 1], cwd, now);
      if item != [] {
        if s == BadiiyShelf { InsertBadiiyValid(prev, item[0]); } else { InsertAudioValid(prev, item[0]); }
      }
    }
  }

  /** The shelf emptied by `deleteAll`. */
  function ClearShelf(db: Db, s: Shelf): Db {
    if s == BadiiyShelf then db.(badiiy := []) else db.(audios := [])
  }

  /** `GET /update/badiiy` and `GET /update/audio`: with a usable root the shelf is
      emptied and refilled with exactly the accepted files of the folder, in listing
      order; no other table is touched. */
  function ShelfRefresh(db: Db, s: Shelf, root: Listing<Entry>, cwd: string, now: Time): (r: Refresh)
    ensures root.Missing? || root.NotADirectory? ==> r == Refresh(BadRequest(InvalidRootMessage), db)
    ensures OnlyShelfChanged(db, r.db, s)
    ensures root.Unlistable? ==> r.response == Failure(NullListing) && ShelfItems(r.db, s) == []
    ensures r.response.Ok? <==> root.Listed?
    ensures root.Listed? ==>
      && r.response == Ok(ShelfMessage(s))
      && Columns(ShelfItems(r.db, s)) == ExpectedItems(s, root.entries, cwd, now)
  {
    match root
    case Missing => Refresh(BadRequest(InvalidRootMessage), db)
    case NotADirectory => Refresh(BadRequest(InvalidRootMessage), db)
    case Unlistable => Refresh(Failure(NullListing), ClearShelf(db, s))
    case Listed(files) =>
      var cleared := ClearShelf(db, s);
      assert Columns(ShelfItems(cleared, s)) == [];
      ImportShelfFilesItems(cleared, s, files, cwd, now);
      ImportShelfFilesOnlyShelf(cleared, s, files, cwd, now);
      Refresh(Ok(ShelfMessage(s)), ImportShelfFiles(cleared, s, files, cwd, now))
  }

  /** Emptying a shelf keeps the store valid: nothing refers to its rows. */
  lemma ClearShelfValid(db: Db, s: Shelf)
    requires Valid(db)
    ensures Valid(ClearShelf(db, s))
  {
  }

  /** A shelf refresh keeps the store valid. */
  lemma ShelfRefreshValid(db: Db, s: Shelf, root: Listing<Entry>, cwd: string, now: Time)
    requires Valid(db)
    ensures Valid(ShelfRefresh(db, s, root, cwd, now).db)
  {
    ClearShelfValid(db, s);
    match root
    case Listed(files) =>
      ShelfRefreshListed(db, s, files, cwd, now);
      ImportShelfFilesValid(ClearShelf(db, s), s, files, cwd, now);
    case _ =>
  }

  /** One entry of a shelf folder, as the handler's loop body performs it. */
  method ImportShelfEntry(store: Store, s: Shelf, file: Entry, cwd: string, now: Time)
    modifies store
    ensures store.db == ImportShelfFile(old(store.db), s, file, cwd, now)
  {
    if file.isFile && '_' in file.name {
      var parts := Split(file.name, '_');
      if |parts| >= 4 {
        var item := Item(parts[0], parts[1], parts[2], StripExtensions(parts[3], ShelfExtensions(s)),
                         ShelfDescription(s), now, AbsolutePath(cwd, ShelfRoot(s) + "/" + file.name));
        if s == BadiiyShelf {
          store.db := InsertBadiiy(store.db, item);
        } else {
          store.db := InsertAudio(store.db, item);
        }
      }
    }
  }

  /** A shelf refresh, step by step over the store. */
  method RefreshShelf(store: Store, s: Shelf, root: Listing<Entry>, cwd: string, now: Time) returns (response: Response<string>)
    modifies store
    ensures Refresh(response, store.db) == ShelfRefresh(old(store.db), s, root, cwd, now)
  {
    if root.Missing? || root.NotADirectory? {
      return BadRequest(InvalidRootMessage);
    }
    ghost var initial := store.db;
    store.db := ClearShelf(store.db, s);
    if root.Unlistable? {
      return Failure(NullListing);
    }
    ImportShelfFolder(store, s, root.entries, cwd, now);
    ShelfRefreshListed(initial, s, root.entries, cwd, now);
    return Ok(ShelfMessage(s));
  }

  /** A listed shelf folder: the shelf is cleared, then refilled file by file. */
  lemma ShelfRefreshListed(db: Db, s: Shelf, files: seq<Entry>, cwd: string, now: Time)
    ensures ShelfRefresh(db, s, Listed(files), cwd, now) ==
            Refresh(Ok(ShelfMessage(s)), ImportShelfFiles(ClearShelf(db, s), s, files, cwd, now))
  {
  }

  /** The entries of a shelf folder, in listing order. */
  method ImportShelfFolder(store: Store, s: Shelf, files: seq<Entry>, cwd: string, now: Time)
    modifies store
    ensures store.db == ImportShelfFiles(old(store.db), s, files, cwd, now)
  {
    ghost var start := store.db;
    var i := 0;
    while i < |files|
      invariant 0 <= i <= |files|
      invariant store.db == ImportShelfFiles(start, s, files[..i], cwd, now)
    {
      ImportShelfEntry(store, s, files[i], cwd, now);
      ImportShelfFilesStep(start, s, files, i, cwd, now);
      i := i + 1;
    }
    assert files[..i] == files;
  }

  /** `GET /update/badiiy`. */
  method UpdateBadiiyBooks(store: Store, root: Listing<Entry>, cwd: string, now: Time) returns (response: Response<string>)
    modifies store
    ensures Refresh(response, store.db) == ShelfRefresh(old(store.db), BadiiyShelf, root, cwd, now)
    ensures old(Valid(store.db)) ==> Valid(store.db)
  {
    if Valid(store.db) {
      ShelfRefreshValid(store.db, BadiiyShelf, root, cwd, now);
    }
    response := RefreshShelf(store, BadiiyShelf, root, cwd, now);
  }

  /** `GET /update/audio`. */
  method UpdateAudioBooks(store: Store, root: Listing<Entry>, cwd: string, now: Time) returns (response: Response<string>)
    modifies store
    ensures Refresh(response, store.db) == ShelfRefresh(old(store.db), AudioShelf, root, cwd, now)
    ensures old(Valid(store.db)) ==> Valid(store.db)
  {
    if Valid(store.db) {
      ShelfRefreshValid(store.db, AudioShelf, root, cwd, now);
    }
    response := RefreshShelf(store, AudioShelf, root, cwd, now);
  }
}
