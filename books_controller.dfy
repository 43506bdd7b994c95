/** The book endpoints of `/api/v1/books`: create with its duplicate guard, update
    with partial attachments, delete, the library-copy setting and the rows of the
    spreadsheet report. */
module BooksController {
  import opened Wrappers
  import opened JavaText
  import opened Catalog
  import opened Registry

  const SubjectNotFound: string := "Subject not found"
  const BookNotFound: string := "Book not found"
  const AttachmentNotFound: string := "Attachment not found"
  const DuplicateBook: string := "Book already exists for this subject"
  const BookDeleted: string := "Book deleted successfully"

  /** The fields of a `BookDTO` the create and update handlers read. */
  datatype BookForm = BookForm(
    name: string, description: string, author: string, publisher: string, genre: string,
    path: Option<string>, subjectId: nat, imageId: Option<nat>, pdfId: Option<nat>)

  /** No two books share both name and subject: what the create guard maintains. */
  predicate NoDuplicateBooks(books: seq<Row<Book>>) {
    forall i, j :: 0 <= i < j < |books| ==>
      books[i].fields.name != books[j].fields.name || books[i].fields.subject != books[j].fields.subject
  }

  /* ---------------- getAttachment ---------------- */

  /** `getAttachment`: no attachment for a null id, the attachment for a stored id, and
      a failure for an id that is not stored. */
  function GetAttachment(attachments: seq<Row<Attachment>>, id: Option<nat>): (r: Response<Option<nat>>)
    ensures r.Ok? || r == Failure(AttachmentNotFound)
    ensures r.Ok? <==> id.None? || Has(attachments, id.value)
    ensures r.Ok? ==> r.body == id
  {
    if id.None? then Ok(None)
    else if Find(attachments, id.value).Some? then Ok(id)
    else Failure(AttachmentNotFound)
  }

  /* ---------------- getOne ---------------- */

  /** `getOne`: the stored book with that id, or a failure for an unknown id. */
  function GetOne(db: Db, id: nat): (r: Response<Row<Book>>)
    ensures r.Ok? <==> Has(db.books, id)
    ensures !r.Ok? ==> r == Failure(BookNotFound)
    ensures r.Ok? ==> r.body in db.books && r.body.id == id
  {
    match Find(db.books, id)
    case None => Failure(BookNotFound)
    case Some(k) => Ok(db.books[k])
  }

  /* ---------------- create ---------------- */

  /** The book `create` builds: no library fields yet. */
  function NewBook(form: BookForm, now: Time): Book {
    Book(form.name, form.description, now, form.author, form.publisher, form.genre, form.path,
         form.subjectId, form.imageId, form.pdfId, None, None)
  }

  /** `create`: an unknown subject fails, a name already used in the subject is a bad
      request, an unknown attachment fails; otherwise the book is saved. Only success
      writes. */
  function Create(db: Db, form: BookForm, now: Time): (r: Reply<Row<Book>>)
    ensures !Has(db.subjects, form.subjectId) ==> r == Reply(Failure(SubjectNotFound), db)
    ensures Has(db.subjects, form.subjectId) && HasBookNamed(db.books, form.name, form.subjectId) ==>
      r == Reply(BadRequest(DuplicateBook), db)
    ensures r.response.Ok? <==>
      && Has(db.subjects, form.subjectId) && !HasBookNamed(db.books, form.name, form.subjectId)
      && GetAttachment(db.attachments, form.imageId).Ok? && GetAttachment(db.attachments, form.pdfId).Ok?
    ensures r.response.Ok? ==>
      r.db == InsertBook(db, NewBook(form, now)) && r.response.body == Row(db.nextId, NewBook(form, now))
    ensures !r.response.Ok? ==> r.db == db
  {
    if Find(db.subjects, form.subjectId).None? then Reply(Failure(SubjectNotFound), db)
    else if HasBookNamed(db.books, form.name, form.subjectId) then Reply(BadRequest(DuplicateBook), db)
    else if GetAttachment(db.attachments, form.imageId).Failure? then Reply(Failure(AttachmentNotFound), db)
    else if GetAttachment(db.attachments, form.pdfId).Failure? then Reply(Failure(AttachmentNotFound), db)
    else Reply(Ok(Row(db.nextId, NewBook(form, now))), InsertBook(db, NewBook(form, now)))
  }

  /** The guard works: through `create` alone the books never hold two rows of the same
      name and subject, and a created book can be found by its name afterwards. */
  lemma CreateKeepsNoDuplicates(db: Db, form: BookForm, now: Time)
    requires NoDuplicateBooks(db.books)
    ensures NoDuplicateBooks(Create(db, form, now).db.books)
    ensures Create(db, form, now).response.Ok? ==> HasBookNamed(Create(db, form, now).db.books, form.name, form.subjectId)
  {
    var r := Create(db, form, now);
    if r.response.Ok? {
      var n := |db.books|;
      assert r.db.books[n].fields.name == form.name && r.db.books[n].fields.subject == form.subjectId;
      forall i | 0 <= i < n
        ensures r.db.books[i].fields.name != form.name || r.db.books[i].fields.subject != form.subjectId
      {
        assert r.db.books[i] == db.books[i];
      }
    }
  }

  /** `create` keeps the store valid. */
  lemma CreateValid(db: Db, form: BookForm, now: Time)
    requires Valid(db)
    ensures Valid(Create(db, form, now).db)
  {
    if Create(db, form, now).response.Ok? {
      InsertBookValid(db, NewBook(form, now));
    }
  }

  /* ---------------- update ---------------- */

  /** The setters of `update`: every form field is written, except that an image or pdf
      is replaced only by a non-null id. */
  function Edited(b: Book, form: BookForm): Book {
    b.(name := form.name, description := form.description, author := form.author,
       publisher := form.publisher, genre := form.genre, path := form.path, subject := form.subjectId,
       image := if form.imageId.Some? then form.imageId else b.image,
       pdf := if form.pdfId.Some? then form.pdfId else b.pdf)
  }

  /** `update`: an unknown book, subject or (non-null) attachment fails and writes
      nothing; otherwise the book's row is rewritten in place. */
  function Update(db: Db, id: nat, form: BookForm): (r: Reply<Row<Book>>)
    ensures Find(db.books, id).None? ==> r == Reply(Failure(BookNotFound), db)
    ensures r.response.Ok? <==>
      && Find(db.books, id).Some? && Has(db.subjects, form.subjectId)
      && GetAttachment(db.attachments, form.imageId).Ok? && GetAttachment(db.attachments, form.pdfId).Ok?
    ensures !r.response.Ok? ==> r.db == db
    ensures r.response.Ok? ==>
      var k := Find(db.books, id).value;
      && r.response.body == Row(id, Edited(db.books[k].fields, form))
      && r.db == db.(books := db.books[k := Row(id, Edited(db.books[k].fields, form))])
  {
    match Find(db.books, id)
    case None => Reply(Failure(BookNotFound), db)
    case Some(k) =>
      if Find(db.subjects, form.subjectId).None? then Reply(Failure(SubjectNotFound), db)
      else if GetAttachment(db.attachments, form.imageId).Failure? then Reply(Failure(AttachmentNotFound), db)
      else if GetAttachment(db.attachments, form.pdfId).Failure? then Reply(Failure(AttachmentNotFound), db)
      else
        var row := Row(id, Edited(db.books[k].fields, form));
        Reply(Ok(row), db.(books := db.books[k := row]))
  }

  /** What an update changes in the book: the form's fields, attachments only when a
      new id is given (so an attachment is never cleared), and never the creation time
      or the library fields. */
  lemma EditedFields(b: Book, form: BookForm)
    ensures var e := Edited(b, form);
      && e.name == form.name && e.description == form.description && e.author == form.author
      && e.publisher == form.publisher && e.genre == form.genre && e.path == form.path
      && e.subject == form.subjectId
      && e.image == (if form.imageId.Some? then form.imageId else b.image)
      && e.pdf == (if form.pdfId.Some? then form.pdfId else b.pdf)
      && (b.image.Some? ==> e.image.Some?) && (b.pdf.Some? ==> e.pdf.Some?)
      && e.createdAt == b.createdAt && e.isHaveLibrary == b.isHaveLibrary && e.libraryCount == b.libraryCount
  {
  }

  /** `update` has no duplicate check: renaming a book to the name another book of the
      target subject already has succeeds and leaves two such books. */
  lemma UpdateSkipsNameGuard(db: Db, id: nat, form: BookForm, j: nat)
    requires Update(db, id, form).response.Ok?
    requires j < |db.books| && db.books[j].id != id
    requires db.books[j].fields.name == form.name && db.books[j].fields.subject == form.subjectId
    ensures !NoDuplicateBooks(Update(db, id, form).db.books)
  {
    var k := Find(db.books, id).value;
    var books := Update(db, id, form).db.books;
    assert books[j] == db.books[j] && books[k].fields.name == form.name && books[k].fields.subject == form.subjectId;
    if j < k {
      assert !(books[j].fields.name != books[k].fields.name || books[j].fields.subject != books[k].fields.subject);
    } else {
      assert !(books[k].fields.name != books[j].fields.name || books[k].fields.subject != books[j].fields.subject);
    }
  }

  /** `update` keeps the store valid. */
  lemma UpdateValid(db: Db, id: nat, form: BookForm)
    requires Valid(db)
    ensures Valid(Update(db, id, form).db)
  {
    var r := Update(db, id, form);
    if r.response.Ok? {
      var k := Find(db.books, id).value;
      var e := Edited(db.books[k].fields, form);
      TableSet(db.books, db.nextId, k, e);
      assert BookTargets(db, db.books[k].fields);
      assert BookTargets(r.db, e);
      forall i | 0 <= i < |r.db.books| ensures BookTargets(r.db, r.db.books[i].fields) {
        if i != k {
          assert BookTargets(db, db.books[i].fields);
        }
      }
    }
  }

  /** The update handler, step by step: look the book up, then run the setters on it. */
  method UpdateBook(store: Store, id: nat, form: BookForm) returns (response: Response<Row<Book>>)
    modifies store
    ensures Reply(response, store.db) == Update(old(store.db), id, form)
  {
    var found := Find(store.db.books, id);
    if found.None? {
      return Failure(BookNotFound);
    }
    if Find(store.db.subjects, form.subjectId).None? {
      return Failure(SubjectNotFound);
    }
    var image := GetAttachment(store.db.attachments, form.imageId);
    if image.Failure? {
      return Failure(AttachmentNotFound);
    }
    var pdf := GetAttachment(store.db.attachments, form.pdfId);
    if pdf.Failure? {
      return Failure(AttachmentNotFound);
    }
    var k := found.value;
    var book := store.db.books[k].fields;
    book := book.(name := form.name, description := form.description, author := form.author);
    book := book.(publisher := form.publisher, genre := form.genre, path := form.path, subject := form.subjectId);
    if form.imageId != None {
      book := book.(image := image.body);
    }
    if form.pdfId != None {
      book := book.(pdf := pdf.body);
    }
    store.db := store.db.(books := store.db.books[k := Row(id, book)]);
    response := Ok(Row(id, book));
  }

  /* ---------------- delete ---------------- */

  /** `delete`: an absent id is not found and removes nothing; otherwise that row goes. */
  function Delete(db: Db, id: nat): (r: Reply<string>)
    ensures Find(db.books, id).None? <==> r == Reply(NotFound, db)
    ensures r.response.Ok? <==> Find(db.books, id).Some?
    ensures r.response.Ok? ==> r.response.body == BookDeleted
    ensures r.response.Ok? ==> r.db == db.(books := RemoveAt(db.books, Find(db.books, id).value))
  {
    match Find(db.books, id)
    case None => Reply(NotFound, db)
    case Some(k) => Reply(Ok(BookDeleted), db.(books := RemoveAt(db.books, k)))
  }

  /** A delete removes exactly the book with that id: afterwards no book has it, and
      every other book is still there. */
  lemma DeleteRemovesExactly(db: Db, id: nat, other: nat)
    requires Table(db.books, db.nextId)
    requires Delete(db, id).response.Ok?
    ensures !Has(Delete(db, id).db.books, id)
    ensures other != id ==> (Has(Delete(db, id).db.books, other) <==> Has(db.books, other))
  {
    RemoveAtHas(db.books, db.nextId, Find(db.books, id).value, other);
  }

  /** Books are not referenced by other rows, so a delete keeps the store valid. */
  lemma DeleteValid(db: Db, id: nat)
    requires Valid(db)
    ensures Valid(Delete(db, id).db)
  {
    var r := Delete(db, id);
    if r.response.Ok? {
      var k := Find(db.books, id).value;
      TableRemove(db.books, db.nextId, k);
      forall i | 0 <= i < |r.db.books| ensures BookTargets(r.db, r.db.books[i].fields) {
        if i < k {
          assert r.db.books[i] == db.books[i];
        } else {
          assert r.db.books[i] == db.books[i + 1];
        }
      }
    }
  }

  /* ---------------- putBookInLibrary ---------------- */

  /** `putBookInLibrary`: an unknown id is not found; otherwise a count of 0 clears the
      flag and stores 0, and any other count, negative ones included, sets the flag and
      stores the count. Nothing else of the book changes. */
  function PutBookInLibrary(db: Db, id: nat, count: int): (r: Reply<Row<Book>>)
    ensures Find(db.books, id).None? <==> r == Reply(NotFound, db)
    ensures r.response.Ok? <==> Find(db.books, id).Some?
    ensures r.response.Ok? ==>
      var k := Find(db.books, id).value;
      var b := db.books[k].fields;
      && r.response.body == Row(id, b.(isHaveLibrary := Some(count != 0), libraryCount := Some(count)))
      && r.db == db.(books := db.books[k := Row(id, b.(isHaveLibrary := Some(count != 0), libraryCount := Some(count)))])
  {
    match Find(db.books, id)
    case None => Reply(NotFound, db)
    case Some(k) =>
      var b := db.books[k].fields;
      var stored :=
        if count == 0 then b.(isHaveLibrary := Some(false), libraryCount := Some(0))
        else b.(isHaveLibrary := Some(true), libraryCount := Some(count));
      Reply(Ok(Row(id, stored)), db.(books := db.books[k := Row(id, stored)]))
  }

  /** The library setting keeps the store valid. */
  lemma PutBookInLibraryValid(db: Db, id: nat, count: int)
    requires Valid(db)
    ensures Valid(PutBookInLibrary(db, id, count).db)
  {
    var r := PutBookInLibrary(db, id, count);
    if r.response.Ok? {
      var k := Find(db.books, id).value;
      TableSet(db.books, db.nextId, k, r.response.body.fields);
      forall i | 0 <= i < |r.db.books| ensures BookTargets(r.db, r.db.books[i].fields) {
        assert BookTargets(db, db.books[i].fields);
      }
    }
  }

  /** The handler, step by step: find the book, run the two setters, save. */
  method PutInLibrary(store: Store, id: nat, count: int) returns (response: Response<Row<Book>>)
    modifies store
    ensures Reply(response, store.db) == PutBookInLibrary(old(store.db), id, count)
  {
    var found := Find(store.db.books, id);
    if found.None? {
      return NotFound;
    }
    var k := found.value;
    var book := store.db.books[k].fields;
    if count == 0 {
      book := book.(isHaveLibrary := Some(false));
      book := book.(libraryCount := Some(0));
    } else {
      book := book.(isHaveLibrary := Some(true));
      book := book.(libraryCount := Some(count));
    }
    store.db := store.db.(books := store.db.books[k := Row(id, book)]);
    response := Ok(Row(id, book));
  }

  /* ---------------- getHisobot ---------------- */

  /** The header row of the report. */
  const ReportHeader: seq<string> := [
    "№", "Adabiyot nomi", "Muallif", "Nashriyot", "Adabiyot turi",
    "Silka", "Yo'nalish", "Fan", "Kutubxonada bor", "Soni"]

  const BookLinkPrefix: string := "https://library.bxu.uz/book/"
  const InLibrary: string := "Ha"
  const NotInLibrary: string := "Yo‘q"

  /** One data row of the report, column by column. */
  datatype ReportLine = ReportLine(
    number: int, name: string, author: string, publisher: string, genre: string,
    link: string, faculty: string, subject: string, inLibrary: string, count: int)

  /** What a data row is made from: a faculty, a subject linked to it, a book of it. */
  datatype ReportEntry = ReportEntry(faculty: Row<Faculty>, subject: Row<Subject>, book: Row<Book>)

  /** `findAllSubjectsByFacultyId`: the links of a faculty, in table order. */
  function LinksOf(links: seq<Row<Link>>, facultyId: nat): (r: seq<Row<Link>>)
    ensures forall l :: l in r ==> l in links && l.fields.faculty == facultyId
    decreases |links|
  {
    if links == [] then []
    else
      var last := links[|links| - 1];
      LinksOf(links[..|links| - 1], facultyId) + (if last.fields.faculty == facultyId then [last] else [])
  }

  /** `findBySubjectId`: the books of a subject, in table order. */
  function BooksOf(books: seq<Row<Book>>, subjectId: nat): (r: seq<Row<Book>>)
    ensures forall b :: b in r ==> b in books && b.fields.subject == subjectId
    decreases |books|
  {
    if books == [] then []
    else
      var last := books[|books| - 1];
      BooksOf(books[..|books| - 1], subjectId) + (if last.fields.subject == subjectId then [last] else [])
  }

  /** Every link names a stored subject, as the foreign key guarantees. */
  predicate LinksResolve(db: Db) {
    forall k :: 0 <= k < |db.links| ==> Has(db.subjects, db.links[k].fields.subject)
  }

  /** The subject row a link points at. */
  function SubjectRow(db: Db, id: nat): Row<Subject>
    requires Has(db.subjects, id)
  {
    db.subjects[Find(db.subjects, id).value]
  }

  /** One entry per book, in order, for a faculty and a subject. */
  function BookEntries(f: Row<Faculty>, subject: Row<Subject>, books: seq<Row<Book>>): (r: seq<ReportEntry>)
    ensures |r| == |books|
    decreases |books|
  {
    if books == [] then []
    else BookEntries(f, subject, books[..|books| - 1]) + [ReportEntry(f, subject, books[|books| - 1])]
  }

  /** The entries of one link: one per book of its subject. */
  function LinkEntries(db: Db, f: Row<Faculty>, l: Row<Link>): seq<ReportEntry>
    requires Has(db.subjects, l.fields.subject)
  {
    BookEntries(f, SubjectRow(db, l.fields.subject), BooksOf(db.books, l.fields.subject))
  }

  /** The entries of one faculty, link by link. */
  function FacultyEntries(db: Db, f: Row<Faculty>, links: seq<Row<Link>>): seq<ReportEntry>
    requires forall l :: l in links ==> Has(db.subjects, l.fields.subject)
    decreases |links|
  {
    if links == [] then []
    else FacultyEntries(db, f, links[..|links| - 1]) + LinkEntries(db, f, links[|links| - 1])
  }

  /** The entries of the report, faculty by faculty. */
  function Entries(db: Db, faculties: seq<Row<Faculty>>): seq<ReportEntry>
    requires LinksResolve(db)
    decreases |faculties|
  {
    if faculties == [] then []
    else
      var f := faculties[|faculties| - 1];
      Entries(db, faculties[..|faculties| - 1]) + FacultyEntries(db, f, LinksOf(db.links, f.id))
  }

  /** The row written for an entry: the link to the book's page, "Ha" exactly when
      the library flag is TRUE, and a missing count shown as 0. */
  function Line(number: int, e: ReportEntry): (r: ReportLine)
    ensures r.number == number
    ensures r.inLibrary == InLibrary <==> e.book.fields.isHaveLibrary == Some(true)
    ensures r.count == if e.book.fields.libraryCount.Some? then e.book.fields.libraryCount.value else 0
    ensures r.link == BookLinkPrefix + IntToString(e.book.id)
  {
    var b := e.book.fields;
    ReportLine(number, b.name, b.author, b.publisher, b.genre, BookLinkPrefix + IntToString(e.book.id),
               e.faculty.fields.name, e.subject.fields.name,
               if b.isHaveLibrary == Some(true) then InLibrary else NotInLibrary,
               b.libraryCount.GetOr(0))
  }

  /** Entries written as consecutive rows from the starting number on. */
  predicate NumberedFrom(lines: seq<ReportLine>, start: int, entries: seq<ReportEntry>) {
    |lines| == |entries| && forall i :: 0 <= i < |lines| ==> lines[i] == Line(start + i, entries[i])
  }

  /** The body of `getHisobot`: nested loops over faculties, their links and the
      books of each link's subject, numbering rows 1, 2, 3, … with no gap. */
  method ReportLines(db: Db) returns (lines: seq<ReportLine>)
    requires LinksResolve(db)
    ensures NumberedFrom(lines, 1, Entries(db, db.faculties))
  {
    lines := [];
    var counter := 1;
    var i := 0;
    while i < |db.faculties|
      invariant 0 <= i <= |db.faculties|
      invariant NumberedFrom(lines, 1, Entries(db, db.faculties[..i]))
      invariant counter == |lines| + 1
    {
      assert db.faculties[..i + 1][..i] == db.faculties[..i];
      lines, counter := FacultyLines(db, db.faculties[i], lines, counter, Entries(db, db.faculties[..i]));
      i := i + 1;
    }
    assert db.faculties[..i] == db.faculties;
  }

  /** The loop over one faculty's links. */
  method FacultyLines(db: Db, f: Row<Faculty>, lines: seq<ReportLine>, counter: int, ghost done: seq<ReportEntry>)
    returns (lines': seq<ReportLine>, counter': int)
    requires LinksResolve(db)
    requires NumberedFrom(lines, 1, done) && counter == |lines| + 1
    ensures NumberedFrom(lines', 1, done + FacultyEntries(db, f, LinksOf(db.links, f.id))) && counter' == |lines'| + 1
  {
    var links := LinksOf(db.links, f.id);
    lines', counter' := lines, counter;
    var j := 0;
    while j < |links|
      invariant 0 <= j <= |links|
      invariant NumberedFrom(lines', 1, done + FacultyEntries(db, f, links[..j])) && counter' == |lines'| + 1
    {
      ghost var before := done + FacultyEntries(db, f, links[..j]);
      lines', counter' := LinkLines(db, f, links[j], lines', counter', before);
      FacultyEntriesNext(db, f, links, j, done);
      j := j + 1;
    }
    assert links[..j] == links;
  }

  /** The entries up to link `j + 1` are those up to link `j` and then link `j`'s. */
  lemma FacultyEntriesNext(db: Db, f: Row<Faculty>, links: seq<Row<Link>>, j: nat, done: seq<ReportEntry>)
    requires j < |links| && forall l :: l in links ==> Has(db.subjects, l.fields.subject)
    ensures done + FacultyEntries(db, f, links[..j]) + LinkEntries(db, f, links[j]) == done + FacultyEntries(db, f, links[..j + 1])
  {
    assert links[..j + 1][..j] == links[..j];
  }

  /** The innermost loop: one row per book of the link's subject. */
  method LinkLines(db: Db, f: Row<Faculty>, link: Row<Link>, lines: seq<ReportLine>, counter: int, ghost done: seq<ReportEntry>)
    returns (lines': seq<ReportLine>, counter': int)
    requires Has(db.subjects, link.fields.subject)
    requires NumberedFrom(lines, 1, done) && counter == |lines| + 1
    ensures NumberedFrom(lines', 1, done + LinkEntries(db, f, link)) && counter' == |lines'| + 1
  {
    var subject := SubjectRow(db, link.fields.subject);
    var books := BooksOf(db.books, link.fields.subject);
    lines', counter' := lines, counter;
    var k := 0;
    while k < |books|
      invariant 0 <= k <= |books|
      invariant NumberedFrom(lines', 1, done + BookEntries(f, subject, books[..k])) && counter' == |lines'| + 1
    {
      assert books[..k + 1][..k] == books[..k];
      var e := ReportEntry(f, subject, books[k]);
      assert done + BookEntries(f, subject, books[..k + 1]) == (done + BookEntries(f, subject, books[..k])) + [e];
      lines' := lines' + [Line(counter', e)];
      counter' := counter' + 1;
      k := k + 1;
    }
    assert books[..k] == books;
  }

  /* ---------------- what the report lists ---------------- */

  /** How many entries show this book. */
  function Appearances(entries: seq<ReportEntry>, b: Row<Book>): nat
    decreases |entries|
  {
    if entries == [] then 0
    else Appearances(entries[..|entries| - 1], b) + (if entries[|entries| - 1].book == b then 1 else 0)
  }

  /** How many times a row occurs in a list of books. */
  function Copies(books: seq<Row<Book>>, b: Row<Book>): nat
    decreases |books|
  {
    if books == [] then 0
    else Copies(books[..|books| - 1], b) + (if books[|books| - 1] == b then 1 else 0)
  }

  /** How many of these links join the given subject. */
  function SubjectLinks(links: seq<Row<Link>>, subject: nat): nat
    decreases |links|
  {
    if links == [] then 0
    else SubjectLinks(links[..|links| - 1], subject) + (if links[|links| - 1].fields.subject == subject then 1 else 0)
  }

  /** The (faculty, link) pairs the report's loops visit for a subject. */
  function LinkRows(db: Db, faculties: seq<Row<Faculty>>, subject: nat): nat
    decreases |faculties|
  {
    if faculties == [] then 0
    else
      var f := faculties[|faculties| - 1];
      LinkRows(db, faculties[..|faculties| - 1], subject) + SubjectLinks(LinksOf(db.links, f.id), subject)
  }

  lemma {:induction false} AppearancesAppend(a: seq<ReportEntry>, c: seq<ReportEntry>, b: Row<Book>)
    ensures Appearances(a + c, b) == Appearances(a, b) + Appearances(c, b)
    decreases |c|
  {
    if c != [] {
      assert (a + c)[..|a + c| - 1] == a + c[..|c| - 1];
      assert (a + c)[|a + c| - 1] == c[|c| - 1];
      AppearancesAppend(a, c[..|c| - 1], b);
    } else {
      assert a + c == a;
    }
  }

  /** Entries for a list of books show each book as often as the list holds it. */
  lemma {:induction false} BookEntriesAppearances(f: Row<Faculty>, subject: Row<Subject>, books: seq<Row<Book>>, b: Row<Book>)
    ensures Appearances(BookEntries(f, subject, books), b) == Copies(books, b)
    decreases |books|
  {
    if books != [] {
      var init := BookEntries(f, subject, books[..|books| - 1]);
      BookEntriesAppearances(f, subject, books[..|books| - 1], b);
      assert (init + [ReportEntry(f, subject, books[|books| - 1])])[..|init|] == init;
    }
  }

  /** Filtering by subject keeps every copy of a book of that subject and none of the others. */
  lemma {:induction false} BooksOfCopies(books: seq<Row<Book>>, subject: nat, b: Row<Book>)
    ensures Copies(BooksOf(books, subject), b) == if b.fields.subject == subject then Copies(books, b) else 0
    decreases |books|
  {
    if books != [] {
      var last := books[|books| - 1];
      var init := BooksOf(books[..|books| - 1], subject);
      BooksOfCopies(books[..|books| - 1], subject, b);
      if last.fields.subject == subject {
        assert (init + [last])[..|init|] == init;
      } else {
        assert init + [] == init;
      }
    }
  }

  /** A row that is not in the list has no copies in it. */
  lemma {:induction false} CopiesAbsent(books: seq<Row<Book>>, b: Row<Book>)
    requires b !in books
    ensures Copies(books, b) == 0
    decreases |books|
  {
    if books != [] {
      CopiesAbsent(books[..|books| - 1], b);
    }
  }

  /** In a table with distinct ids every stored book occurs exactly once. */
  lemma {:induction false} CopiesInTable(books: seq<Row<Book>>, bound: nat, b: Row<Book>)
    requires Table(books, bound) && b in books
    ensures Copies(books, b) == 1
    decreases |books|
  {
    var init := books[..|books| - 1];
    var last := books[|books| - 1];
    assert books == init + [last];
    if last == b {
      CopiesAbsent(init, b);
    } else {
      CopiesInTable(init, bound, b);
    }
  }

  /** One faculty shows a book once per link of the faculty to the book's subject. */
  lemma {:induction false} FacultyEntriesAppearances(db: Db, f: Row<Faculty>, links: seq<Row<Link>>, b: Row<Book>)
    requires forall l :: l in links ==> Has(db.subjects, l.fields.subject)
    requires Table(db.books, db.nextId) && b in db.books
    ensures Appearances(FacultyEntries(db, f, links), b) == SubjectLinks(links, b.fields.subject)
    decreases |links|
  {
    if links != [] {
      var l := links[|links| - 1];
      FacultyEntriesAppearances(db, f, links[..|links| - 1], b);
      AppearancesAppend(FacultyEntries(db, f, links[..|links| - 1]), LinkEntries(db, f, l), b);
      BookEntriesAppearances(f, SubjectRow(db, l.fields.subject), BooksOf(db.books, l.fields.subject), b);
      BooksOfCopies(db.books, l.fields.subject, b);
      CopiesInTable(db.books, db.nextId, b);
    }
  }

  /** The report lists a stored book once for every (faculty, link) row that joins the
      faculty to the book's subject, and never otherwise. */
  lemma {:induction false} EntriesAppearances(db: Db, faculties: seq<Row<Faculty>>, b: Row<Book>)
    requires LinksResolve(db) && Table(db.books, db.nextId) && b in db.books
    ensures Appearances(Entries(db, faculties), b) == LinkRows(db, faculties, b.fields.subject)
    decreases |faculties|
  {
    if faculties != [] {
      var f := faculties[|faculties| - 1];
      var links := LinksOf(db.links, f.id);
      EntriesAppearances(db, faculties[..|faculties| - 1], b);
      AppearancesAppend(Entries(db, faculties[..|faculties| - 1]), FacultyEntries(db, f, links), b);
      FacultyEntriesAppearances(db, f, links, b);
    }
  }

  /** Every entry is made of a listed faculty, a stored subject that faculty is linked
      to, and a stored book of that subject. */
  predicate EntrySound(db: Db, faculties: seq<Row<Faculty>>, e: ReportEntry) {
    && e.faculty in faculties && e.subject in db.subjects && e.book in db.books
    && e.book.fields.subject == e.subject.id
    && HasLinkPair(db.links, e.faculty.id, e.subject.id)
  }

  lemma {:induction false} BookEntriesSound(db: Db, faculties: seq<Row<Faculty>>, f: Row<Faculty>, l: Row<Link>, books: seq<Row<Book>>)
    requires f in faculties && l in db.links && l.fields.faculty == f.id && Has(db.subjects, l.fields.subject)
    requires forall b :: b in books ==> b in db.books && b.fields.subject == l.fields.subject
    ensures forall e :: e in BookEntries(f, SubjectRow(db, l.fields.subject), books) ==> EntrySound(db, faculties, e)
    decreases |books|
  {
    if books != [] {
      BookEntriesSound(db, faculties, f, l, books[..|books| - 1]);
      var k :| 0 <= k < |db.links| && db.links[k] == l;
      assert db.links[k].fields == Link(f.id, SubjectRow(db, l.fields.subject).id);
    }
  }

  lemma {:induction false} FacultyEntriesSound(db: Db, faculties: seq<Row<Faculty>>, f: Row<Faculty>, links: seq<Row<Link>>)
    requires f in faculties
    requires forall l :: l in links ==> l in db.links && l.fields.faculty == f.id && Has(db.subjects, l.fields.subject)
    ensures forall e :: e in FacultyEntries(db, f, links) ==> EntrySound(db, faculties, e)
    decreases |links|
  {
    if links != [] {
      var l := links[|links| - 1];
      FacultyEntriesSound(db, faculties, f, links[..|links| - 1]);
      BookEntriesSound(db, faculties, f, l, BooksOf(db.books, l.fields.subject));
    }
  }

  /** Every row of the report is sound. */
  lemma {:induction false} EntriesSound(db: Db, faculties: seq<Row<Faculty>>)
    requires LinksResolve(db)
    ensures forall e :: e in Entries(db, faculties) ==> EntrySound(db, faculties, e)
    decreases |faculties|
  {
    if faculties != [] {
      var f := faculties[|faculties| - 1];
      var init := faculties[..|faculties| - 1];
      EntriesSound(db, init);
      forall l | l in LinksOf(db.links, f.id)
        ensures Has(db.subjects, l.fields.subject)
      {
        var k :| 0 <= k < |db.links| && db.links[k] == l;
      }
      FacultyEntriesSound(db, faculties, f, LinksOf(db.links, f.id));
      forall e | e in Entries(db, init) ensures EntrySound(db, faculties, e) {
        assert EntrySound(db, init, e);
      }
    }
  }
}
