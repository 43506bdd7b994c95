/** The relational store behind the library backend: education types, subjects,
    faculties, faculty-subject links, books, literary works (badiiy), audio books and
    attachments, each table a sequence of rows in insertion order. Ids come from one
    fresh-value counter, attachment UUIDs from another; `storedFiles` is the set of
    paths present in attachment storage on disk. */
module Catalog {
  import opened Wrappers

  /** A timestamp from `LocalDateTime.now()`, supplied by the caller. */
  type Time = int

  /** A table row: a generated id and the entity's columns. */
  datatype Row<T> = Row(id: nat, fields: T)

  datatype EducationType = EducationType(name: string)

  datatype Subject = Subject(name: string, description: Option<string>, createdAt: Time, updatedAt: Time)

  datatype Faculty = Faculty(code: string, name: string, educationType: Option<nat>)

  /** A faculty-subject link (`FacultySubject`): ids of the two rows it joins. */
  datatype Link = Link(faculty: nat, subject: nat)

  /** A stored file: the storage prefix and the original file name. */
  datatype Attachment = Attachment(prefix: string, name: string)

  datatype Book = Book(
    name: string, description: string, createdAt: Time,
    author: string, publisher: string, genre: string, path: Option<string>,
    subject: nat, image: Option<nat>, pdf: Option<nat>,
    isHaveLibrary: Option<bool>, libraryCount: Option<int>)

  /** A literary work or an audio book, as the full-refresh importers write them. */
  datatype Item = Item(
    name: string, author: string, publisher: string, genre: string,
    description: string, createdAt: Time, path: string)

  datatype Db = Db(
    educationTypes: seq<Row<EducationType>>,
    subjects: seq<Row<Subject>>,
    faculties: seq<Row<Faculty>>,
    links: seq<Row<Link>>,
    books: seq<Row<Book>>,
    badiiy: seq<Row<Item>>,
    audios: seq<Row<Item>>,
    attachments: seq<Row<Attachment>>,
    storedFiles: set<string>,
    nextId: nat,
    nextUuid: nat)

  /** What a request handler answers: a body, a 400 with a message, a 404, or an
      exception that escapes the handler (a 500). */
  datatype Response<T> = Ok(body: T) | BadRequest(message: string) | NotFound | Failure(message: string)

  /** A handler's answer together with the store it leaves behind. */
  datatype Reply<T> = Reply(response: Response<T>, db: Db)

  /** The holder of the store state that handlers and importers update. */
  class Store {
    var db: Db

    constructor (initial: Db)
      ensures db == initial
    {
      db := initial;
    }
  }

  /* ---------------- generic table operations ---------------- */

  /** Ids strictly increase along the table and stay below `bound`. */
  predicate Table<T>(t: seq<Row<T>>, bound: nat) {
    && (forall i, j :: 0 <= i < j < |t| ==> t[i].id < t[j].id)
    && (forall i :: 0 <= i < |t| ==> t[i].id < bound)
  }

  predicate Has<T>(t: seq<Row<T>>, id: nat) {
    exists k :: 0 <= k < |t| && t[k].id == id
  }

  /** `findById`: the position of the row with this id. */
  function Find<T>(t: seq<Row<T>>, id: nat): (r: Option<nat>)
    ensures r.Some? ==> r.value < |t| && t[r.value].id == id
    ensures r.None? <==> !Has(t, id)
  {
    if t == [] then None
    else if t[|t| - 1].id == id then Some(|t| - 1)
    else Find(t[..|t| - 1], id)
  }

  /** In a table with distinct ids, the row found is the only one with that id. */
  lemma FindUnique<T>(t: seq<Row<T>>, bound: nat, id: nat, k: nat)
    requires Table(t, bound) && k < |t| && t[k].id == id
    ensures Find(t, id) == Some(k)
  {
    assert Find(t, id).Some?;
  }

  /** `deleteById`: the table without the row at position `k`. */
  function RemoveAt<T>(t: seq<Row<T>>, k: nat): (r: seq<Row<T>>)
    requires k < |t|
    ensures |r| == |t| - 1
    ensures forall i :: 0 <= i < k ==> r[i] == t[i]
    ensures forall i :: k <= i < |r| ==> r[i] == t[i + 1]
  {
    t[..k] + t[k + 1..]
  }

  lemma TableAppend<T>(t: seq<Row<T>>, bound: nat, v: T)
    requires Table(t, bound)
    ensures Table(t + [Row(bound, v)], bound + 1)
  {
  }

  lemma TableWiden<T>(t: seq<Row<T>>, bound: nat, bound': nat)
    requires Table(t, bound) && bound <= bound'
    ensures Table(t, bound')
  {
  }

  lemma TableRemove<T>(t: seq<Row<T>>, bound: nat, k: nat)
    requires Table(t, bound) && k < |t|
    ensures Table(RemoveAt(t, k), bound)
  {
    var r := RemoveAt(t, k);
    forall i, j | 0 <= i < j < |r|
      ensures r[i].id < r[j].id
    {
      var i' := if i < k then i else i + 1;
      var j' := if j < k then j else j + 1;
      assert r[i] == t[i'] && r[j] == t[j'] && i' < j';
    }
  }

  /** Replacing the columns of a row keeps its id. */
  lemma TableSet<T>(t: seq<Row<T>>, bound: nat, k: nat, v: T)
    requires Table(t, bound) && k < |t|
    ensures Table(t[k := Row(t[k].id, v)], bound)
  {
  }

  lemma HasAppend<T>(t: seq<Row<T>>, r: Row<T>, id: nat)
    requires Has(t, id)
    ensures Has(t + [r], id)
  {
    var k :| 0 <= k < |t| && t[k].id == id;
    assert (t + [r])[k] == t[k];
  }

  lemma HasLast<T>(t: seq<Row<T>>, r: Row<T>)
    ensures Has(t + [r], r.id)
  {
    assert (t + [r])[|t|] == r;
  }

  lemma HasSet<T>(t: seq<Row<T>>, k: nat, v: T, id: nat)
    requires k < |t| && Has(t, id)
    ensures Has(t[k := Row(t[k].id, v)], id)
  {
    var j :| 0 <= j < |t| && t[j].id == id;
    assert t[k := Row(t[k].id, v)][j].id == id;
  }

  /** Removing the row at `k` keeps every other id present. */
  lemma HasRemove<T>(t: seq<Row<T>>, k: nat, id: nat)
    requires k < |t| && Has(t, id) && t[k].id != id
    ensures Has(RemoveAt(t, k), id)
  {
    var j :| 0 <= j < |t| && t[j].id == id;
    if j < k {
      assert RemoveAt(t, k)[j].id == id;
    } else {
      assert RemoveAt(t, k)[j - 1].id == id;
    }
  }

  /** `deleteById` removes exactly one id: afterwards no row has it, and every other
      id is present exactly when it was before. */
  lemma RemoveAtHas<T>(t: seq<Row<T>>, bound: nat, k: nat, other: nat)
    requires Table(t, bound) && k < |t|
    ensures !Has(RemoveAt(t, k), t[k].id)
    ensures other != t[k].id ==> (Has(RemoveAt(t, k), other) <==> Has(t, other))
  {
    var r := RemoveAt(t, k);
    forall j | 0 <= j < |r| ensures r[j].id != t[k].id {
      if j < k {
        assert r[j] == t[j];
      } else {
        assert r[j] == t[j + 1];
      }
    }
    if other != t[k].id {
      if Has(t, other) {
        HasRemove(t, k, other);
      }
      if Has(r, other) {
        var j :| 0 <= j < |r| && r[j].id == other;
        if j < k {
          assert t[j].id == other;
        } else {
          assert t[j + 1].id == other;
        }
      }
    }
  }

  /** The columns of a table's rows, in table order (what `findAll` hands back
      once the ids are set aside). */
  function Columns<T>(t: seq<Row<T>>): seq<T> {
    if t == [] then [] else Columns(t[..|t| - 1]) + [t[|t| - 1].fields]
  }

  lemma ColumnsAppend<T>(t: seq<Row<T>>, row: Row<T>)
    ensures Columns(t + [row]) == Columns(t) + [row.fields]
  {
    assert (t + [row])[..|t|] == t;
  }

  /* ---------------- lookups by column ---------------- */

  /** `SubjectRepo.findByName`: `LIMIT 1` over the table, taken as the earliest row. */
  function FindSubjectByName(subjects: seq<Row<Subject>>, name: string): (r: Option<nat>)
    ensures r.Some? ==> r.value < |subjects| && subjects[r.value].fields.name == name
    ensures r.Some? ==> forall k :: 0 <= k < r.value ==> subjects[k].fields.name != name
    ensures r.None? ==> forall k :: 0 <= k < |subjects| ==> subjects[k].fields.name != name
  {
    if subjects == [] then None
    else if subjects[0].fields.name == name then Some(0)
    else
      var rest := FindSubjectByName(subjects[1..], name);
      if rest.None? then None else Some(rest.value + 1)
  }

  /** Appending rows does not change which row a name is first found in. */
  lemma FindSubjectByNameExtend(a: seq<Row<Subject>>, b: seq<Row<Subject>>, name: string)
    requires FindSubjectByName(a, name).Some?
    ensures FindSubjectByName(a + b, name) == FindSubjectByName(a, name)
  {
    var k := FindSubjectByName(a, name).value;
    assert (a + b)[k] == a[k];
    assert forall j :: 0 <= j < |a| ==> (a + b)[j] == a[j];
  }

  /** No two subjects share a name. */
  predicate NamesUnique(subjects: seq<Row<Subject>>) {
    forall i, j :: 0 <= i < j < |subjects| ==> subjects[i].fields.name != subjects[j].fields.name
  }

  lemma NamesUniqueAppend(subjects: seq<Row<Subject>>, row: Row<Subject>)
    requires forall k :: 0 <= k < |subjects| ==> subjects[k].fields.name != row.fields.name
    ensures NamesUnique(subjects) ==> NamesUnique(subjects + [row])
  {
  }

  /** `FacultyRepo.findByCode`. */
  function FindFacultyByCode(faculties: seq<Row<Faculty>>, code: string): (r: Option<nat>)
    ensures r.Some? ==> r.value < |faculties| && faculties[r.value].fields.code == code
    ensures r.None? ==> forall k :: 0 <= k < |faculties| ==> faculties[k].fields.code != code
  {
    if faculties == [] then None
    else if faculties[0].fields.code == code then Some(0)
    else
      var rest := FindFacultyByCode(faculties[1..], code);
      if rest.None? then None else Some(rest.value + 1)
  }

  /** `existsByFaculty_IdAndSubject_Id`. */
  predicate HasLinkPair(links: seq<Row<Link>>, faculty: nat, subject: nat) {
    exists k :: 0 <= k < |links| && links[k].fields == Link(faculty, subject)
  }

  /** `existsByNameAndSubject`. */
  predicate HasBookNamed(books: seq<Row<Book>>, name: string, subject: nat) {
    exists k :: 0 <= k < |books| && books[k].fields.name == name && books[k].fields.subject == subject
  }

  /* ---------------- the store invariant ---------------- */

  /** Distinct ids per table, faculty codes unique (the column is declared unique),
      and every foreign key pointing at an existing row. */
  predicate Valid(db: Db) {
    && Table(db.educationTypes, db.nextId)
    && Table(db.subjects, db.nextId)
    && Table(db.faculties, db.nextId)
    && Table(db.links, db.nextId)
    && Table(db.books, db.nextId)
    && Table(db.badiiy, db.nextId)
    && Table(db.audios, db.nextId)
    && Table(db.attachments, db.nextUuid)
    && CodesUnique(db.faculties)
    && (forall k :: 0 <= k < |db.faculties| && db.faculties[k].fields.educationType.Some? ==>
          Has(db.educationTypes, db.faculties[k].fields.educationType.value))
    && (forall k :: 0 <= k < |db.links| ==> LinkTargets(db, db.links[k].fields))
    && (forall k :: 0 <= k < |db.books| ==> BookTargets(db, db.books[k].fields))
  }

  predicate CodesUnique(faculties: seq<Row<Faculty>>) {
    forall i, j :: 0 <= i < j < |faculties| ==> faculties[i].fields.code != faculties[j].fields.code
  }

  predicate LinkTargets(db: Db, l: Link) {
    Has(db.faculties, l.faculty) && Has(db.subjects, l.subject)
  }

  predicate BookTargets(db: Db, b: Book) {
    && Has(db.subjects, b.subject)
    && (b.image.Some? ==> Has(db.attachments, b.image.value))
    && (b.pdf.Some? ==> Has(db.attachments, b.pdf.value))
  }

  /* ---------------- seeded state ---------------- */

  /** The codes of the twelve seeded bachelor programmes, in insertion order. */
  function SeedCodes(): seq<string> {
    ["60310300", "60110900", "60410100", "60110700", "60220300", "60110600",
     "60110200", "60110400", "60111200", "60111100", "60610100", "61010100"]
  }

  /** The names of the twelve seeded programmes, in the same order. */
  function SeedNames(): (r: seq<string>)
    ensures |r| == 12
  {
    [ "Psixologiya (faoliyat turlari bo\U{2019}yicha)",
      "Xorijiy til va adabiyoti (tillar bo\U{2019}yicha)",
      "Iqtisodiyot (tarmoqlar va sohalar bo\U{2019}yicha)",
      "O\U{2019}zbek tili va adabiyoti",
      "Tarix (mamlakatlar va yo'nalishlar bo\U{2019}yicha)",
      "Musiqa ta'limi",
      "Maktabgacha ta`lim",
      "Boshlang'ich ta`lim",
      "Jismoniy madaniyat",
      "Milliy g\U{2019}oya, ma\U{2019}naviyat asoslari va huquq ta\U{2019}limi",
      "Kompyuter ilmlari va dasturlash texnologiyalari (yo\U{2019}nalishlar bo\U{2019}yicha)",
      "Turizm (faoliyat yo\U{2019}nalishlari bo\U{2019}yicha)" ]
  }

  /** The ids the start-up code assigns to the seeded programmes (3 is not used). */
  function SeedId(k: nat): nat {
    if k < 2 then k + 1 else k + 2
  }

  /** The seeded faculty rows, all of education type 1, named from `names`. */
  function SeedFaculties(names: seq<string>): (r: seq<Row<Faculty>>)
    requires |names| == 12
    ensures |r| == 12
    ensures forall k :: 0 <= k < 12 ==> r[k] == Row(SeedId(k), Faculty(SeedCodes()[k], names[k], Some(1)))
  {
    seq(12, k requires 0 <= k < 12 => Row(SeedId(k), Faculty(SeedCodes()[k], names[k], Some(1))))
  }

  /** The state after first start-up, with the faculties named from `names`: education
      types 1 "Bakalavr" and 2 "Magistr" and the twelve bachelor programmes, everything
      else empty. The start-up state itself is `Seeded(SeedNames())`. */
  function Seeded(names: seq<string>): (db: Db)
    requires |names| == 12
    ensures |db.faculties| == 12 && db.subjects == [] && db.links == [] && db.books == []
    ensures forall k :: 0 <= k < 12 ==> db.faculties[k].fields.educationType == Some(1)
    ensures forall k :: 0 <= k < 12 ==> db.faculties[k].fields.code == SeedCodes()[k]
  {
    Db([Row(1, EducationType("Bakalavr")), Row(2, EducationType("Magistr"))],
       [], SeedFaculties(names), [], [], [], [], [], {}, 14, 0)
  }

  /** The seeded state satisfies the store invariant, whatever the names. */
  lemma SeededValid(names: seq<string>)
    requires |names| == 12
    ensures Valid(Seeded(names))
  {
    var db := Seeded(names);
    var f := db.faculties;
    SeedCodesDistinct();
    assert Table(f, db.nextId);
    assert Has(db.educationTypes, 1) by { assert db.educationTypes[0].id == 1; }
  }

  /** No two seeded programmes share a code: each pair differs in one of the
      digits at positions 1 to 5. */
  lemma SeedCodesDistinct()
    ensures forall i, j :: 0 <= i < j < 12 ==> SeedCodes()[i] != SeedCodes()[j]
  {
    var c := SeedCodes();
    forall i, j | 0 <= i < j < 12
      ensures c[i] != c[j]
    {
      assert c[i][1] != c[j][1] || c[i][2] != c[j][2] || c[i][3] != c[j][3] || c[i][4] != c[j][4] || c[i][5] != c[j][5];
    }
  }
}
