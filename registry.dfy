/** The repository writes the importers and handlers are built from: `save` of a new
    row (which takes the next id), find-or-create by a unique column, and the bulk
    `deleteAll` of the books refresh. The writes are plain updates of the store value;
    the lemmas beside them show that each keeps the store invariant `Valid`. */
module Registry {
  import opened Wrappers
  import opened Catalog

  /* ---------------- saves ---------------- */

  /** `subjectRepo.save` of a new subject: it is appended under the next id. */
  function InsertSubject(db: Db, s: Subject): Db {
    db.(subjects := db.subjects + [Row(db.nextId, s)], nextId := db.nextId + 1)
  }

  /** `facultyRepo.save` of a new faculty. */
  function InsertFaculty(db: Db, f: Faculty): Db {
    db.(faculties := db.faculties + [Row(db.nextId, f)], nextId := db.nextId + 1)
  }

  /** `facultySubjectRepo.save` of a new link. */
  function InsertLink(db: Db, l: Link): Db {
    db.(links := db.links + [Row(db.nextId, l)], nextId := db.nextId + 1)
  }

  /** `bookRepo.save` of a new book. */
  function InsertBook(db: Db, book: Book): Db {
    db.(books := db.books + [Row(db.nextId, book)], nextId := db.nextId + 1)
  }

  /** `badiiyRepo.save` of a new literary work. */
  function InsertBadiiy(db: Db, item: Item): Db {
    db.(badiiy := db.badiiy + [Row(db.nextId, item)], nextId := db.nextId + 1)
  }

  /** `audioRepo.save` of a new audio book. */
  function InsertAudio(db: Db, item: Item): Db {
    db.(audios := db.audios + [Row(db.nextId, item)], nextId := db.nextId + 1)
  }

  /** `attachmentRepo.save` of a new attachment under a fresh UUID. */
  function InsertAttachment(db: Db, a: Attachment): Db {
    db.(attachments := db.attachments + [Row(db.nextUuid, a)], nextUuid := db.nextUuid + 1)
  }

  /** Moving the id counter on keeps every table valid. */
  lemma BumpValid(db: Db, r: Db)
    requires Valid(db)
    requires r == db.(nextId := r.nextId) && db.nextId <= r.nextId
    ensures Valid(r)
  {
    TableWiden(db.educationTypes, db.nextId, r.nextId);
    TableWiden(db.subjects, db.nextId, r.nextId);
    TableWiden(db.faculties, db.nextId, r.nextId);
    TableWiden(db.links, db.nextId, r.nextId);
    TableWiden(db.books, db.nextId, r.nextId);
    TableWiden(db.badiiy, db.nextId, r.nextId);
    TableWiden(db.audios, db.nextId, r.nextId);
    forall k | 0 <= k < |r.links| ensures LinkTargets(r, r.links[k].fields) {
      assert LinkTargets(db, db.links[k].fields);
    }
    forall k | 0 <= k < |r.books| ensures BookTargets(r, r.books[k].fields) {
      assert BookTargets(db, db.books[k].fields);
    }
  }

  /** A new subject keeps the store valid: its id is fresh and every key that
      resolved before still resolves. */
  lemma InsertSubjectValid(db: Db, s: Subject)
    requires Valid(db)
    ensures Valid(InsertSubject(db, s))
  {
    var b := db.(nextId := db.nextId + 1);
    BumpValid(db, b);
    var r := InsertSubject(db, s);
    TableAppend(db.subjects, db.nextId, s);
    forall k | 0 <= k < |r.links| ensures LinkTargets(r, r.links[k].fields) {
      assert LinkTargets(b, b.links[k].fields);
      HasAppend(db.subjects, Row(db.nextId, s), r.links[k].fields.subject);
    }
    forall k | 0 <= k < |r.books| ensures BookTargets(r, r.books[k].fields) {
      assert BookTargets(b, b.books[k].fields);
      HasAppend(db.subjects, Row(db.nextId, s), r.books[k].fields.subject);
    }
  }

  /** A new faculty keeps the store valid when its code is free (the column is
      unique) and its education type, if any, exists. */
  lemma InsertFacultyValid(db: Db, f: Faculty)
    requires Valid(db)
    requires FindFacultyByCode(db.faculties, f.code).None?
    requires f.educationType.Some? ==> Has(db.educationTypes, f.educationType.value)
    ensures Valid(InsertFaculty(db, f))
  {
    var b := db.(nextId := db.nextId + 1);
    BumpValid(db, b);
    var r := InsertFaculty(db, f);
    TableAppend(db.faculties, db.nextId, f);
    forall k | 0 <= k < |r.links| ensures LinkTargets(r, r.links[k].fields) {
      assert LinkTargets(b, b.links[k].fields);
      HasAppend(db.faculties, Row(db.nextId, f), r.links[k].fields.faculty);
    }
  }

  /** A new link keeps the store valid when both rows it joins exist. */
  lemma InsertLinkValid(db: Db, l: Link)
    requires Valid(db) && LinkTargets(db, l)
    ensures Valid(InsertLink(db, l))
  {
    BumpValid(db, db.(nextId := db.nextId + 1));
    TableAppend(db.links, db.nextId, l);
  }

  /** A new book keeps the store valid when its subject and attachments exist. */
  lemma InsertBookValid(db: Db, book: Book)
    requires Valid(db) && BookTargets(db, book)
    ensures Valid(InsertBook(db, book))
  {
    BumpValid(db, db.(nextId := db.nextId + 1));
    TableAppend(db.books, db.nextId, book);
  }

  /** A new literary work keeps the store valid. */
  lemma InsertBadiiyValid(db: Db, item: Item)
    requires Valid(db)
    ensures Valid(InsertBadiiy(db, item))
  {
    BumpValid(db, db.(nextId := db.nextId + 1));
    TableAppend(db.badiiy, db.nextId, item);
  }

  /** A new audio book keeps the store valid. */
  lemma InsertAudioValid(db: Db, item: Item)
    requires Valid(db)
    ensures Valid(InsertAudio(db, item))
  {
    BumpValid(db, db.(nextId := db.nextId + 1));
    TableAppend(db.audios, db.nextId, item);
  }

  /** A new attachment keeps the store valid: its UUID is fresh, and the books'
      attachment references still resolve. */
  lemma InsertAttachmentValid(db: Db, a: Attachment)
    requires Valid(db)
    ensures Valid(InsertAttachment(db, a))
  {
    var r := InsertAttachment(db, a);
    TableAppend(db.attachments, db.nextUuid, a);
    forall k | 0 <= k < |r.books| ensures BookTargets(r, r.books[k].fields) {
      var bk := r.books[k].fields;
      assert BookTargets(db, bk);
      if bk.image.Some? { HasAppend(db.attachments, Row(db.nextUuid, a), bk.image.value); }
      if bk.pdf.Some? { HasAppend(db.attachments, Row(db.nextUuid, a), bk.pdf.value); }
    }
  }

  /* ---------------- find-or-create ---------------- */

  /** The result of a find-or-create: the store afterwards and the row's id. */
  datatype Saved = Saved(db: Db, id: nat)

  /** `findByName(name).orElseGet(save(new subject))`: the first subject of that name,
      or a new one appended under the next id. Only the subject table can grow, and
      by at most that one row. */
  function FindOrCreateSubject(db: Db, name: string, description: Option<string>, now: Time): (r: Saved)
    ensures FindSubjectByName(r.db.subjects, name).Some?
    ensures r.id == r.db.subjects[FindSubjectByName(r.db.subjects, name).value].id
    ensures FindSubjectByName(db.subjects, name).Some? ==> r.db == db
    ensures FindSubjectByName(db.subjects, name).None? ==>
      r.db == InsertSubject(db, Subject(name, description, now, now)) && r.id == db.nextId
    ensures r.db == db.(subjects := r.db.subjects, nextId := r.db.nextId) && db.subjects <= r.db.subjects
    ensures |r.db.subjects| == |db.subjects| + (if FindSubjectByName(db.subjects, name).Some? then 0 else 1)
    ensures forall k :: |db.subjects| <= k < |r.db.subjects| ==> r.db.subjects[k].fields.name == name
    ensures NamesUnique(db.subjects) ==> NamesUnique(r.db.subjects)
  {
    var found := FindSubjectByName(db.subjects, name);
    if found.Some? then
      Saved(db, db.subjects[found.value].id)
    else
      var row := Row(db.nextId, Subject(name, description, now, now));
      FirstNameAfterAppend(db.subjects, row);
      NamesUniqueAppend(db.subjects, row);
      Saved(InsertSubject(db, row.fields), db.nextId)
  }

  /** Finding or creating a subject keeps the store valid, and its id resolves. */
  lemma FindOrCreateSubjectValid(db: Db, name: string, description: Option<string>, now: Time)
    requires Valid(db)
    ensures var r := FindOrCreateSubject(db, name, description, now);
            Valid(r.db) && Has(r.db.subjects, r.id)
  {
    var r := FindOrCreateSubject(db, name, description, now);
    if FindSubjectByName(db.subjects, name).None? {
      InsertSubjectValid(db, Subject(name, description, now, now));
    }
    assert r.db.subjects[FindSubjectByName(r.db.subjects, name).value].id == r.id;
  }

  /** Finding or creating a subject a second time changes nothing and gives the same id. */
  lemma FindOrCreateSubjectIdempotent(db: Db, name: string, d1: Option<string>, d2: Option<string>, t1: Time, t2: Time)
    ensures var first := FindOrCreateSubject(db, name, d1, t1);
            FindOrCreateSubject(first.db, name, d2, t2) == first
  {
  }

  /** A name absent from a table is first found in the row appended with it. */
  lemma {:induction false} FirstNameAfterAppend(subjects: seq<Row<Subject>>, row: Row<Subject>)
    requires FindSubjectByName(subjects, row.fields.name).None?
    ensures FindSubjectByName(subjects + [row], row.fields.name) == Some(|subjects|)
  {
    if subjects != [] {
      assert (subjects + [row])[1..] == subjects[1..] + [row];
      FirstNameAfterAppend(subjects[1..], row);
    }
  }

  /** How a find-or-create by faculty code ended. */
  datatype FacultyLookup =
    | Found(id: nat)                 // an existing faculty, left as it is
    | Created(db: Db, id: nat)       // a new faculty was saved
    | NoEducationType                // `orElseThrow`: the education type does not exist

  /** `findByCode(code).orElseGet(save(new faculty))`, where building the new faculty
      looks the education type up first. */
  function FindOrCreateFaculty(db: Db, code: string, name: string, educationTypeId: int): (r: FacultyLookup)
    ensures r.Found? ==> exists k :: 0 <= k < |db.faculties| && db.faculties[k].id == r.id && db.faculties[k].fields.code == code
    ensures r.Found? <==> FindFacultyByCode(db.faculties, code).Some?
    ensures r.NoEducationType? <==>
      FindFacultyByCode(db.faculties, code).None? && (educationTypeId < 0 || !Has(db.educationTypes, educationTypeId))
    ensures r.Created? ==>
      && r.id == db.nextId
      && r.db == db.(faculties := db.faculties + [Row(db.nextId, Faculty(code, name, Some(educationTypeId)))],
                     nextId := db.nextId + 1)
  {
    var found := FindFacultyByCode(db.faculties, code);
    if found.Some? then Found(db.faculties[found.value].id)
    else if educationTypeId < 0 || !Has(db.educationTypes, educationTypeId) then NoEducationType
    else Created(InsertFaculty(db, Faculty(code, name, Some(educationTypeId))), db.nextId)
  }

  /** A faculty created by code keeps the store valid: the code was free and the
      education type exists. */
  lemma FindOrCreateFacultyValid(db: Db, code: string, name: string, educationTypeId: int)
    requires Valid(db)
    ensures var r := FindOrCreateFaculty(db, code, name, educationTypeId);
            r.Created? ==> Valid(r.db) && Has(r.db.faculties, r.id)
  {
    var r := FindOrCreateFaculty(db, code, name, educationTypeId);
    if r.Created? {
      var f := Faculty(code, name, Some(educationTypeId));
      InsertFacultyValid(db, f);
      HasLast(db.faculties, Row(db.nextId, f));
    }
  }

  /* ---------------- bulk delete ---------------- */

  /** The books refresh clears books, links and subjects, in that order; faculties,
      education types, the flat collections and attachments stay. */
  function WipeCatalog(db: Db): Db {
    db.(books := [], links := [], subjects := [])
  }

  /** Clearing books, links and subjects together keeps the store valid: nothing
      else refers to them. */
  lemma WipeCatalogValid(db: Db)
    requires Valid(db)
    ensures Valid(WipeCatalog(db))
  {
  }
}
