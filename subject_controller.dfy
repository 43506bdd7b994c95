/** The subject endpoints of `/api/v1/subject`: create with its name guard, read one,
    update with timestamps, delete. */
module SubjectController {
  import opened Wrappers
  import opened Catalog
  import opened Registry

  const SubjectExists: string := "Subject already exists"
  const SubjectNotFound: string := "Subject not found"
  const SubjectDeleted: string := "Subject deleted successfully"
  /** The database refuses to delete a row another row still points at. */
  const StillReferenced: string := "could not execute statement: foreign key constraint"

  /** The fields of a `SubjectDTO` the handlers read. */
  datatype SubjectForm = SubjectForm(name: string, description: Option<string>)

  /** `create`: a name already in use is a bad request and writes nothing; otherwise the
      subject is saved with both timestamps set to the current time. */
  function Create(db: Db, form: SubjectForm, now: Time): (r: Reply<Row<Subject>>)
    ensures FindSubjectByName(db.subjects, form.name).Some? <==> r == Reply(BadRequest(SubjectExists), db)
    ensures r.response.Ok? || r.response.BadRequest?
    ensures r.response.Ok? ==>
      && r.response.body == Row(db.nextId, Subject(form.name, form.description, now, now))
      && r.db == InsertSubject(db, r.response.body.fields)
  {
    if FindSubjectByName(db.subjects, form.name).Some? then Reply(BadRequest(SubjectExists), db)
    else
      var row := Row(db.nextId, Subject(form.name, form.description, now, now));
      Reply(Ok(row), InsertSubject(db, row.fields))
  }

  /** Through `create` subject names stay unique, and the new subject is the one its
      name finds. */
  lemma CreateKeepsNamesUnique(db: Db, form: SubjectForm, now: Time)
    requires NamesUnique(db.subjects)
    ensures NamesUnique(Create(db, form, now).db.subjects)
    ensures Create(db, form, now).response.Ok? ==>
      FindSubjectByName(Create(db, form, now).db.subjects, form.name) == Some(|db.subjects|)
  {
    var r := Create(db, form, now);
    if r.response.Ok? {
      NamesUniqueAppend(db.subjects, r.response.body);
      FirstNameAfterAppend(db.subjects, r.response.body);
    }
  }

  lemma CreateValid(db: Db, form: SubjectForm, now: Time)
    requires Valid(db)
    ensures Valid(Create(db, form, now).db)
  {
    if Create(db, form, now).response.Ok? {
      InsertSubjectValid(db, Subject(form.name, form.description, now, now));
    }
  }

  /** `findOne`: the subject with that id, or a failure for an unknown id. */
  function FindOne(db: Db, id: nat): (r: Response<Row<Subject>>)
    ensures r.Ok? <==> Has(db.subjects, id)
    ensures !r.Ok? ==> r == Failure(SubjectNotFound)
    ensures r.Ok? ==> r.body in db.subjects && r.body.id == id
  {
    match Find(db.subjects, id)
    case None => Failure(SubjectNotFound)
    case Some(k) => Ok(db.subjects[k])
  }

  /** `update`: an unknown id fails; otherwise name and description are overwritten,
      `updatedAt` becomes the current time and `createdAt` is kept. */
  function Update(db: Db, id: nat, form: SubjectForm, now: Time): (r: Reply<Row<Subject>>)
    ensures r.response.Ok? <==> Has(db.subjects, id)
    ensures !r.response.Ok? ==> r == Reply(Failure(SubjectNotFound), db)
    ensures r.response.Ok? ==>
      var k := Find(db.subjects, id).value;
      var s := Subject(form.name, form.description, db.subjects[k].fields.createdAt, now);
      r.response.body == Row(id, s) && r.db == db.(subjects := db.subjects[k := Row(id, s)])
  {
    match Find(db.subjects, id)
    case None => Reply(Failure(SubjectNotFound), db)
    case Some(k) =>
      var s := db.subjects[k].fields.(name := form.name, description := form.description, updatedAt := now);
      Reply(Ok(Row(id, s)), db.(subjects := db.subjects[k := Row(id, s)]))
  }

  /** `update` has no name guard: renaming a subject to another subject's name succeeds
      and leaves two subjects of that name. */
  lemma UpdateSkipsNameGuard(db: Db, id: nat, form: SubjectForm, now: Time, j: nat)
    requires Has(db.subjects, id)
    requires j < |db.subjects| && db.subjects[j].id != id && db.subjects[j].fields.name == form.name
    ensures Update(db, id, form, now).response.Ok?
    ensures !NamesUnique(Update(db, id, form, now).db.subjects)
  {
    var k := Find(db.subjects, id).value;
    var t := Update(db, id, form, now).db.subjects;
    assert t[j] == db.subjects[j] && t[k].fields.name == form.name;
    if j < k {
      assert t[j].fields.name == t[k].fields.name;
    } else {
      assert t[k].fields.name == t[j].fields.name;
    }
  }

  lemma UpdateValid(db: Db, id: nat, form: SubjectForm, now: Time)
    requires Valid(db)
    ensures Valid(Update(db, id, form, now).db)
  {
    var r := Update(db, id, form, now);
    if r.response.Ok? {
      var k := Find(db.subjects, id).value;
      TableSet(db.subjects, db.nextId, k, r.response.body.fields);
      forall x | Has(db.subjects, x) ensures Has(r.db.subjects, x) {
        HasSet(db.subjects, k, r.response.body.fields, x);
      }
      assert forall i :: 0 <= i < |r.db.links| ==> LinkTargets(db, r.db.links[i].fields);
      assert forall i :: 0 <= i < |r.db.books| ==> BookTargets(db, r.db.books[i].fields);
    }
  }

  /** The update handler, step by step: find the subject, run the setters, save. */
  method UpdateSubject(store: Store, id: nat, form: SubjectForm, now: Time) returns (response: Response<Row<Subject>>)
    modifies store
    ensures Reply(response, store.db) == Update(old(store.db), id, form, now)
  {
    var found := Find(store.db.subjects, id);
    if found.None? {
      return Failure(SubjectNotFound);
    }
    var k := found.value;
    var subject := store.db.subjects[k].fields;
    subject := subject.(name := form.name);
    subject := subject.(description := form.description);
    subject := subject.(updatedAt := now);
    store.db := store.db.(subjects := store.db.subjects[k := Row(id, subject)]);
    response := Ok(Row(id, subject));
  }

  /** A subject some link or book still points at. */
  predicate SubjectInUse(db: Db, id: nat) {
    (exists k :: 0 <= k < |db.links| && db.links[k].fields.subject == id)
    || (exists k :: 0 <= k < |db.books| && db.books[k].fields.subject == id)
  }

  /** `delete`: an absent id is not found; a subject still linked or holding books is
      refused by the database; otherwise exactly that subject is removed. */
  function Delete(db: Db, id: nat): (r: Reply<string>)
    ensures !Has(db.subjects, id) <==> r == Reply(NotFound, db)
    ensures Has(db.subjects, id) && SubjectInUse(db, id) ==> r == Reply(Failure(StillReferenced), db)
    ensures r.response.Ok? <==> Has(db.subjects, id) && !SubjectInUse(db, id)
    ensures r.response.Ok? ==>
      r.response.body == SubjectDeleted && r.db == db.(subjects := RemoveAt(db.subjects, Find(db.subjects, id).value))
  {
    match Find(db.subjects, id)
    case None => Reply(NotFound, db)
    case Some(k) =>
      if SubjectInUse(db, id) then Reply(Failure(StillReferenced), db)
      else Reply(Ok(SubjectDeleted), db.(subjects := RemoveAt(db.subjects, k)))
  }

  /** A delete removes exactly the subject with that id. */
  lemma DeleteRemovesExactly(db: Db, id: nat, other: nat)
    requires Table(db.subjects, db.nextId)
    requires Delete(db, id).response.Ok?
    ensures !Has(Delete(db, id).db.subjects, id)
    ensures other != id ==> (Has(Delete(db, id).db.subjects, other) <==> Has(db.subjects, other))
  {
    RemoveAtHas(db.subjects, db.nextId, Find(db.subjects, id).value, other);
  }

  lemma DeleteValid(db: Db, id: nat)
    requires Valid(db)
    ensures Valid(Delete(db, id).db)
  {
    var r := Delete(db, id);
    if r.response.Ok? {
      var k := Find(db.subjects, id).value;
      TableRemove(db.subjects, db.nextId, k);
      forall i | 0 <= i < |r.db.links| ensures LinkTargets(r.db, r.db.links[i].fields) {
        assert LinkTargets(db, db.links[i].fields);
        HasRemove(db.subjects, k, db.links[i].fields.subject);
      }
      forall i | 0 <= i < |r.db.books| ensures BookTargets(r.db, r.db.books[i].fields) {
        assert BookTargets(db, db.books[i].fields);
        HasRemove(db.subjects, k, db.books[i].fields.subject);
      }
    }
  }
}
