/** The faculty endpoints of `/api/v1/faculty`: create with its code guard, update,
    delete and the DTO view. */
module FacultyController {
  import opened Wrappers
  import opened Catalog
  import opened Registry

  const CodeExists: string := "Faculty code already exists"
  const EducationTypeNotFound: string := "EducationType not found"
  const FacultyNotFound: string := "Faculty not found"
  const FacultyDeleted: string := "Faculty deleted successfully"
  /** The database refuses a write that breaks the unique code column or a foreign key. */
  const ConstraintViolation: string := "could not execute statement: constraint violation"

  /** The fields of a `FacultyDTO` the handlers read. */
  datatype FacultyForm = FacultyForm(code: string, name: string, educationTypeId: nat)

  /** What `toDTO` hands out. */
  datatype FacultyView = FacultyView(id: nat, code: string, name: string, educationTypeId: Option<nat>)

  /** `toDTO`: the education type's id, or null for a faculty without one. */
  function ToView(row: Row<Faculty>): (v: FacultyView)
    ensures v.educationTypeId.None? <==> row.fields.educationType.None?
    ensures v.id == row.id && v.code == row.fields.code && v.name == row.fields.name
  {
    FacultyView(row.id, row.fields.code, row.fields.name,
                if row.fields.educationType.Some? then Some(row.fields.educationType.value) else None)
  }

  /** `findOne`: the view of the faculty with that id, or a failure for an unknown id. */
  function FindOne(db: Db, id: nat): (r: Response<FacultyView>)
    ensures r.Ok? <==> Has(db.faculties, id)
    ensures !r.Ok? ==> r == Failure(FacultyNotFound)
    ensures r.Ok? ==> exists k :: 0 <= k < |db.faculties| && db.faculties[k].id == id && r.body == ToView(db.faculties[k])
  {
    match Find(db.faculties, id)
    case None => Failure(FacultyNotFound)
    case Some(k) => Ok(ToView(db.faculties[k]))
  }

  /** `create`: a code already in use is a bad request, checked before the education
      type; an unknown education type fails; otherwise exactly the given code, name and
      type are saved. Only success writes. */
  function Create(db: Db, form: FacultyForm): (r: Reply<FacultyView>)
    ensures FindFacultyByCode(db.faculties, form.code).Some? ==> r == Reply(BadRequest(CodeExists), db)
    ensures FindFacultyByCode(db.faculties, form.code).None? && !Has(db.educationTypes, form.educationTypeId) ==>
      r == Reply(Failure(EducationTypeNotFound), db)
    ensures r.response.Ok? <==> FindFacultyByCode(db.faculties, form.code).None? && Has(db.educationTypes, form.educationTypeId)
    ensures r.response.Ok? ==>
      && r.db == InsertFaculty(db, Faculty(form.code, form.name, Some(form.educationTypeId)))
      && r.response.body == FacultyView(db.nextId, form.code, form.name, Some(form.educationTypeId))
  {
    if FindFacultyByCode(db.faculties, form.code).Some? then Reply(BadRequest(CodeExists), db)
    else if Find(db.educationTypes, form.educationTypeId).None? then Reply(Failure(EducationTypeNotFound), db)
    else
      var row := Row(db.nextId, Faculty(form.code, form.name, Some(form.educationTypeId)));
      Reply(Ok(ToView(row)), InsertFaculty(db, row.fields))
  }

  /** `create` keeps the store valid: in particular codes stay unique. */
  lemma CreateValid(db: Db, form: FacultyForm)
    requires Valid(db)
    ensures Valid(Create(db, form).db)
  {
    if Create(db, form).response.Ok? {
      InsertFacultyValid(db, Faculty(form.code, form.name, Some(form.educationTypeId)));
    }
  }

  /** Whether another faculty than the one at `k` already has the code. */
  predicate CodeTakenElsewhere(faculties: seq<Row<Faculty>>, k: nat, code: string) {
    exists j :: 0 <= j < |faculties| && j != k && faculties[j].fields.code == code
  }

  /** `update`: an unknown faculty or education type fails; otherwise code, name and
      type are overwritten. The handler makes no code check of its own, so a code taken
      by another faculty only fails when the unique column rejects the save (a server
      error, where `create` answers with a bad request). */
  function Update(db: Db, id: nat, form: FacultyForm): (r: Reply<FacultyView>)
    ensures !Has(db.faculties, id) ==> r == Reply(Failure(FacultyNotFound), db)
    ensures Has(db.faculties, id) && !Has(db.educationTypes, form.educationTypeId) ==>
      r == Reply(Failure(EducationTypeNotFound), db)
    ensures Has(db.faculties, id) && Has(db.educationTypes, form.educationTypeId) &&
            CodeTakenElsewhere(db.faculties, Find(db.faculties, id).value, form.code) ==>
      r == Reply(Failure(ConstraintViolation), db)
    ensures r.response.Ok? <==>
      Has(db.faculties, id) && Has(db.educationTypes, form.educationTypeId) &&
      !CodeTakenElsewhere(db.faculties, Find(db.faculties, id).value, form.code)
    ensures !r.response.Ok? ==> r.db == db
    ensures r.response.Ok? ==>
      var k := Find(db.faculties, id).value;
      var f := Faculty(form.code, form.name, Some(form.educationTypeId));
      && !CodeTakenElsewhere(db.faculties, k, form.code)
      && r.response.body == ToView(Row(id, f))
      && r.db == db.(faculties := db.faculties[k := Row(id, f)])
  {
    match Find(db.faculties, id)
    case None => Reply(Failure(FacultyNotFound), db)
    case Some(k) =>
      if Find(db.educationTypes, form.educationTypeId).None? then Reply(Failure(EducationTypeNotFound), db)
      else if CodeTakenElsewhere(db.faculties, k, form.code) then Reply(Failure(ConstraintViolation), db)
      else
        var f := db.faculties[k].fields.(code := form.code, name := form.name, educationType := Some(form.educationTypeId));
        Reply(Ok(ToView(Row(id, f))), db.(faculties := db.faculties[k := Row(id, f)]))
  }

  /** `update` keeps the store valid. */
  lemma UpdateValid(db: Db, id: nat, form: FacultyForm)
    requires Valid(db)
    ensures Valid(Update(db, id, form).db)
  {
    var r := Update(db, id, form);
    if r.response.Ok? {
      var k := Find(db.faculties, id).value;
      var f := Faculty(form.code, form.name, Some(form.educationTypeId));
      TableSet(db.faculties, db.nextId, k, f);
      forall x | Has(db.faculties, x) ensures Has(r.db.faculties, x) {
        HasSet(db.faculties, k, f, x);
      }
      forall i, j | 0 <= i < j < |r.db.faculties|
        ensures r.db.faculties[i].fields.code != r.db.faculties[j].fields.code
      {
        if i == k {
          assert r.db.faculties[j] == db.faculties[j];
        } else if j == k {
          assert r.db.faculties[i] == db.faculties[i];
        }
      }
      assert forall i :: 0 <= i < |r.db.links| ==> LinkTargets(db, r.db.links[i].fields);
    }
  }

  /** The update handler, step by step: find the faculty and the type, run the setters,
      save. */
  method UpdateFaculty(store: Store, id: nat, form: FacultyForm) returns (response: Response<FacultyView>)
    modifies store
    ensures Reply(response, store.db) == Update(old(store.db), id, form)
  {
    var found := Find(store.db.faculties, id);
    if found.None? {
      return Failure(FacultyNotFound);
    }
    if Find(store.db.educationTypes, form.educationTypeId).None? {
      return Failure(EducationTypeNotFound);
    }
    var k := found.value;
    var faculty := store.db.faculties[k].fields;
    faculty := faculty.(code := form.code);
    faculty := faculty.(name := form.name);
    faculty := faculty.(educationType := Some(form.educationTypeId));
    if CodeTakenElsewhere(store.db.faculties, k, faculty.code) {
      return Failure(ConstraintViolation);
    }
    store.db := store.db.(faculties := store.db.faculties[k := Row(id, faculty)]);
    response := Ok(ToView(Row(id, faculty)));
  }

  /** A faculty some link still points at. */
  predicate FacultyInUse(db: Db, id: nat) {
    exists k :: 0 <= k < |db.links| && db.links[k].fields.faculty == id
  }

  /** `delete`: an absent id is not found; a faculty still linked is refused by the
      database; otherwise exactly that faculty is removed. */
  function Delete(db: Db, id: nat): (r: Reply<string>)
    ensures !Has(db.faculties, id) <==> r == Reply(NotFound, db)
    ensures Has(db.faculties, id) && FacultyInUse(db, id) ==> r == Reply(Failure(ConstraintViolation), db)
    ensures r.response.Ok? <==> Has(db.faculties, id) && !FacultyInUse(db, id)
    ensures r.response.Ok? ==>
      r.response.body == FacultyDeleted && r.db == db.(faculties := RemoveAt(db.faculties, Find(db.faculties, id).value))
  {
    match Find(db.faculties, id)
    case None => Reply(NotFound, db)
    case Some(k) =>
      if FacultyInUse(db, id) then Reply(Failure(ConstraintViolation), db)
      else Reply(Ok(FacultyDeleted), db.(faculties := RemoveAt(db.faculties, k)))
  }

  /** A delete removes exactly the faculty with that id. */
  lemma DeleteRemovesExactly(db: Db, id: nat, other: nat)
    requires Table(db.faculties, db.nextId)
    requires Delete(db, id).response.Ok?
    ensures !Has(Delete(db, id).db.faculties, id)
    ensures other != id ==> (Has(Delete(db, id).db.faculties, other) <==> Has(db.faculties, other))
  {
    RemoveAtHas(db.faculties, db.nextId, Find(db.faculties, id).value, other);
  }

  lemma DeleteValid(db: Db, id: nat)
    requires Valid(db)
    ensures Valid(Delete(db, id).db)
  {
    var r := Delete(db, id);
    if r.response.Ok? {
      var k := Find(db.faculties, id).value;
      TableRemove(db.faculties, db.nextId, k);
      forall i, j | 0 <= i < j < |r.db.faculties|
        ensures r.db.faculties[i].fields.code != r.db.faculties[j].fields.code
      {
        var i' := if i < k then i else i + 1;
        var j' := if j < k then j else j + 1;
        assert r.db.faculties[i] == db.faculties[i'] && r.db.faculties[j] == db.faculties[j'];
      }
      forall i | 0 <= i < |r.db.faculties| && r.db.faculties[i].fields.educationType.Some?
        ensures Has(r.db.educationTypes, r.db.faculties[i].fields.educationType.value)
      {
        assert r.db.faculties[i] == db.faculties[if i < k then i else i + 1];
      }
      forall i | 0 <= i < |r.db.links| ensures LinkTargets(r.db, r.db.links[i].fields) {
        assert LinkTargets(db, db.links[i].fields);
        HasRemove(db.faculties, k, db.links[i].fields.faculty);
      }
    }
  }
}
