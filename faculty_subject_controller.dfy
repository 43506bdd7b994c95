/** The faculty–subject link endpoints of `/api/v1/faculty-subject`: create with its
    pair guard, update, delete. */
module FacultySubjectController {
  import opened Wrappers
  import opened Catalog
  import opened Registry

  const AlreadyAssigned: string := "This subject already assigned to faculty"
  const FacultyNotFound: string := "Faculty not found"
  const SubjectNotFound: string := "Subject not found"
  const LinkNotFound: string := "FacultySubject not found"
  const LinkDeleted: string := "FacultySubject deleted successfully"

  /** The fields of a `FacultySubjectDTO` the handlers read. */
  datatype LinkForm = LinkForm(facultyId: nat, subjectId: nat)

  /** No (faculty, subject) pair is linked twice. */
  predicate PairsUnique(links: seq<Row<Link>>) {
    forall i, j :: 0 <= i < j < |links| ==> links[i].fields != links[j].fields
  }

  /** `create`: a pair already linked is a bad request, checked before the faculty and
      the subject are looked up; an unknown faculty or subject fails; otherwise exactly
      one link of the two is added. Only success writes. */
  function Create(db: Db, form: LinkForm): (r: Reply<Row<Link>>)
    ensures HasLinkPair(db.links, form.facultyId, form.subjectId) ==> r == Reply(BadRequest(AlreadyAssigned), db)
    ensures !HasLinkPair(db.links, form.facultyId, form.subjectId) && !Has(db.faculties, form.facultyId) ==>
      r == Reply(Failure(FacultyNotFound), db)
    ensures r.response.Ok? <==>
      !HasLinkPair(db.links, form.facultyId, form.subjectId) && Has(db.faculties, form.facultyId) && Has(db.subjects, form.subjectId)
    ensures !r.response.Ok? ==> r.db == db
    ensures r.response.Ok? ==>
      && r.response.body == Row(db.nextId, Link(form.facultyId, form.subjectId))
      && r.db == InsertLink(db, Link(form.facultyId, form.subjectId))
  {
    if HasLinkPair(db.links, form.facultyId, form.subjectId) then Reply(BadRequest(AlreadyAssigned), db)
    else if Find(db.faculties, form.facultyId).None? then Reply(Failure(FacultyNotFound), db)
    else if Find(db.subjects, form.subjectId).None? then Reply(Failure(SubjectNotFound), db)
    else
      var row := Row(db.nextId, Link(form.facultyId, form.subjectId));
      Reply(Ok(row), InsertLink(db, row.fields))
  }

  /** Through `create` no pair is ever linked twice, and after a success the pair is linked. */
  lemma CreateKeepsPairsUnique(db: Db, form: LinkForm)
    requires PairsUnique(db.links)
    ensures PairsUnique(Create(db, form).db.links)
    ensures Create(db, form).response.Ok? ==> HasLinkPair(Create(db, form).db.links, form.facultyId, form.subjectId)
  {
    var r := Create(db, form);
    if r.response.Ok? {
      var n := |db.links|;
      assert r.db.links[n].fields == Link(form.facultyId, form.subjectId);
      forall i | 0 <= i < n ensures r.db.links[i].fields != Link(form.facultyId, form.subjectId) {
        assert r.db.links[i] == db.links[i];
      }
    }
  }

  lemma CreateValid(db: Db, form: LinkForm)
    requires Valid(db)
    ensures Valid(Create(db, form).db)
  {
    if Create(db, form).response.Ok? {
      InsertLinkValid(db, Link(form.facultyId, form.subjectId));
    }
  }

  /** `update`: an unknown link, faculty or subject fails; otherwise the link is
      pointed at the given faculty and subject, with no check for an existing pair. */
  function Update(db: Db, id: nat, form: LinkForm): (r: Reply<Row<Link>>)
    ensures !Has(db.links, id) ==> r == Reply(Failure(LinkNotFound), db)
    ensures r.response.Ok? <==> Has(db.links, id) && Has(db.faculties, form.facultyId) && Has(db.subjects, form.subjectId)
    ensures !r.response.Ok? ==> r.db == db
    ensures r.response.Ok? ==>
      var k := Find(db.links, id).value;
      && r.response.body == Row(id, Link(form.facultyId, form.subjectId))
      && r.db == db.(links := db.links[k := Row(id, Link(form.facultyId, form.subjectId))])
  {
    match Find(db.links, id)
    case None => Reply(Failure(LinkNotFound), db)
    case Some(k) =>
      if Find(db.faculties, form.facultyId).None? then Reply(Failure(FacultyNotFound), db)
      else if Find(db.subjects, form.subjectId).None? then Reply(Failure(SubjectNotFound), db)
      else
        var row := Row(id, Link(form.facultyId, form.subjectId));
        Reply(Ok(row), db.(links := db.links[k := row]))
  }

  /** `update` bypasses the pair guard: pointing a link at a pair another link already
      has succeeds and leaves the pair linked twice. */
  lemma UpdateSkipsPairGuard(db: Db, id: nat, form: LinkForm, j: nat)
    requires Has(db.links, id) && Has(db.faculties, form.facultyId) && Has(db.subjects, form.subjectId)
    requires j < |db.links| && db.links[j].id != id && db.links[j].fields == Link(form.facultyId, form.subjectId)
    ensures Update(db, id, form).response.Ok?
    ensures !PairsUnique(Update(db, id, form).db.links)
  {
    var k := Find(db.links, id).value;
    var t := Update(db, id, form).db.links;
    assert t[j] == db.links[j] && t[k].fields == Link(form.facultyId, form.subjectId);
    if j < k {
      assert t[j].fields == t[k].fields;
    } else {
      assert t[k].fields == t[j].fields;
    }
  }

  lemma UpdateValid(db: Db, id: nat, form: LinkForm)
    requires Valid(db)
    ensures Valid(Update(db, id, form).db)
  {
    var r := Update(db, id, form);
    if r.response.Ok? {
      var k := Find(db.links, id).value;
      TableSet(db.links, db.nextId, k, Link(form.facultyId, form.subjectId));
      forall i | 0 <= i < |r.db.links| ensures LinkTargets(r.db, r.db.links[i].fields) {
        if i != k {
          assert LinkTargets(db, db.links[i].fields);
        }
      }
    }
  }

  /** The update handler, step by step: find the link, the faculty and the subject,
      run the two setters, save. */
  method UpdateLink(store: Store, id: nat, form: LinkForm) returns (response: Response<Row<Link>>)
    modifies store
    ensures Reply(response, store.db) == Update(old(store.db), id, form)
  {
    var found := Find(store.db.links, id);
    if found.None? {
      return Failure(LinkNotFound);
    }
    if Find(store.db.faculties, form.facultyId).None? {
      return Failure(FacultyNotFound);
    }
    if Find(store.db.subjects, form.subjectId).None? {
      return Failure(SubjectNotFound);
    }
    var k := found.value;
    var link := store.db.links[k].fields;
    link := link.(faculty := form.facultyId);
    link := link.(subject := form.subjectId);
    store.db := store.db.(links := store.db.links[k := Row(id, link)]);
    response := Ok(Row(id, link));
  }

  /** `delete`: an absent id is not found and removes nothing; otherwise exactly that
      link goes (no other row points at a link). */
  function Delete(db: Db, id: nat): (r: Reply<string>)
    ensures !Has(db.links, id) <==> r == Reply(NotFound, db)
    ensures r.response.Ok? <==> Has(db.links, id)
    ensures r.response.Ok? ==>
      r.response.body == LinkDeleted && r.db == db.(links := RemoveAt(db.links, Find(db.links, id).value))
  {
    match Find(db.links, id)
    case None => Reply(NotFound, db)
    case Some(k) => Reply(Ok(LinkDeleted), db.(links := RemoveAt(db.links, k)))
  }

  /** A delete removes exactly the link with that id. */
  lemma DeleteRemovesExactly(db: Db, id: nat, other: nat)
    requires Table(db.links, db.nextId)
    requires Delete(db, id).response.Ok?
    ensures !Has(Delete(db, id).db.links, id)
    ensures other != id ==> (Has(Delete(db, id).db.links, other) <==> Has(db.links, other))
  {
    RemoveAtHas(db.links, db.nextId, Find(db.links, id).value, other);
  }

  lemma DeleteValid(db: Db, id: nat)
    requires Valid(db)
    ensures Valid(Delete(db, id).db)
  {
    var r := Delete(db, id);
    if r.response.Ok? {
      var k := Find(db.links, id).value;
      TableRemove(db.links, db.nextId, k);
      forall i | 0 <= i < |r.db.links| ensures LinkTargets(r.db, r.db.links[i].fields) {
        assert r.db.links[i] == db.links[if i < k then i else i + 1];
      }
    }
  }
}
