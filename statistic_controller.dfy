/** The grouping endpoints of `/api/v1/statistic`: faculties grouped by education type
    with their subject and book counts, and one faculty's subjects with their book
    counts. The aggregate queries themselves run in the database; their result rows
    are inputs here, and what is modelled is how the handlers join and group them. */
module StatisticController {
  import opened Wrappers
  import opened Catalog

  const FacultyNotFound: string := "Faculty not found"

  /** A row of `findFacultiesWithEducationType`. */
  datatype FacultyTypeRow = FacultyTypeRow(facultyId: int, facultyName: string, educationTypeId: int, educationTypeName: string)

  /** The two totals of a book-count row. */
  datatype BookTotals = BookTotals(booksCount: int, libraryCountTotal: int)

  /** One faculty's entry in its group. */
  datatype FacultyStat = FacultyStat(facultyId: int, facultyName: string, subjectsCount: int, booksCount: int, libraryCountTotal: int)

  /** The map of one education type: its id and name and its faculty list. */
  datatype TypeGroup = TypeGroup(educationTypeId: int, educationTypeName: string, faculties: seq<FacultyStat>)

  /** One subject's entry in a faculty's subject statistics. */
  datatype SubjectStat = SubjectStat(subjectId: int, subjectName: string, booksCount: int, libraryCountTotal: int)

  datatype FacultySubjects = FacultySubjects(facultyId: nat, facultyName: string, subjects: seq<SubjectStat>)

  /* ---------------- keyed rows into a map ---------------- */

  /** `map.put(row[0], row[1])` for each row in turn: a later row overwrites an earlier
      one with the same key. */
  function Assoc<V>(rows: seq<(int, V)>): map<int, V>
    decreases |rows|
  {
    if rows == [] then map[]
    else Assoc(rows[..|rows| - 1])[rows[|rows| - 1].0 := rows[|rows| - 1].1]
  }

  /** The map has exactly the keys of the rows, and each key holds the value of the
      last row with that key. */
  lemma {:induction false} AssocLastWins<V>(rows: seq<(int, V)>, key: int)
    ensures key in Assoc(rows) <==> exists i :: 0 <= i < |rows| && rows[i].0 == key
    ensures key in Assoc(rows) ==>
      exists j :: 0 <= j < |rows| && rows[j].0 == key && Assoc(rows)[key] == rows[j].1 &&
        forall k :: j < k < |rows| ==> rows[k].0 != key
    decreases |rows|
  {
    if rows != [] {
      var init := rows[..|rows| - 1];
      var last := rows[|rows| - 1];
      AssocLastWins(init, key);
      if last.0 == key {
        assert rows[|rows| - 1].0 == key;
      } else {
        if exists i :: 0 <= i < |rows| && rows[i].0 == key {
          var i :| 0 <= i < |rows| && rows[i].0 == key;
          assert init[i].0 == key;
        }
        if key in Assoc(rows) {
          var j :| 0 <= j < |init| && init[j].0 == key && Assoc(init)[key] == init[j].1 &&
            forall k :: j < k < |init| ==> init[k].0 != key;
          assert rows[j] == init[j];
        }
      }
    }
  }

  /** The method's loop building a map from rows. */
  method BuildMap<V>(rows: seq<(int, V)>) returns (m: map<int, V>)
    ensures m == Assoc(rows)
  {
    m := map[];
    var i := 0;
    while i < |rows|
      invariant 0 <= i <= |rows|
      invariant m == Assoc(rows[..i])
    {
      assert rows[..i + 1][..i] == rows[..i];
      m := m[rows[i].0 := rows[i].1];
      i := i + 1;
    }
    assert rows[..i] == rows;
  }

  /* ---------------- getEducationTypeFacultyStats ---------------- */

  /** A faculty's entry: its subject count, or 0 without one; its book totals, or two
      zeros without them. */
  function Stat(row: FacultyTypeRow, subjects: map<int, int>, books: map<int, BookTotals>): FacultyStat {
    var totals := if row.facultyId in books then books[row.facultyId] else BookTotals(0, 0);
    FacultyStat(row.facultyId, row.facultyName,
                if row.facultyId in subjects then subjects[row.facultyId] else 0,
                totals.booksCount, totals.libraryCountTotal)
  }

  /** The grouping loop: `putIfAbsent` creates a type's map from the first faculty row of
      that type, and every row appends its entry to its type's list. */
  function Groups(rows: seq<FacultyTypeRow>, subjects: map<int, int>, books: map<int, BookTotals>): map<int, TypeGroup>
    decreases |rows|
  {
    if rows == [] then map[]
    else
      var g := Groups(rows[..|rows| - 1], subjects, books);
      var row := rows[|rows| - 1];
      var t := row.educationTypeId;
      var g' := if t in g then g else g[t := TypeGroup(t, row.educationTypeName, [])];
      g'[t := g'[t].(faculties := g'[t].faculties + [Stat(row, subjects, books)])]
  }

  /** The entries of the rows of one type, in input order: the reference the grouping
      is checked against. */
  function OfType(rows: seq<FacultyTypeRow>, t: int, subjects: map<int, int>, books: map<int, BookTotals>): seq<FacultyStat>
    decreases |rows|
  {
    if rows == [] then []
    else
      var row := rows[|rows| - 1];
      OfType(rows[..|rows| - 1], t, subjects, books) + (if row.educationTypeId == t then [Stat(row, subjects, books)] else [])
  }

  /** Without a row of the type there are no entries of it. */
  lemma {:induction false} OfTypeNone(rows: seq<FacultyTypeRow>, t: int, subjects: map<int, int>, books: map<int, BookTotals>)
    requires forall k :: 0 <= k < |rows| ==> rows[k].educationTypeId != t
    ensures OfType(rows, t, subjects, books) == []
    decreases |rows|
  {
    if rows != [] {
      OfTypeNone(rows[..|rows| - 1], t, subjects, books);
    }
  }

  /** There is a group for exactly the types that occur, keyed by its own id. */
  lemma {:induction false} GroupKeys(rows: seq<FacultyTypeRow>, subjects: map<int, int>, books: map<int, BookTotals>, t: int)
    ensures var g := Groups(rows, subjects, books);
      && (t in g <==> exists i :: 0 <= i < |rows| && rows[i].educationTypeId == t)
      && (t in g ==> g[t].educationTypeId == t)
    decreases |rows|
  {
    if rows != [] {
      var init := rows[..|rows| - 1];
      GroupKeys(init, subjects, books, t);
      if exists i :: 0 <= i < |rows| && rows[i].educationTypeId == t {
        var i :| 0 <= i < |rows| && rows[i].educationTypeId == t;
        if i < |init| {
          assert init[i].educationTypeId == t;
        }
      }
    }
  }

  /** A group's faculty list holds one entry per row of its type, in input order. */
  lemma {:induction false} GroupFaculties(rows: seq<FacultyTypeRow>, subjects: map<int, int>, books: map<int, BookTotals>, t: int)
    ensures var g := Groups(rows, subjects, books);
      t in g ==> g[t].faculties == OfType(rows, t, subjects, books)
    decreases |rows|
  {
    if rows != [] {
      var init := rows[..|rows| - 1];
      var g := Groups(init, subjects, books);
      GroupFaculties(init, subjects, books, t);
      if t !in g {
        GroupKeys(init, subjects, books, t);
        OfTypeNone(init, t, subjects, books);
      }
    }
  }

  /** Row `i` is the first row of type `t`. */
  predicate FirstOfType(rows: seq<FacultyTypeRow>, t: int, i: int) {
    0 <= i < |rows| && rows[i].educationTypeId == t && forall k :: 0 <= k < i ==> rows[k].educationTypeId != t
  }

  /** A group's name comes from the first row of its type (`putIfAbsent`). */
  lemma {:induction false} GroupName(rows: seq<FacultyTypeRow>, subjects: map<int, int>, books: map<int, BookTotals>, t: int)
    ensures var g := Groups(rows, subjects, books);
      t in g ==> exists i :: FirstOfType(rows, t, i) && g[t].educationTypeName == rows[i].educationTypeName
    decreases |rows|
  {
    if rows != [] {
      var init := rows[..|rows| - 1];
      var g := Groups(init, subjects, books);
      var g' := Groups(rows, subjects, books);
      GroupName(init, subjects, books, t);
      if t in g {
        var i :| FirstOfType(init, t, i) && g[t].educationTypeName == init[i].educationTypeName;
        assert g'[t].educationTypeName == g[t].educationTypeName;
        assert FirstOfType(rows, t, i);
      } else if rows[|rows| - 1].educationTypeId == t {
        GroupKeys(init, subjects, books, t);
        assert FirstOfType(rows, t, |rows| - 1) by {
          forall k | 0 <= k < |rows| - 1 ensures rows[k].educationTypeId != t {
            assert rows[k] == init[k];
          }
        }
      }
    }
  }

  /** A faculty's counts are those of the last count row for it, or zero without one. */
  lemma StatCounts(row: FacultyTypeRow, subjectRows: seq<(int, int)>, bookRows: seq<(int, BookTotals)>)
    ensures var s := Stat(row, Assoc(subjectRows), Assoc(bookRows));
      && ((forall i :: 0 <= i < |subjectRows| ==> subjectRows[i].0 != row.facultyId) ==> s.subjectsCount == 0)
      && ((forall i :: 0 <= i < |bookRows| ==> bookRows[i].0 != row.facultyId) ==> s.booksCount == 0 && s.libraryCountTotal == 0)
      && ((exists j :: 0 <= j < |subjectRows| && subjectRows[j].0 == row.facultyId) ==>
            exists j :: 0 <= j < |subjectRows| && subjectRows[j].0 == row.facultyId && s.subjectsCount == subjectRows[j].1 &&
              forall k :: j < k < |subjectRows| ==> subjectRows[k].0 != row.facultyId)
  {
    AssocLastWins(subjectRows, row.facultyId);
    AssocLastWins(bookRows, row.facultyId);
  }

  /** `getEducationTypeFacultyStats`: the two count maps, then the grouping loop. The
      handler returns the groups' values in the hash map's order, which is not
      modelled: the groups are returned keyed by type. */
  method EducationTypeFacultyStats(faculties: seq<FacultyTypeRow>, subjectCounts: seq<(int, int)>, bookCounts: seq<(int, BookTotals)>)
    returns (groups: map<int, TypeGroup>)
    ensures groups == Groups(faculties, Assoc(subjectCounts), Assoc(bookCounts))
  {
    var subjects := BuildMap(subjectCounts);
    var books := BuildMap(bookCounts);
    groups := map[];
    var i := 0;
    while i < |faculties|
      invariant 0 <= i <= |faculties|
      invariant groups == Groups(faculties[..i], subjects, books)
    {
      assert faculties[..i + 1][..i] == faculties[..i];
      var row := faculties[i];
      var t := row.educationTypeId;
      if t !in groups {
        groups := groups[t := TypeGroup(t, row.educationTypeName, [])];
      }
      var totals := if row.facultyId in books then books[row.facultyId] else BookTotals(0, 0);
      var stat := FacultyStat(row.facultyId, row.facultyName,
                              if row.facultyId in subjects then subjects[row.facultyId] else 0,
                              totals.booksCount, totals.libraryCountTotal);
      groups := groups[t := groups[t].(faculties := groups[t].faculties + [stat])];
      i := i + 1;
    }
    assert faculties[..i] == faculties;
  }

  /* ---------------- getFacultySubjectStats ---------------- */

  /** A subject's entry: its book totals, or zeros when the count query has no row for it. */
  function SubjectEntry(subject: (int, string), books: map<int, BookTotals>): SubjectStat {
    var totals := if subject.0 in books then books[subject.0] else BookTotals(0, 0);
    SubjectStat(subject.0, subject.1, totals.booksCount, totals.libraryCountTotal)
  }

  /** `getFacultySubjectStats`: an unknown faculty fails; otherwise one entry per subject
      row, in order, each with the totals of the last count row of its subject, or
      zeros. */
  method FacultySubjectStats(faculties: seq<Row<Faculty>>, facultyId: nat, subjects: seq<(int, string)>, bookCounts: seq<(int, BookTotals)>)
    returns (r: Response<FacultySubjects>)
    ensures r.Ok? <==> Has(faculties, facultyId)
    ensures !r.Ok? ==> r == Failure(FacultyNotFound)
    ensures r.Ok? ==>
      && r.body.facultyId == facultyId
      && r.body.facultyName == faculties[Find(faculties, facultyId).value].fields.name
      && |r.body.subjects| == |subjects|
      && forall i :: 0 <= i < |subjects| ==> r.body.subjects[i] == SubjectEntry(subjects[i], Assoc(bookCounts))
  {
    var found := Find(faculties, facultyId);
    if found.None? {
      return Failure(FacultyNotFound);
    }
    var faculty := faculties[found.value];
    var books := BuildMap(bookCounts);
    var list: seq<SubjectStat> := [];
    var i := 0;
    while i < |subjects|
      invariant 0 <= i <= |subjects|
      invariant |list| == i
      invariant forall k :: 0 <= k < i ==> list[k] == SubjectEntry(subjects[k], books)
    {
      var s := subjects[i];
      var totals := if s.0 in books then books[s.0] else BookTotals(0, 0);
      list := list + [SubjectStat(s.0, s.1, totals.booksCount, totals.libraryCountTotal)];
      i := i + 1;
    }
    r := Ok(FacultySubjects(faculty.id, faculty.fields.name, list));
  }
}
