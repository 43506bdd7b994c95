/** The admin book page: its five-page pagination window and page change, the upload
    prefix made from the chosen subject's name, and the submit guard. The same window
    and page change are used by the admin page of badiiy books. */
module AdminBooks {
  import opened Wrappers
  import opened JsText
  import opened FrontendForms

  const MaxVisiblePages: int := 5
  const RequiredAlert: string := "Name, Subject va PDF majburiy"
  const ChooseSubjectAlert: string := "Avval fan tanlang"

  /* ---------------- pagination ---------------- */

  /** `getPageNumbers` (pages are 0-based): all pages when there are at most five;
      otherwise five consecutive pages starting two before the current one, shifted
      right at the first pages and left at the last ones. */
  method PageNumbers(currentPage: int, totalPages: int) returns (pages: seq<int>)
    ensures |pages| == if totalPages <= 0 then 0 else Min(totalPages, MaxVisiblePages)
    ensures forall i :: 0 <= i < |pages| ==> pages[i] == pages[0] + i
    ensures forall i :: 0 <= i < |pages| ==> 0 <= pages[i] < totalPages
    ensures 0 <= currentPage < totalPages ==> currentPage in pages
    ensures totalPages > MaxVisiblePages ==> pages[0] == Max(0, Min(currentPage - 2, totalPages - MaxVisiblePages))
  {
    pages := [];
    var start := 0;
    var end := 0;
    if totalPages <= MaxVisiblePages {
      end := Max(totalPages, 0);
    } else {
      start := Max(0, currentPage - 2);
      end := Min(totalPages, start + MaxVisiblePages);
      if end - start < MaxVisiblePages {
        start := Max(0, end - MaxVisiblePages);
      }
    }
    var i := start;
    while i < end
      invariant start <= i <= end
      invariant |pages| == i - start
      invariant forall k :: 0 <= k < |pages| ==> pages[k] == start + k
    {
      pages := pages + [i];
      i := i + 1;
    }
    if 0 <= currentPage < totalPages {
      assert pages[currentPage - start] == currentPage;
    }
  }

  /** The page state of an admin list. */
  class AdminPager {
    var currentPage: int
    var totalPages: int

    constructor ()
      ensures currentPage == 0 && totalPages == 0
    {
      currentPage := 0;
      totalPages := 0;
    }

    /** `handlePageChange`: only a page in `[0, totalPages)` is taken; any other
        request leaves the state as it is. */
    method HandlePageChange(page: int)
      modifies this
      ensures totalPages == old(totalPages)
      ensures 0 <= page < totalPages ==> currentPage == page
      ensures !(0 <= page < totalPages) ==> currentPage == old(currentPage)
    {
      if page >= 0 && page < totalPages {
        currentPage := page;
      }
    }
  }

  /* ---------------- upload prefix ---------------- */

  /** The characters the upload prefix keeps. */
  predicate PrefixChar(c: char) {
    'a' <= c <= 'z' || '0' <= c <= '9' || c == '_'
  }

  /** `replace(/[^a-z0-9_]/g, "")`: the prefix characters, in order. */
  function KeepPrefixChars(s: string): (r: string)
    ensures |r| <= |s|
    ensures forall i :: 0 <= i < |r| ==> PrefixChar(r[i])
    ensures (forall i :: 0 <= i < |s| ==> PrefixChar(s[i])) ==> r == s
    ensures forall c :: PrefixChar(c) ==> multiset(r)[c] == multiset(s)[c]
  {
    if s == [] then []
    else
      assert s == [s[0]] + s[1..];
      (if PrefixChar(s[0]) then [s[0]] else []) + KeepPrefixChars(s[1..])
  }

  /** `safePrefix`: the subject name lower-cased, each run of whitespace turned into
      one `_`, and everything but `[a-z0-9_]` dropped. */
  function SafePrefix(name: string): (r: string)
    ensures forall i :: 0 <= i < |r| ==> PrefixChar(r[i])
  {
    KeepPrefixChars(ReplaceWhitespaceRuns(ToLowerCase(name), "_"))
  }

  /** A name made only of prefix characters is its own prefix. */
  lemma SafePrefixFixed(name: string)
    requires forall i :: 0 <= i < |name| ==> PrefixChar(name[i])
    ensures SafePrefix(name) == name
  {
    LowerCharFixed(name);
    ReplaceWhitespaceRunsNone(name, "_");
  }

  /** Sanitising a sanitised prefix changes nothing. */
  lemma SafePrefixIdempotent(name: string)
    ensures SafePrefix(SafePrefix(name)) == SafePrefix(name)
  {
    SafePrefixFixed(SafePrefix(name));
  }

  /** A leading run of whitespace becomes exactly one `_`, however long it is. */
  lemma SafePrefixRun(w: string, rest: string)
    requires w != [] && forall i :: 0 <= i < |w| ==> IsWhitespace(w[i])
    requires rest == [] || !IsWhitespace(rest[0])
    ensures SafePrefix(w + rest) == "_" + SafePrefix(rest)
  {
    var lower := ToLowerCase(rest);
    LowerRun(w, rest);
    ReplaceWhitespaceRunsRun(w, lower, "_");
    var replaced := ReplaceWhitespaceRuns(lower, "_");
    assert ("_" + replaced)[0] == '_' && ("_" + replaced)[1..] == replaced;
  }

  /** Lower-casing keeps a whitespace run and cannot start the rest with whitespace. */
  lemma LowerRun(w: string, rest: string)
    requires forall i :: 0 <= i < |w| ==> IsWhitespace(w[i])
    requires rest == [] || !IsWhitespace(rest[0])
    ensures ToLowerCase(w + rest) == w + ToLowerCase(rest)
    ensures ToLowerCase(rest) == [] || !IsWhitespace(ToLowerCase(rest)[0])
  {
    ToLowerCaseAppend(w, rest);
    LowerCharFixed(w);
    LowerHead(rest);
  }

  /** The lower case of a string not starting with whitespace does not start with it. */
  lemma LowerHead(s: string)
    requires s == [] || !IsWhitespace(s[0])
    ensures ToLowerCase(s) == [] || !IsWhitespace(ToLowerCase(s)[0])
  {
    if s != [] {
      assert ToLowerCase(s)[0] == LowerChar(s[0])[0];
    }
  }

  /** A subject in the form's subject list. */
  datatype SubjectOption = SubjectOption(id: int, name: string)

  /** `subjects.find(s => s.id == form.subjectId)`: the first subject whose id is
      loosely equal to the form's value. */
  function FindSubject(subjects: seq<SubjectOption>, subjectId: JsValue): (r: Option<nat>)
    ensures r.None? <==> forall i :: 0 <= i < |subjects| ==> !LooseEqualsNumber(subjects[i].id, subjectId)
    ensures r.Some? ==>
      && r.value < |subjects| && LooseEqualsNumber(subjects[r.value].id, subjectId)
      && forall i :: 0 <= i < r.value ==> !LooseEqualsNumber(subjects[i].id, subjectId)
    decreases |subjects|
  {
    if subjects == [] then None
    else if LooseEqualsNumber(subjects[0].id, subjectId) then Some(0)
    else
      match FindSubject(subjects[1..], subjectId)
      case None => None
      case Some(k) => Some(k + 1)
  }

  /** The prefix `uploadFile` sends: none (an alert, and no upload) when no subject
      matches the form, otherwise `/` followed by the matching subject's safe prefix. */
  function UploadPrefix(subjects: seq<SubjectOption>, subjectId: JsValue): (r: Option<string>)
    ensures r.None? <==> forall i :: 0 <= i < |subjects| ==> !LooseEqualsNumber(subjects[i].id, subjectId)
    ensures r.Some? ==>
      && |r.value| >= 1 && r.value[0] == '/'
      && (forall i :: 1 <= i < |r.value| ==> PrefixChar(r.value[i]))
      && r.value[1..] == SafePrefix(subjects[FindSubject(subjects, subjectId).value].name)
  {
    match FindSubject(subjects, subjectId)
    case None => None
    case Some(k) => Some("/" + SafePrefix(subjects[k].name))
  }

  /* ---------------- submit ---------------- */

  /** The book form of the admin page. */
  datatype BookForm = BookForm(name: JsValue, description: string, author: string, publisher: string, genre: string,
                               path: string, subjectId: JsValue, pdfId: JsValue, imageId: JsValue)

  /** `handleSubmit`: without a name, a subject or a PDF the form is refused with an
      alert; otherwise the form itself is sent, as an update when an item is being
      edited and as a new book otherwise. */
  function HandleSubmit(form: BookForm, editId: Option<int>): (r: Request<BookForm>)
    ensures r.Refused? <==> !Truthy(form.name) || !Truthy(form.subjectId) || !Truthy(form.pdfId)
    ensures r.Refused? ==> r.alert == RequiredAlert
    ensures !r.Refused? ==> !r.UploadFailed? && r.payload == form && (r.Put? <==> editId.Some? && editId.value != 0)
  {
    if !Truthy(form.name) || !Truthy(form.subjectId) || !Truthy(form.pdfId) then Refused(RequiredAlert)
    else Target(editId, form)
  }
}
