/** The public catalog table: the text and subject filters, the ten-per-page slice,
    the page count, the previous/next buttons, the five-button page window and the
    reset to the first page when a filter changes. */
module BooksTable {
  import opened Wrappers
  import opened JsText

  const ItemsPerPage: int := 10
  const WindowSize: int := 5

  /** A book as the table reads it: `name`, `author`, `publisher` (each possibly
      missing) and `subject?.id`. */
  datatype Book = Book(name: Option<string>, author: Option<string>, publisher: Option<string>, subject: Option<int>)

  /* ---------------- filters ---------------- */

  /** `field?.toLowerCase().includes(term.toLowerCase())`: a missing field never matches. */
  predicate FieldMatches(field: Option<string>, term: string) {
    field.Some? && Includes(ToLowerCase(field.value), ToLowerCase(term))
  }

  /** Case is ignored in Cyrillic as in Latin script: the term `КИТОБ` finds a book
      named `китоб`, and the term `kitob` one named `KITOB`. */
  lemma IgnoresCase()
    ensures FieldMatches(Some("китоб"), "КИТОБ")
    ensures FieldMatches(Some("KITOB"), "kitob")
  {
    LowerCapitals("КИТОБ");
    LowerCharFixed("китоб");
    assert ToLowerCase("КИТОБ") == "китоб";
    assert OccursAt(ToLowerCase("китоб"), ToLowerCase("КИТОБ"), 0);
    LowerCapitals("KITOB");
    LowerCharFixed("kitob");
    assert ToLowerCase("KITOB") == "kitob";
    assert OccursAt(ToLowerCase("KITOB"), ToLowerCase("kitob"), 0);
  }

  /** The text filter's test: the term occurs in the name, the author or the publisher,
      ignoring case. */
  predicate TextMatches(b: Book, term: string) {
    FieldMatches(b.name, term) || FieldMatches(b.author, term) || FieldMatches(b.publisher, term)
  }

  /** `if (selectedSubject)`: the subject filter is on for a selected id other than `0`
      (the empty selection is `""`, which is falsy like `0`). */
  predicate SubjectFilterOn(selected: Option<int>) {
    selected.Some? && selected.value != 0
  }

  /** The books the text filter keeps, in order. */
  function FilterText(books: seq<Book>, term: string): (r: seq<Book>)
    ensures |r| <= |books|
    ensures forall b :: b in r <==> b in books && TextMatches(b, term)
  {
    if books == [] then []
    else (if TextMatches(books[0], term) then [books[0]] else []) + FilterText(books[1..], term)
  }

  /** The books the subject filter keeps (`book.subject?.id === selectedSubject`), in order. */
  function FilterSubject(books: seq<Book>, id: int): (r: seq<Book>)
    ensures |r| <= |books|
    ensures forall b :: b in r <==> b in books && b.subject == Some(id)
  {
    if books == [] then []
    else (if books[0].subject == Some(id) then [books[0]] else []) + FilterSubject(books[1..], id)
  }

  /** `filteredBooks`: the text filter when a term is typed, then the subject filter
      when a subject is selected. */
  function FilteredBooks(books: seq<Book>, term: string, selected: Option<int>): (r: seq<Book>)
    ensures term == "" && !SubjectFilterOn(selected) ==> r == books
    ensures forall b :: b in r <==>
      b in books && (term == "" || TextMatches(b, term)) && (!SubjectFilterOn(selected) || b.subject == Some(selected.value))
  {
    var afterText := if term != "" then FilterText(books, term) else books;
    if SubjectFilterOn(selected) then FilterSubject(afterText, selected.value) else afterText
  }

  /** The test of a book against both filters at once. */
  predicate Keep(b: Book, term: string, selected: Option<int>) {
    (term == "" || TextMatches(b, term)) && (!SubjectFilterOn(selected) || b.subject == Some(selected.value))
  }

  /** One pass over the books with both tests: the reference the two-stage filter is
      checked against. */
  function KeepAll(books: seq<Book>, term: string, selected: Option<int>): seq<Book> {
    if books == [] then []
    else (if Keep(books[0], term, selected) then [books[0]] else []) + KeepAll(books[1..], term, selected)
  }

  /** The two filters in a row keep exactly the books that pass both tests, in their
      original order and with their multiplicity. */
  lemma {:induction false} FilteredBooksIsKeepAll(books: seq<Book>, term: string, selected: Option<int>)
    ensures FilteredBooks(books, term, selected) == KeepAll(books, term, selected)
  {
    if SubjectFilterOn(selected) {
      if term != "" {
        TextThenSubject(books, term, selected.value);
      } else {
        SubjectOnly(books, selected.value);
      }
    } else if term != "" {
      TextOnly(books, term, selected);
    } else {
      KeepAllEverything(books, selected);
    }
  }

  lemma {:induction false} TextThenSubject(books: seq<Book>, term: string, id: int)
    requires term != "" && id != 0
    ensures FilterSubject(FilterText(books, term), id) == KeepAll(books, term, Some(id))
  {
    if books != [] {
      var head := if TextMatches(books[0], term) then [books[0]] else [];
      FilterSubjectAppend(head, FilterText(books[1..], term), id);
      TextThenSubject(books[1..], term, id);
      if TextMatches(books[0], term) {
        assert FilterSubject(head, id) == (if books[0].subject == Some(id) then [books[0]] else []);
      }
    }
  }

  lemma {:induction false} SubjectOnly(books: seq<Book>, id: int)
    requires id != 0
    ensures FilterSubject(books, id) == KeepAll(books, "", Some(id))
  {
    if books != [] {
      SubjectOnly(books[1..], id);
    }
  }

  lemma {:induction false} TextOnly(books: seq<Book>, term: string, selected: Option<int>)
    requires term != "" && !SubjectFilterOn(selected)
    ensures FilterText(books, term) == KeepAll(books, term, selected)
  {
    if books != [] {
      TextOnly(books[1..], term, selected);
    }
  }

  lemma {:induction false} KeepAllEverything(books: seq<Book>, selected: Option<int>)
    requires !SubjectFilterOn(selected)
    ensures KeepAll(books, "", selected) == books
  {
    if books != [] {
      KeepAllEverything(books[1..], selected);
      assert [books[0]] + books[1..] == books;
    }
  }

  lemma {:induction false} FilterSubjectAppend(a: seq<Book>, b: seq<Book>, id: int)
    ensures FilterSubject(a + b, id) == FilterSubject(a, id) + FilterSubject(b, id)
  {
    if a == [] {
      assert a + b == b;
    } else {
      assert (a + b)[0] == a[0] && (a + b)[1..] == a[1..] + b;
      FilterSubjectAppend(a[1..], b, id);
    }
  }

  /* ---------------- pages ---------------- */

  /** An index of `slice`: a negative one counts from the end; both are clamped to
      `[0, n]`. */
  function SliceIndex(i: int, n: nat): (r: nat)
    ensures r <= n
    ensures 0 <= i <= n ==> r == i
  {
    if i < 0 then Max(n + i, 0) else Min(i, n)
  }

  /** `Array.prototype.slice(begin, end)`. */
  function Slice<T>(s: seq<T>, begin: int, end: int): (r: seq<T>)
    ensures 0 <= begin <= end ==> r == s[Min(begin, |s|)..Min(end, |s|)]
  {
    var b := SliceIndex(begin, |s|);
    var e := SliceIndex(end, |s|);
    if b < e then s[b..e] else []
  }

  /** `currentBooks`: the slice `[(page - 1) * 10, page * 10)` of the filtered list. */
  function CurrentBooks(filtered: seq<Book>, page: int): (r: seq<Book>)
    ensures page >= 1 ==> r == filtered[Min((page - 1) * ItemsPerPage, |filtered|)..Min(page * ItemsPerPage, |filtered|)]
    ensures page >= 1 ==> |r| <= ItemsPerPage
  {
    Slice(filtered, (page - 1) * ItemsPerPage, page * ItemsPerPage)
  }

  /** `Math.ceil(n / 10)`: the fewest pages of ten that hold `n` books. */
  function TotalPages(n: nat): (r: nat)
    ensures r * ItemsPerPage >= n
    ensures r > 0 ==> (r - 1) * ItemsPerPage < n
    ensures r == 0 <==> n == 0
  {
    (n + ItemsPerPage - 1) / ItemsPerPage
  }

  /** Pages `1..k` laid end to end. */
  function PagesUpTo(filtered: seq<Book>, k: nat): seq<Book> {
    if k == 0 then [] else PagesUpTo(filtered, k - 1) + CurrentBooks(filtered, k)
  }

  /** The first `k` pages are the first `10 k` books (or all of them). */
  lemma {:induction false} PagesUpToPrefix(filtered: seq<Book>, k: nat)
    ensures PagesUpTo(filtered, k) == filtered[..Min(k * ItemsPerPage, |filtered|)]
  {
    if k > 0 {
      PagesUpToPrefix(filtered, k - 1);
      var lo := Min((k - 1) * ItemsPerPage, |filtered|);
      var hi := Min(k * ItemsPerPage, |filtered|);
      assert filtered[..lo] + filtered[lo..hi] == filtered[..hi];
    }
  }

  /** Pages `1..totalPages` split the filtered list: every book is on exactly one page,
      in order, and later pages are empty. */
  lemma PagesPartition(filtered: seq<Book>, page: int)
    ensures PagesUpTo(filtered, TotalPages(|filtered|)) == filtered
    ensures page > TotalPages(|filtered|) ==> CurrentBooks(filtered, page) == []
  {
    PagesUpToPrefix(filtered, TotalPages(|filtered|));
    assert filtered[..|filtered|] == filtered;
  }

  /* ---------------- page window ---------------- */

  /** The number on button `i` of the window. */
  function WindowPage(i: int, currentPage: int, totalPages: int): int {
    if totalPages <= WindowSize then i + 1
    else if currentPage <= 3 then i + 1
    else if currentPage >= totalPages - 2 then totalPages - 4 + i
    else currentPage - 2 + i
  }

  /** The numbered buttons: `Math.min(5, totalPages)` consecutive pages, all within
      `[1, totalPages]`, including the current page when it is one of them. */
  function PageWindow(currentPage: int, totalPages: nat): (r: seq<int>)
    ensures |r| == Min(WindowSize, totalPages)
    ensures forall i :: 0 <= i < |r| ==> r[i] == r[0] + i
    ensures forall i :: 0 <= i < |r| ==> 1 <= r[i] <= totalPages
    ensures 1 <= currentPage <= totalPages ==> currentPage in r
  {
    var r := seq(Min(WindowSize, totalPages), i => WindowPage(i, currentPage, totalPages));
    if 1 <= currentPage <= totalPages then
      assert r[currentPage - r[0]] == currentPage;
      r
    else r
  }

  /* ---------------- component state ---------------- */

  /** The catalog's state: the loaded books, the search box, the selected subject and
      the 1-based current page. */
  class Catalog {
    var books: seq<Book>
    var searchTerm: string
    var selectedSubject: Option<int>
    var currentPage: int

    function Filtered(): seq<Book>
      reads this
    {
      FilteredBooks(books, searchTerm, selectedSubject)
    }

    function Pages(): nat
      reads this
    {
      TotalPages(|Filtered()|)
    }

    /** The current page is a real page, or page 1 of an empty list. */
    predicate InRange()
      reads this
    {
      1 <= currentPage <= Max(1, Pages())
    }

    constructor ()
      ensures books == [] && searchTerm == "" && selectedSubject == None && currentPage == 1
      ensures InRange()
    {
      books := [];
      searchTerm := "";
      selectedSubject := None;
      currentPage := 1;
    }

    /** `handlePrevPage`: one page back, never below page 1. */
    method HandlePrevPage()
      modifies this
      ensures books == old(books) && searchTerm == old(searchTerm) && selectedSubject == old(selectedSubject)
      ensures currentPage == if old(currentPage) > 1 then old(currentPage) - 1 else old(currentPage)
      ensures old(InRange()) ==> InRange()
    {
      if currentPage > 1 {
        currentPage := currentPage - 1;
      }
    }

    /** `handleNextPage`: one page on, never past the last page. */
    method HandleNextPage()
      modifies this
      ensures books == old(books) && searchTerm == old(searchTerm) && selectedSubject == old(selectedSubject)
      ensures currentPage == if old(currentPage) < old(Pages()) then old(currentPage) + 1 else old(currentPage)
      ensures old(InRange()) ==> InRange()
    {
      if currentPage < Pages() {
        currentPage := currentPage + 1;
      }
    }

    /** `paginate`, from a window button or the last-page button. */
    method Paginate(pageNumber: int)
      requires 1 <= pageNumber <= Pages()
      modifies this
      ensures books == old(books) && searchTerm == old(searchTerm) && selectedSubject == old(selectedSubject)
      ensures currentPage == pageNumber && InRange()
    {
      currentPage := pageNumber;
    }

    /** Typing in the search box, followed by the effect that goes back to page 1
        whenever the term actually changed. */
    method SetSearchTerm(term: string)
      modifies this
      ensures books == old(books) && selectedSubject == old(selectedSubject) && searchTerm == term
      ensures currentPage == if term != old(searchTerm) then 1 else old(currentPage)
      ensures old(InRange()) ==> InRange()
    {
      if term != searchTerm {
        searchTerm := term;
        currentPage := 1;
      }
    }

    /** Choosing a subject (or clearing it), with the same reset to page 1. */
    method SetSelectedSubject(selected: Option<int>)
      modifies this
      ensures books == old(books) && searchTerm == old(searchTerm) && selectedSubject == selected
      ensures currentPage == if selected != old(selectedSubject) then 1 else old(currentPage)
      ensures old(InRange()) ==> InRange()
    {
      if selected != selectedSubject {
        selectedSubject := selected;
        currentPage := 1;
      }
    }

    /** The books loaded from the server replace the list; the page is kept. */
    method LoadBooks(loaded: seq<Book>)
      modifies this
      ensures books == loaded && searchTerm == old(searchTerm) && selectedSubject == old(selectedSubject)
      ensures currentPage == old(currentPage)
    {
      books := loaded;
    }
  }
}
