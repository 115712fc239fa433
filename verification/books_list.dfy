/** The book list (src/components/books/BooksList.tsx): the search filter over
    the books, the edit dialog's field-by-field changes to the book being
    edited, and the submit guard that hands the edited book to the page's
    update handler. */
module BooksList {
  import opened Records
  import opened Store
  import opened Text
  import opened Library

  // ---------------------------------------------------------------------
  // Search
  // ---------------------------------------------------------------------

  /** A book matches when the term occurs, ignoring case, in its title, author
      or category, or occurs verbatim in its ISBN. */
  function BookMatches(b: Book, term: string): (m: bool)
    ensures term == "" ==> m
    ensures LowerStr(term) == LowerStr(b.title) ==> m
  {
    ContainsEmpty(b.isbn);
    assert OccursAt(LowerStr(b.title), LowerStr(b.title), 0);
    var t := LowerStr(term);
    Contains(LowerStr(b.title), t) || Contains(LowerStr(b.author), t)
      || Contains(LowerStr(b.category), t) || Contains(b.isbn, term)
  }

  function BookMatcher(term: string): Book -> bool {
    b => BookMatches(b, term)
  }

  /** `filteredBooks`: the matching books, in list order. */
  function FilteredBooks(books: seq<Book>, term: string): (r: seq<Book>)
    ensures forall b :: b in r <==> b in books && BookMatches(b, term)
    ensures IsSubsequence(r, books)
  {
    FilterIsSubsequence(books, BookMatcher(term));
    Filter(books, BookMatcher(term))
  }

  /** The search keeps every occurrence of a matching book and none of a
      book that does not match. */
  lemma FilteredBooksMultiset(books: seq<Book>, term: string)
    ensures forall b :: multiset(FilteredBooks(books, term))[b]
                        == (if BookMatches(b, term) then multiset(books)[b] else 0)
  {
    FilterMultiset(books, BookMatcher(term));
  }

  /** An empty search term shows every book, in order. */
  lemma FilteredBooksEmptyTerm(books: seq<Book>)
    ensures FilteredBooks(books, "") == books
  {
    forall b | b in books ensures BookMatcher("")(b) {
      ContainsEmpty(b.isbn);
    }
    FilterKeepsAll(books, BookMatcher(""));
  }

  /** Two terms that lower-case alike select the same books, unless one of
      them occurs in some ISBN where the other does not (the ISBN comparison
      keeps case). */
  lemma FilteredBooksIgnoreCase(books: seq<Book>, t1: string, t2: string)
    requires LowerStr(t1) == LowerStr(t2)
    requires forall b :: b in books ==> (Contains(b.isbn, t1) <==> Contains(b.isbn, t2))
    ensures FilteredBooks(books, t1) == FilteredBooks(books, t2)
  {
    FilterAgreeing(books, BookMatcher(t1), BookMatcher(t2));
  }

  /** Searching for a book's own category, in any case, finds it. */
  lemma BookFoundByCategory(books: seq<Book>, b: Book, term: string)
    requires b in books && LowerStr(term) == LowerStr(b.category)
    ensures b in FilteredBooks(books, term)
  {
    assert OccursAt(LowerStr(b.category), LowerStr(b.category), 0);
  }

  /** "The Great Gatsby" matches the term "GATSBY" through its title. */
  lemma GatsbyMatchesUpperCase()
    ensures BookMatches(SeedBooks()[0], "GATSBY")
  {
    var title := SeedBooks()[0].title;
    assert LowerStr("GATSBY") == "gatsby" == LowerStr("Gatsby");
    assert OccursAt(title, "Gatsby", 10);
    OccursAtLowered(title, "Gatsby", 10);
  }

  /** No seeded ISBN contains a letter, so neither spelling of "gatsby"
      occurs in one. */
  lemma SeedIsbnsLackGatsby()
    ensures forall b :: b in SeedBooks() ==> !Contains(b.isbn, "GATSBY") && !Contains(b.isbn, "gatsby")
  {
    var bs := SeedBooks();
    forall k | 0 <= k < 3
      ensures !Contains(bs[k].isbn, "GATSBY") && !Contains(bs[k].isbn, "gatsby")
    {
      NotContainsForeignChar(bs[k].isbn, "GATSBY");
      NotContainsForeignChar(bs[k].isbn, "gatsby");
    }
  }

  /** "GATSBY" and "gatsby" select the same seeded books. */
  lemma GatsbyEitherCase()
    ensures FilteredBooks(SeedBooks(), "GATSBY") == FilteredBooks(SeedBooks(), "gatsby")
  {
    SeedIsbnsLackGatsby();
    assert LowerStr("GATSBY") == LowerStr("gatsby");
    FilteredBooksIgnoreCase(SeedBooks(), "GATSBY", "gatsby");
  }

  /** Both spellings keep "The Great Gatsby". */
  lemma GatsbyFound()
    ensures SeedBooks()[0] in FilteredBooks(SeedBooks(), "GATSBY")
    ensures SeedBooks()[0] in FilteredBooks(SeedBooks(), "gatsby")
  {
    var books := SeedBooks();
    GatsbyMatchesUpperCase();
    assert books[0] in books;
    GatsbyEitherCase();
  }

  // ---------------------------------------------------------------------
  // Editing
  // ---------------------------------------------------------------------

  /** The fields the edit dialog can change. */
  datatype BookField = TitleField | AuthorField | IsbnField | CategoryField | YearField | AvailableField

  /** One `onChange` of the edit dialog: `{...editingBook, field: value}`. */
  datatype BookEdit =
    | EditTitle(title: string)
    | EditAuthor(author: string)
    | EditIsbn(isbn: string)
    | EditCategory(category: string)
    | EditYear(year: int)
    | EditAvailable(available: bool)
  {
    function Field(): BookField {
      match this
      case EditTitle(_) => TitleField
      case EditAuthor(_) => AuthorField
      case EditIsbn(_) => IsbnField
      case EditCategory(_) => CategoryField
      case EditYear(_) => YearField
      case EditAvailable(_) => AvailableField
    }
  }

  /** The editable fields on which two books differ. */
  function ChangedFields(a: Book, b: Book): set<BookField> {
    (if a.title != b.title then {TitleField} else {})
    + (if a.author != b.author then {AuthorField} else {})
    + (if a.isbn != b.isbn then {IsbnField} else {})
    + (if a.category != b.category then {CategoryField} else {})
    + (if a.publishedYear != b.publishedYear then {YearField} else {})
    + (if a.available != b.available then {AvailableField} else {})
  }

  /** Applying one edit: the id and every other field are kept, and the edited
      field holds the new value. */
  function ApplyEdit(b: Book, e: BookEdit): (r: Book)
    ensures r.id == b.id
    ensures ChangedFields(b, r) <= {e.Field()}
    ensures match e
      case EditTitle(v) => r.title == v
      case EditAuthor(v) => r.author == v
      case EditIsbn(v) => r.isbn == v
      case EditCategory(v) => r.category == v
      case EditYear(v) => r.publishedYear == v
      case EditAvailable(v) => r.available == v
  {
    match e
    case EditTitle(v) => b.(title := v)
    case EditAuthor(v) => b.(author := v)
    case EditIsbn(v) => b.(isbn := v)
    case EditCategory(v) => b.(category := v)
    case EditYear(v) => b.(publishedYear := v)
    case EditAvailable(v) => b.(available := v)
  }

  /** The fields a sequence of edits touches. */
  function EditedFields(es: seq<BookEdit>): set<BookField> {
    set e | e in es :: e.Field()
  }

  /** A whole editing session: the dialog's edits applied in order. */
  function ApplyEdits(b: Book, es: seq<BookEdit>): (r: Book)
    ensures r.id == b.id
    ensures ChangedFields(b, r) <= EditedFields(es)
    decreases es
  {
    if es == [] then b
    else
      var r := ApplyEdits(ApplyEdit(b, es[0]), es[1..]);
      assert EditedFields(es) == {es[0].Field()} + EditedFields(es[1..]) by {
        assert forall e :: e in es <==> e == es[0] || e in es[1..];
      }
      r
  }

  /** An editing session keeps the id, so submitting it replaces exactly the
      record that was opened for editing and no other. */
  lemma EditedBookReplacesItsOrigin(books: seq<Book>, k: nat, es: seq<BookEdit>)
    requires IdsUnique(books, BookId) && k < |books|
    ensures var r := Update(books, BookId, ApplyEdits(books[k], es));
      && |r| == |books|
      && r[k] == ApplyEdits(books[k], es)
      && forall j :: 0 <= j < |books| && j != k ==> r[j] == books[j]
  {
  }

  // ---------------------------------------------------------------------
  // Submit
  // ---------------------------------------------------------------------

  /** `handleSubmit`: calls the update handler with the book being edited, if
      there is one; otherwise does nothing. */
  method SubmitEdit(library: Library, editing: Option<Book>)
    modifies library
    ensures editing.None? ==> library.books == old(library.books)
    ensures editing.Some? ==> library.books == Update(old(library.books), BookId, editing.value)
    ensures library.authors == old(library.authors) && library.categories == old(library.categories)
    ensures old(library.Valid()) ==> library.Valid()
  {
    if editing.Some? {
      library.UpdateBook(editing.value);
    }
  }
}
