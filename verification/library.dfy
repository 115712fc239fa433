/** The catalogue page (src/pages/Index.tsx): three state cells holding the
    books, authors and categories, seeded with three records each, and the
    add/delete/update handlers that replace a cell wholesale with a new
    sequence computed from the old one. */
module Library {
  import opened Records
  import opened Store

  /** The books the page starts with. */
  function SeedBooks(): (r: seq<Book>)
    ensures |r| == 3 && r[0].id == "1" && r[1].id == "2" && r[2].id == "3"
    ensures IdsUnique(r, BookId)
  {
    [ Book("1", "The Great Gatsby", "F. Scott Fitzgerald", "9780743273565", "Fiction", 1925, true),
      Book("2", "To Kill a Mockingbird", "Harper Lee", "9780061120084", "Fiction", 1960, true),
      Book("3", "The Hobbit", "J.R.R. Tolkien", "9780547928227", "Fantasy", 1937, false) ]
  }

  /** The authors the page starts with. */
  function SeedAuthors(): (r: seq<Author>)
    ensures |r| == 3 && r[0].id == "1" && r[1].id == "2" && r[2].id == "3"
    ensures IdsUnique(r, AuthorId)
  {
    [ Author("1", "F. Scott Fitzgerald", "American novelist and short story writer"),
      Author("2", "Harper Lee", "American novelist widely known for To Kill a Mockingbird"),
      Author("3", "J.R.R. Tolkien", "English writer, poet, philologist, and academic") ]
  }

  /** The categories the page starts with. */
  function SeedCategories(): (r: seq<Category>)
    ensures |r| == 3 && r[0].id == "1" && r[1].id == "2" && r[2].id == "3"
    ensures IdsUnique(r, CategoryId)
  {
    [ Category("1", "Fiction", "Literary works based on imagination"),
      Category("2", "Non-fiction", "Content based on facts and real events"),
      Category("3", "Fantasy", "Fiction with fantastic themes, often involving magic or the supernatural") ]
  }

  class Library {
    var books: seq<Book>
    var authors: seq<Author>
    var categories: seq<Category>

    /** Within each kind, no two records share an id. */
    ghost predicate Valid()
      reads this
    {
      IdsUnique(books, BookId) && IdsUnique(authors, AuthorId) && IdsUnique(categories, CategoryId)
    }

    /** The page's initial state: the three seeded collections. */
    constructor ()
      ensures books == SeedBooks() && authors == SeedAuthors() && categories == SeedCategories()
      ensures Valid()
    {
      books := SeedBooks();
      authors := SeedAuthors();
      categories := SeedCategories();
    }

    /** handleAddBook: appends the draft with the new id. `id` stands for
        `Date.now().toString()`; ids stay unique only when it is fresh. */
    method AddBook(draft: BookDraft, id: Id)
      modifies this
      ensures books == old(books) + [draft.WithId(id)]
      ensures authors == old(authors) && categories == old(categories)
      ensures old(Valid()) && !HasId(old(books), BookId, id) ==> Valid()
    {
      if Valid() && !HasId(books, BookId, id) {
        AppendFreshKeepsUnique(books, BookId, draft.WithId(id));
      }
      books := books + [draft.WithId(id)];
    }

    /** handleDeleteBook: drops every book carrying `id`. */
    method DeleteBook(id: Id)
      modifies this
      ensures books == Delete(old(books), BookId, id)
      ensures authors == old(authors) && categories == old(categories)
      ensures old(Valid()) ==> Valid()
    {
      if Valid() {
        DeleteKeepsUnique(books, BookId, id);
      }
      books := Delete(books, BookId, id);
    }

    /** handleUpdateBook: replaces the book whose id matches, in place. */
    method UpdateBook(updated: Book)
      modifies this
      ensures books == Update(old(books), BookId, updated)
      ensures authors == old(authors) && categories == old(categories)
      ensures old(Valid()) ==> Valid()
    {
      if Valid() {
        UpdateKeepsUnique(books, BookId, updated);
      }
      books := Update(books, BookId, updated);
    }

    /** handleAddAuthor: appends the draft with the new id. */
    method AddAuthor(draft: AuthorDraft, id: Id)
      modifies this
      ensures authors == old(authors) + [draft.WithId(id)]
      ensures books == old(books) && categories == old(categories)
      ensures old(Valid()) && !HasId(old(authors), AuthorId, id) ==> Valid()
    {
      if Valid() && !HasId(authors, AuthorId, id) {
        AppendFreshKeepsUnique(authors, AuthorId, draft.WithId(id));
      }
      authors := authors + [draft.WithId(id)];
    }

    /** handleDeleteAuthor: drops every author carrying `id`; books naming
        that author are not touched. */
    method DeleteAuthor(id: Id)
      modifies this
      ensures authors == Delete(old(authors), AuthorId, id)
      ensures books == old(books) && categories == old(categories)
      ensures old(Valid()) ==> Valid()
    {
      if Valid() {
        DeleteKeepsUnique(authors, AuthorId, id);
      }
      authors := Delete(authors, AuthorId, id);
    }

    /** handleUpdateAuthor: replaces the author whose id matches, in place. */
    method UpdateAuthor(updated: Author)
      modifies this
      ensures authors == Update(old(authors), AuthorId, updated)
      ensures books == old(books) && categories == old(categories)
      ensures old(Valid()) ==> Valid()
    {
      if Valid() {
        UpdateKeepsUnique(authors, AuthorId, updated);
      }
      authors := Update(authors, AuthorId, updated);
    }

    /** handleAddCategory: appends the draft with the new id. */
    method AddCategory(draft: CategoryDraft, id: Id)
      modifies this
      ensures categories == old(categories) + [draft.WithId(id)]
      ensures books == old(books) && authors == old(authors)
      ensures old(Valid()) && !HasId(old(categories), CategoryId, id) ==> Valid()
    {
      if Valid() && !HasId(categories, CategoryId, id) {
        AppendFreshKeepsUnique(categories, CategoryId, draft.WithId(id));
      }
      categories := categories + [draft.WithId(id)];
    }

    /** handleDeleteCategory: drops every category carrying `id`; books naming
        that category are not touched. */
    method DeleteCategory(id: Id)
      modifies this
      ensures categories == Delete(old(categories), CategoryId, id)
      ensures books == old(books) && authors == old(authors)
      ensures old(Valid()) ==> Valid()
    {
      if Valid() {
        DeleteKeepsUnique(categories, CategoryId, id);
      }
      categories := Delete(categories, CategoryId, id);
    }

    /** handleUpdateCategory: replaces the category whose id matches, in place. */
    method UpdateCategory(updated: Category)
      modifies this
      ensures categories == Update(old(categories), CategoryId, updated)
      ensures books == old(books) && authors == old(authors)
      ensures old(Valid()) ==> Valid()
    {
      if Valid() {
        UpdateKeepsUnique(categories, CategoryId, updated);
      }
      categories := Update(categories, CategoryId, updated);
    }
  }

  /** Adding a book to the seeded catalogue under a fresh id gives four books
      with unique ids, the new one last; deleting book "2" afterwards leaves
      three books, none with id "2", with unique ids. */
  lemma SeededAddThenDelete(draft: BookDraft, id: Id)
    requires id != "1" && id != "2" && id != "3"
    ensures var added := SeedBooks() + [draft.WithId(id)];
      && |added| == 4 && added[3].id == id && IdsUnique(added, BookId)
      && var deleted := Delete(added, BookId, "2");
      && |deleted| == 3 && !HasId(deleted, BookId, "2") && IdsUnique(deleted, BookId)
  {
    var added := SeedBooks() + [draft.WithId(id)];
    assert !HasId(SeedBooks(), BookId, id) by {
      forall b | b in SeedBooks() ensures b.id != id { }
    }
    AppendFreshKeepsUnique(SeedBooks(), BookId, draft.WithId(id));
    assert added[1] in added;
    DeleteUniqueLength(added, BookId, "2");
    DeleteKeepsUnique(added, BookId, "2");
  }
}
