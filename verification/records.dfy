/** The three record shapes of the library catalogue (src/lib/types.ts) and
    the field sets the add forms hand to the store before an id exists. */
module Records {

  /** Record identifiers are strings; new ones come from the clock. */
  type Id = string

  datatype Option<T> = None | Some(value: T)

  datatype Book = Book(
    id: Id,
    title: string,
    author: string,       // the author's name, not a reference to an Author record
    isbn: string,
    category: string,     // the category's name, not a reference to a Category record
    publishedYear: int,
    available: bool)

  datatype Author = Author(id: Id, name: string, bio: string)

  datatype Category = Category(id: Id, name: string, description: string)

  /** A book without its id (`Omit<Book, "id">`). */
  datatype BookDraft = BookDraft(
    title: string,
    author: string,
    isbn: string,
    category: string,
    publishedYear: int,
    available: bool)
  {
    /** `{ ...draft, id }`: every field of the draft plus the new id. */
    function WithId(id: Id): Book {
      Book(id, title, author, isbn, category, publishedYear, available)
    }
  }

  /** An author without its id (`Omit<Author, "id">`). */
  datatype AuthorDraft = AuthorDraft(name: string, bio: string) {
    function WithId(id: Id): Author {
      Author(id, name, bio)
    }
  }

  /** A category without its id (`Omit<Category, "id">`). */
  datatype CategoryDraft = CategoryDraft(name: string, description: string) {
    function WithId(id: Id): Category {
      Category(id, name, description)
    }
  }

  /** The key functions under which the generic store treats each kind. */
  function BookId(b: Book): Id { b.id }
  function AuthorId(a: Author): Id { a.id }
  function CategoryId(c: Category): Id { c.id }
}
