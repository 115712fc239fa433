# Library catalogue store — a Dafny model

The catalogue front end keeps three ordered, in-memory collections — books,
authors and categories — and changes them only by replacing a whole
collection with a new sequence computed from the old one: an add handler
appends the new record under a clock-derived id, a delete handler filters
out the records with a given id, an update handler maps the record with the
updated record's id to the new value. Next to the store sit two display
filters: the book search (title, author and category compared without
regard to case, ISBN compared verbatim) and the category search (name only,
without regard to case), plus the edit dialogs that change one field at a
time and hand the edited record to the update handler on submit.

The model has one generic store over any record type with an id (module
`Store`), instantiated three times by the page's state (class
`Library.Library`, one `seq` field per kind, each method assigning a store
function of the old sequence). Lower-casing and substring search are in
`Text`; the two lists' filters, edits and submit guards are in `BooksList`
and `CategoriesList`; the record shapes are in `Records`.

The handlers return nothing. An update or delete of an absent id leaves the
collection as it was (`Store.UpdateAbsent`, `Store.DeleteAbsent`). Ids come
from the clock and are never checked, so uniqueness is proved to be kept
only when the supplied id is fresh.

## Model

| member | source | states |
|---|---|---|
| Store.Filter | Task2_github_link/codtech-library-api/src/pages/Index.tsx:47 | the result is no longer than the input and holds exactly the input elements the predicate accepts |
| Store.FilterIsSubsequence | Task2_github_link/codtech-library-api/src/components/books/BooksList.tsx:23-28 | a filter result is an ordered subsequence of its input |
| Store.FilterKeepsAll | Task2_github_link/codtech-library-api/src/pages/Index.tsx:47 | a filter that accepts every element returns its input unchanged |
| Store.FilterIdempotent | Task2_github_link/codtech-library-api/src/pages/Index.tsx:47 | filtering twice with one predicate equals filtering once |
| Store.FilterAgreeing | Task2_github_link/codtech-library-api/src/components/books/BooksList.tsx:23-28 | predicates that agree on every element give the same filter result |
| Store.FilterMultiset | Task2_github_link/codtech-library-api/src/pages/Index.tsx:47 | a filter keeps every occurrence of an accepted element and no occurrence of a rejected one |
| Store.CountId | Task2_github_link/codtech-library-api/src/pages/Index.tsx:47 | the count of records with an id is at most the length and is zero exactly when no record has that id |
| Store.UniqueCountAtMostOne | Task2_github_link/codtech-library-api/src/pages/Index.tsx:46-47 | with unique ids, an id occurs at most once |
| Store.AppendFreshKeepsUnique | Task2_github_link/codtech-library-api/src/pages/Index.tsx:34-39 | appending a record whose id is not present keeps the ids unique |
| Store.Delete | Task2_github_link/codtech-library-api/src/pages/Index.tsx:46-47 | the result holds exactly the records whose id differs from the deleted one, and no record with that id |
| Store.DeleteKeepsOrder | Task2_github_link/codtech-library-api/src/pages/Index.tsx:47 | the records left after a delete keep their original relative order |
| Store.DeleteMultiset | Task2_github_link/codtech-library-api/src/pages/Index.tsx:47 | delete keeps every occurrence of every record whose id differs and none of those carrying the id |
| Store.DeleteLength | Task2_github_link/codtech-library-api/src/pages/Index.tsx:47 | delete shortens the collection by exactly the number of records carrying the id |
| Store.DeleteUniqueLength | Task2_github_link/codtech-library-api/src/pages/Index.tsx:46-47 | with unique ids, delete removes exactly one record when the id is present and none when absent |
| Store.DeleteAbsent | Task2_github_link/codtech-library-api/src/pages/Index.tsx:47 | deleting an absent id leaves the collection unchanged |
| Store.DeleteIdempotent | Task2_github_link/codtech-library-api/src/pages/Index.tsx:47 | deleting the same id twice gives the same collection as deleting it once |
| Store.DeleteKeepsUnique | Task2_github_link/codtech-library-api/src/pages/Index.tsx:47 | delete keeps the ids unique |
| Store.Update | Task2_github_link/codtech-library-api/src/pages/Index.tsx:54-55 | update keeps the length; each position holds the updated record if its id matches, otherwise its old record |
| Store.UpdateKeepsIds | Task2_github_link/codtech-library-api/src/pages/Index.tsx:55 | update never changes which id is at which position |
| Store.UpdateAbsent | Task2_github_link/codtech-library-api/src/pages/Index.tsx:55 | updating with an absent id leaves the collection unchanged |
| Store.UpdateReplacesOne | Task2_github_link/codtech-library-api/src/pages/Index.tsx:54-55 | with unique ids, update replaces exactly the record at the matching position and keeps every other position |
| Store.UpdateIdempotent | Task2_github_link/codtech-library-api/src/pages/Index.tsx:55 | updating twice with the same record equals updating once |
| Store.UpdateKeepsUnique | Task2_github_link/codtech-library-api/src/pages/Index.tsx:55 | update keeps the ids unique |
| Text.Lower | Task2_github_link/codtech-library-api/src/components/books/BooksList.tsx:24-26 | lower-casing maps 'A'..'Z' to 'a'..'z' and leaves every other character as it is |
| Text.LowerStr | Task2_github_link/codtech-library-api/src/components/books/BooksList.tsx:24-26 | lower-casing a string keeps its length and lower-cases every character |
| Text.LowerStrHasNoUpper | Task2_github_link/codtech-library-api/src/components/books/BooksList.tsx:24-26 | a lower-cased string holds no upper-case letter |
| Text.LowerStrIdempotent | Task2_github_link/codtech-library-api/src/components/books/BooksList.tsx:24-26 | lower-casing twice equals lower-casing once |
| Text.Contains | Task2_github_link/codtech-library-api/src/components/books/BooksList.tsx:24-27 | `includes`: an occurrence needs the term to be no longer than the text, and a prefix always occurs |
| Text.ContainsEmpty | Task2_github_link/codtech-library-api/src/components/books/BooksList.tsx:23-28 | every string includes the empty string |
| Text.OccursAtLowered | Task2_github_link/codtech-library-api/src/components/books/BooksList.tsx:24-26 | an occurrence of a term survives lower-casing both the text and the term |
| Text.NotContainsForeignChar | Task2_github_link/codtech-library-api/src/components/books/BooksList.tsx:27 | a term whose first character is absent from a text does not occur in it |
| Library.SeedBooks | Task2_github_link/codtech-library-api/src/pages/Index.tsx:16-20 | the page starts with three books with ids "1", "2", "3", pairwise distinct |
| Library.SeedAuthors | Task2_github_link/codtech-library-api/src/pages/Index.tsx:22-26 | the page starts with three authors with ids "1", "2", "3", pairwise distinct |
| Library.SeedCategories | Task2_github_link/codtech-library-api/src/pages/Index.tsx:28-32 | the page starts with three categories with ids "1", "2", "3", pairwise distinct |
| Library.Library.constructor | Task2_github_link/codtech-library-api/src/pages/Index.tsx:16-32 | the page starts with the three seeded collections, ids unique |
| Library.Library.AddBook | Task2_github_link/codtech-library-api/src/pages/Index.tsx:34-44 | the books become the old books plus the draft with the new id appended last; nothing else changes; ids stay unique when the new id is fresh |
| Library.Library.DeleteBook | Task2_github_link/codtech-library-api/src/pages/Index.tsx:46-52 | the books become the old books without those carrying the id; nothing else changes; ids stay unique |
| Library.Library.UpdateBook | Task2_github_link/codtech-library-api/src/pages/Index.tsx:54-60 | the books become the old books with the matching record replaced in place; nothing else changes; ids stay unique |
| Library.Library.AddAuthor | Task2_github_link/codtech-library-api/src/pages/Index.tsx:62-72 | the authors become the old authors plus the draft with the new id appended last; nothing else changes; ids stay unique when the new id is fresh |
| Library.Library.DeleteAuthor | Task2_github_link/codtech-library-api/src/pages/Index.tsx:74-80 | the authors become the old authors without those carrying the id; books are not touched; ids stay unique |
| Library.Library.UpdateAuthor | Task2_github_link/codtech-library-api/src/pages/Index.tsx:82-88 | the authors become the old authors with the matching record replaced in place; nothing else changes; ids stay unique |
| Library.Library.AddCategory | Task2_github_link/codtech-library-api/src/pages/Index.tsx:90-100 | the categories become the old categories plus the draft with the new id appended last; nothing else changes; ids stay unique when the new id is fresh |
| Library.Library.DeleteCategory | Task2_github_link/codtech-library-api/src/pages/Index.tsx:102-108 | the categories become the old categories without those carrying the id; books are not touched; ids stay unique |
| Library.Library.UpdateCategory | Task2_github_link/codtech-library-api/src/pages/Index.tsx:110-116 | the categories become the old categories with the matching record replaced in place; nothing else changes; ids stay unique |
| Library.SeededAddThenDelete | Task2_github_link/codtech-library-api/src/pages/Index.tsx:16-47 | from the seeded books, adding under a fresh id gives four books with unique ids, the new one last; deleting "2" then leaves three, none with id "2" |
| BooksList.BookMatches | Task2_github_link/codtech-library-api/src/components/books/BooksList.tsx:24-27 | the filter callback: an empty term matches every book, and so does a term equal to the title up to case |
| BooksList.FilteredBooks | Task2_github_link/codtech-library-api/src/components/books/BooksList.tsx:23-28 | a book is shown if and only if it is in the list and the term occurs in its lower-cased title, author or category or verbatim in its ISBN; the shown books keep list order |
| BooksList.FilteredBooksMultiset | Task2_github_link/codtech-library-api/src/components/books/BooksList.tsx:23-28 | the search keeps every occurrence of a matching book and none of a non-matching one |
| BooksList.FilteredBooksEmptyTerm | Task2_github_link/codtech-library-api/src/components/books/BooksList.tsx:23-28 | an empty term shows the whole list unchanged |
| BooksList.FilteredBooksIgnoreCase | Task2_github_link/codtech-library-api/src/components/books/BooksList.tsx:24-27 | terms that lower-case alike show the same books, provided the ISBNs do not tell them apart |
| BooksList.BookFoundByCategory | Task2_github_link/codtech-library-api/src/components/books/BooksList.tsx:26 | searching for a book's category in any case shows that book |
| BooksList.GatsbyMatchesUpperCase | Task2_github_link/codtech-library-api/src/components/books/BooksList.tsx:24 | "The Great Gatsby" matches the term "GATSBY" |
| BooksList.SeedIsbnsLackGatsby | Task2_github_link/codtech-library-api/src/components/books/BooksList.tsx:27 | no seeded ISBN contains "GATSBY" or "gatsby" |
| BooksList.GatsbyEitherCase | Task2_github_link/codtech-library-api/src/components/books/BooksList.tsx:24-27 | "GATSBY" and "gatsby" show the same seeded books |
| BooksList.GatsbyFound | Task2_github_link/codtech-library-api/src/components/books/BooksList.tsx:23-28 | both "GATSBY" and "gatsby" show "The Great Gatsby" |
| BooksList.ApplyEdit | Task2_github_link/codtech-library-api/src/components/books/BooksList.tsx:124-174 | one dialog edit keeps the id, sets the edited field to the new value and changes no other field |
| BooksList.ApplyEdits | Task2_github_link/codtech-library-api/src/components/books/BooksList.tsx:124-174 | a sequence of dialog edits keeps the id and changes only the fields it edits |
| BooksList.EditedBookReplacesItsOrigin | Task2_github_link/codtech-library-api/src/components/books/BooksList.tsx:30-35 | submitting an edited book replaces exactly the record it was opened from and no other |
| BooksList.SubmitEdit | Task2_github_link/codtech-library-api/src/components/books/BooksList.tsx:30-35 | submit updates the books with the edited book when one is being edited, and changes nothing otherwise |
| CategoriesList.CategoryMatches | Task2_github_link/codtech-library-api/src/components/categories/CategoriesList.tsx:24 | the filter callback: an empty term matches every category, and so does a term equal to the name up to case |
| CategoriesList.FilteredCategories | Task2_github_link/codtech-library-api/src/components/categories/CategoriesList.tsx:23-25 | a category is shown if and only if it is in the list and its lower-cased name contains the lower-cased term; the shown categories keep list order |
| CategoriesList.FilteredCategoriesMultiset | Task2_github_link/codtech-library-api/src/components/categories/CategoriesList.tsx:23-25 | the search keeps every occurrence of a matching category and none of a non-matching one |
| CategoriesList.FilteredCategoriesEmptyTerm | Task2_github_link/codtech-library-api/src/components/categories/CategoriesList.tsx:23-25 | an empty term shows every category unchanged |
| CategoriesList.FilteredCategoriesIgnoreCase | Task2_github_link/codtech-library-api/src/components/categories/CategoriesList.tsx:23-25 | terms that lower-case alike show the same categories |
| CategoriesList.MatchIgnoresDescription | Task2_github_link/codtech-library-api/src/components/categories/CategoriesList.tsx:23-25 | changing a category's description never changes whether it matches |
| CategoriesList.CategoryFoundByName | Task2_github_link/codtech-library-api/src/components/categories/CategoriesList.tsx:24 | searching for a category's own name in any case shows it |
| CategoriesList.CategoryFoundBySubstring | Task2_github_link/codtech-library-api/src/components/categories/CategoriesList.tsx:24 | a category whose name contains some spelling of the term is shown |
| CategoriesList.FictionFindsFiction | Task2_github_link/codtech-library-api/src/components/categories/CategoriesList.tsx:23-25 | "FICTION" shows the seeded "Fiction" category |
| CategoriesList.FictionFindsNonFiction | Task2_github_link/codtech-library-api/src/components/categories/CategoriesList.tsx:23-25 | "FICTION" also shows the seeded "Non-fiction" category |
| CategoriesList.ApplyEdit | Task2_github_link/codtech-library-api/src/components/categories/CategoriesList.tsx:104-114 | one dialog edit keeps the id, sets the edited field and leaves the other unchanged |
| CategoriesList.ApplyEdits | Task2_github_link/codtech-library-api/src/components/categories/CategoriesList.tsx:104-114 | a sequence of dialog edits keeps the id and changes only the fields it edits |
| CategoriesList.EditedCategoryReplacesItsOrigin | Task2_github_link/codtech-library-api/src/components/categories/CategoriesList.tsx:27-33 | submitting an edited category replaces exactly the record it was opened from and no other |
| CategoriesList.SubmitEdit | Task2_github_link/codtech-library-api/src/components/categories/CategoriesList.tsx:27-33 | submit updates the categories with the edited category when one is being edited, and changes nothing otherwise |

## Left out

- Id generation from the clock (`Date.now().toString()`): the add methods take the id as a parameter; uniqueness is kept only when that id is fresh, which the code never checks.
- Text.Lower: models `toLowerCase` on ASCII letters only, not the full Unicode case mapping.
- BooksList.ApplyEdit: the year edit takes an integer; the `parseInt` of the text field (which may yield NaN) is not modelled.
- Toast notifications, dialog open/close flags, the search-term and editing-record state cells, tab navigation and all rendering: presentation only.
- The add forms (AddBookForm, AddAuthorForm, AddCategoryForm): input buffering that forwards a draft to the add handler; the draft types `Records.BookDraft`, `Records.AuthorDraft`, `Records.CategoryDraft` stand for what they hand over.
- The author list's search and edit dialog: AuthorsList.tsx is not part of this model; the author collection's add, delete and update are.
- The static endpoint documentation page: fixed text with no logic.
