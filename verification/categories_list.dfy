/** The category list (src/components/categories/CategoriesList.tsx): the
    search filter over the category names, the edit dialog's changes to the
    category being edited, and the submit guard that hands it to the page's
    update handler. */
module CategoriesList {
  import opened Records
  import opened Store
  import opened Text
  import opened Library

  // ---------------------------------------------------------------------
  // Search
  // ---------------------------------------------------------------------

  /** A category matches when its name contains the term, ignoring case. */
  function CategoryMatches(c: Category, term: string): (m: bool)
    ensures term == "" ==> m
    ensures LowerStr(term) == LowerStr(c.name) ==> m
  {
    ContainsEmpty(LowerStr(c.name));
    assert OccursAt(LowerStr(c.name), LowerStr(c.name), 0);
    Contains(LowerStr(c.name), LowerStr(term))
  }

  function CategoryMatcher(term: string): Category -> bool {
    c => CategoryMatches(c, term)
  }

  /** `filteredCategories`: the matching categories, in list order. */
  function FilteredCategories(categories: seq<Category>, term: string): (r: seq<Category>)
    ensures forall c :: c in r <==> c in categories && CategoryMatches(c, term)
    ensures IsSubsequence(r, categories)
  {
    FilterIsSubsequence(categories, CategoryMatcher(term));
    Filter(categories, CategoryMatcher(term))
  }

  /** The search keeps every occurrence of a matching category and none of a
      category that does not match. */
  lemma FilteredCategoriesMultiset(categories: seq<Category>, term: string)
    ensures forall c :: multiset(FilteredCategories(categories, term))[c]
                        == (if CategoryMatches(c, term) then multiset(categories)[c] else 0)
  {
    FilterMultiset(categories, CategoryMatcher(term));
  }

  /** An empty search term shows every category, in order. */
  lemma FilteredCategoriesEmptyTerm(categories: seq<Category>)
    ensures FilteredCategories(categories, "") == categories
  {
    forall c | c in categories ensures CategoryMatcher("")(c) {
      ContainsEmpty(LowerStr(c.name));
    }
    FilterKeepsAll(categories, CategoryMatcher(""));
  }

  /** Two terms that lower-case alike select the same categories. */
  lemma FilteredCategoriesIgnoreCase(categories: seq<Category>, t1: string, t2: string)
    requires LowerStr(t1) == LowerStr(t2)
    ensures FilteredCategories(categories, t1) == FilteredCategories(categories, t2)
  {
    FilterAgreeing(categories, CategoryMatcher(t1), CategoryMatcher(t2));
  }

  /** The description takes no part in the match. */
  lemma MatchIgnoresDescription(c: Category, d: string, term: string)
    ensures CategoryMatches(c.(description := d), term) == CategoryMatches(c, term)
  {
  }

  /** Searching for a category's own name, in any case, finds it. */
  lemma CategoryFoundByName(categories: seq<Category>, c: Category, term: string)
    requires c in categories && LowerStr(term) == LowerStr(c.name)
    ensures c in FilteredCategories(categories, term)
  {
    assert OccursAt(LowerStr(c.name), LowerStr(c.name), 0);
  }

  /** A category whose name contains some spelling of the term is found. */
  lemma CategoryFoundBySubstring(categories: seq<Category>, c: Category, term: string, u: string, i: nat)
    requires c in categories && OccursAt(c.name, u, i) && LowerStr(u) == LowerStr(term)
    ensures c in FilteredCategories(categories, term)
  {
    OccursAtLowered(c.name, u, i);
  }

  /** "FICTION" finds the seeded category "Fiction". */
  lemma FictionFindsFiction()
    ensures SeedCategories()[0] in FilteredCategories(SeedCategories(), "FICTION")
  {
    var cs := SeedCategories();
    assert cs[0] in cs;
    assert LowerStr("FICTION") == LowerStr("Fiction");
    assert OccursAt(cs[0].name, "Fiction", 0);
    CategoryFoundBySubstring(cs, cs[0], "FICTION", "Fiction", 0);
  }

  /** "FICTION" also finds the seeded category "Non-fiction". */
  lemma FictionFindsNonFiction()
    ensures SeedCategories()[1] in FilteredCategories(SeedCategories(), "FICTION")
  {
    var cs := SeedCategories();
    assert cs[1] in cs;
    assert LowerStr("FICTION") == LowerStr("fiction");
    assert OccursAt(cs[1].name, "fiction", 4);
    CategoryFoundBySubstring(cs, cs[1], "FICTION", "fiction", 4);
  }

  // ---------------------------------------------------------------------
  // Editing
  // ---------------------------------------------------------------------

  // The category dialog mirrors the book dialog of BooksList (ChangedFields,
  // EditedFields, ApplyEdit, ApplyEdits) over the two category fields.

  /** The fields the edit dialog can change. */
  datatype CategoryField = NameField | DescriptionField

  /** One `onChange` of the edit dialog: `{...editingCategory, field: value}`. */
  datatype CategoryEdit =
    | EditName(name: string)
    | EditDescription(description: string)
  {
    function Field(): CategoryField {
      match this
      case EditName(_) => NameField
      case EditDescription(_) => DescriptionField
    }
  }

  /** The editable fields on which two categories differ. */
  function ChangedFields(a: Category, b: Category): set<CategoryField> {
    (if a.name != b.name then {NameField} else {})
    + (if a.description != b.description then {DescriptionField} else {})
  }

  /** Applying one edit: the id and the other field are kept, and the edited
      field holds the new value. */
  function ApplyEdit(c: Category, e: CategoryEdit): (r: Category)
    ensures r.id == c.id
    ensures ChangedFields(c, r) <= {e.Field()}
    ensures match e
      case EditName(v) => r.name == v
      case EditDescription(v) => r.description == v
  {
    match e
    case EditName(v) => c.(name := v)
    case EditDescription(v) => c.(description := v)
  }

  /** The fields a sequence of edits touches. */
  function EditedFields(es: seq<CategoryEdit>): set<CategoryField> {
    set e | e in es :: e.Field()
  }

  /** A whole editing session: the dialog's edits applied in order. */
  function ApplyEdits(c: Category, es: seq<CategoryEdit>): (r: Category)
    ensures r.id == c.id
    ensures ChangedFields(c, r) <= EditedFields(es)
    decreases es
  {
    if es == [] then c
    else
      var r := ApplyEdits(ApplyEdit(c, es[0]), es[1..]);
      assert EditedFields(es) == {es[0].Field()} + EditedFields(es[1..]) by {
        assert forall e :: e in es <==> e == es[0] || e in es[1..];
      }
      r
  }

  /** An editing session keeps the id, so submitting it replaces exactly the
      category that was opened for editing and no other. */
  lemma EditedCategoryReplacesItsOrigin(categories: seq<Category>, k: nat, es: seq<CategoryEdit>)
    requires IdsUnique(categories, CategoryId) && k < |categories|
    ensures var r := Update(categories, CategoryId, ApplyEdits(categories[k], es));
      && |r| == |categories|
      && r[k] == ApplyEdits(categories[k], es)
      && forall j :: 0 <= j < |categories| && j != k ==> r[j] == categories[j]
  {
  }

  // ---------------------------------------------------------------------
  // Submit
  // ---------------------------------------------------------------------

  /** `handleSubmit`: calls the update handler with the category being edited,
      if there is one; otherwise does nothing. */
  method SubmitEdit(library: Library, editing: Option<Category>)
    modifies library
    ensures editing.None? ==> library.categories == old(library.categories)
    ensures editing.Some? ==> library.categories == Update(old(library.categories), CategoryId, editing.value)
    ensures library.books == old(library.books) && library.authors == old(library.authors)
    ensures old(library.Valid()) ==> library.Valid()
  {
    if editing.Some? {
      library.UpdateCategory(editing.value);
    }
  }
}
