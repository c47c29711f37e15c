/** The records exchanged by the backend (app/schemas.py) and the columns of
    its two tables (app/models.py). A row of the `notes` table and the `Note`
    response record have the same fields, so one datatype stands for both;
    likewise for categories. */
module Schemas {
  import opened Wrappers

  /** A point in time, in seconds; the clock is a parameter of the model. */
  type Timestamp = int

  /** Default of `NoteBase.category` and of the `notes.category` column. */
  const DEFAULT_CATEGORY: string := "general"

  /** Default of `CategoryBase.color` and of the `categories.color` column. */
  const DEFAULT_COLOR: string := "#6366f1"

  /** The editable fields of a note. */
  datatype NoteBase = NoteBase(
    title: string,
    content: string,
    summary: Option<string>,
    category: string,
    tags: Option<string>,   // comma-separated
    isFavorite: bool,
    isPublic: bool)

  /** The request body of note creation and update adds nothing to the base,
      so an update always carries a favourite and a public flag. */
  type NoteCreate = NoteBase

  /** A stored note: the base fields plus the primary key, the insertion time
      and the time of the last update (`None` until the row is first updated). */
  datatype Note = Note(id: int, base: NoteBase, createdAt: Timestamp, updatedAt: Option<Timestamp>)

  datatype NoteList = NoteList(notes: seq<Note>, total: int)

  /** The editable fields of a category. */
  datatype CategoryBase = CategoryBase(name: string, description: Option<string>, color: string)

  type CategoryCreate = CategoryBase

  datatype Category = Category(id: int, base: CategoryBase, createdAt: Timestamp)

  datatype CategoryList = CategoryList(categories: seq<Category>, total: int)

  datatype SearchResult = SearchResult(notes: seq<Note>, total: int, query: string)

  datatype Stats = Stats(totalNotes: int, totalCategories: int, favoriteNotes: int, recentNotes: int)

  /** A `NoteCreate` given only its two required fields: every other field
      takes its declared default, which is also the column default. */
  function NoteCreateOf(title: string, content: string): (r: NoteCreate)
    ensures r.title == title && r.content == content
    ensures r.summary == None && r.tags == None
    ensures r.category == DEFAULT_CATEGORY
    ensures !r.isFavorite && !r.isPublic
  {
    NoteBase(title, content, None, DEFAULT_CATEGORY, None, false, false)
  }

  /** A `CategoryCreate` given only its name. */
  function CategoryCreateOf(name: string): (r: CategoryCreate)
    ensures r.name == name && r.description == None && r.color == DEFAULT_COLOR
  {
    CategoryBase(name, None, DEFAULT_COLOR)
  }
}
