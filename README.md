# Knowledge Base backend, modelled in Dafny

The Knowledge Base is a notes application: a FastAPI server keeps notes and
categories in two SQLite tables through SQLAlchemy and exposes them as JSON
endpoints (create, list, read, update, delete, favourite toggle, search and
dashboard statistics); it also derives a summary from a note's content and
converts tag strings to tag lists. This project models that backend.

- `Schemas.dfy` — the records of `app/schemas.py` and the columns of
  `app/models.py`, with their defaults.
- `Strings.dfy` — the Python string operations the backend relies on
  (`strip`, `split(',')`, `split()`, `lower`, `', '.join`), over Python's
  whitespace set.
- `Sequences.dfy` — filtering, `OFFSET`/`LIMIT` windowing and the scan of a
  table in primary-key order.
- `TextUtils.dfy` — `parse_tags`, `format_tags` and `generate_summary`.
- `Queries.dfy` — the read queries of `app/crud.py`: the category and
  favourite listings ordered by `updated_at` descending, the category
  listing ordered by name, the search predicate and the statistics.
- `Crud.dfy` — the database as a `Store` object holding both tables as maps
  from primary key to row plus the next free key of each, with the write
  operations of `app/crud.py` as methods; each commit is one atomic update.
- `Api.dfy` — the endpoints of `app/main.py`: summary filling, 404 for an
  unknown key, 400 for a taken category name, the blank-search rule and
  `total` as the length of the returned list.

Semantics of the database that the model fixes: the clock is a parameter
(`now`, in seconds); `NULL` sorts lowest, so notes never updated come last
in a descending `updated_at` order; a negative `OFFSET` acts as 0 and a
negative `LIMIT` means no limit; names are ordered by code point; `ILIKE`
compares after ASCII lower-casing of both sides; an `UPDATE` is issued, and
`updated_at` stamped, only when the request changes some column of the row.

## Model

| member | source | states |
|---|---|---|
| Schemas.NoteCreateOf | app/schemas.py:5-12 | a note request given only title and content has no summary, no tags, category "general" and both flags false |
| Schemas.CategoryCreateOf | app/schemas.py:29-32 | a category request given only a name has no description and colour "#6366f1" |
| Strings.Strip | app/crud.py:128 | the result has no leading or trailing whitespace, is the input when the input is already stripped, and is empty exactly when the input is all whitespace |
| Strings.StripPadded | app/crud.py:128 | the input is the stripped result with whitespace only added in front of it and after it |
| Strings.Split | app/crud.py:98 | the pieces hold no separator, there is at least one, and joining them with the separator gives back the input |
| Strings.SplitJoin | app/crud.py:98 | pieces without the separator, joined with it, split back into the same pieces |
| Strings.Words | app/crud.py:80 | every word is non-empty and whitespace-free, and there are none exactly when the input is all whitespace |
| Strings.WordsRebuild | app/crud.py:80 | the words are the maximal runs of non-whitespace, in order: put back between whitespace-only gaps, the inner gaps non-empty, they rebuild the input |
| Strings.Lower | app/crud.py:80 | every ASCII capital becomes its lower-case letter, every other character is kept, and no capital remains |
| Strings.LowerIdempotent | app/crud.py:80 | lower-casing twice is lower-casing once |
| TextUtils.CleanTags | app/crud.py:128 | pieces without commas give only stripped, non-empty, comma-free tags |
| TextUtils.CleanTagsPicks | app/crud.py:128 | the tags are exactly the pieces that do not strip to nothing, stripped, at increasing positions, none left out |
| TextUtils.ParseTags | app/crud.py:124-128 | a missing or empty string gives no tags; every tag returned is stripped, non-empty and comma-free |
| TextUtils.ParseTagsPicks | app/crud.py:124-128 | the tags of a string are its comma-separated pieces, stripped, with the blank ones left out and their order kept |
| TextUtils.FormatTagsPieces | app/crud.py:130-132 | splitting formatted comma-free tags at the commas gives the first tag and then each further tag behind one blank |
| TextUtils.ParseFormatRoundTrip | app/crud.py:124-132 | parsing the formatted list gives back every list of stripped, non-empty, comma-free tags |
| TextUtils.ParseFormatParse | app/crud.py:124-132 | parse after format after parse equals parse |
| TextUtils.RFind | app/crud.py:141-143 | the index found holds the character and no later index does; -1 when absent |
| TextUtils.LastSentenceEnd | app/crud.py:141-145 | the last index holding '.', '!' or '?', or -1 |
| TextUtils.GenerateSummary | app/crud.py:134-150 | short content is returned whole; long content gives either a prefix of at most max_length characters ending at the last sentence end beyond 70% of max_length, or the first max_length characters and "..."; never longer than max_length+3; non-empty for non-empty content |
| TextUtils.CutsExclusive | app/crud.py:147-150 | the sentence cut and the ellipsis cut of one content exclude each other |
| TextUtils.SentenceCutUnique | app/crud.py:147-148 | there is at most one sentence cut of a content |
| TextUtils.SummaryDeterminedByCuts | app/crud.py:134-150 | any summary meeting one of the two cuts is the one generate_summary returns |
| Sequences.Window | app/crud.py:19 | at most limit elements, the i-th being the element at the offset plus i, with a negative offset read as 0; fewer than limit, or a negative limit, only when the listing runs out |
| Sequences.ScanFilterCount | app/crud.py:109-114 | the count of scanned rows meeting a condition is the number of keys whose rows meet it |
| Queries.SortByUpdatedDesc | app/crud.py:19 | the result is a permutation of its input ordered by updated_at descending, never-updated notes last |
| Queries.WindowKeepsOrder | app/crud.py:19 | offset and limit keep a descending order |
| Queries.GetNotes | app/crud.py:15-19 | at most limit notes, ordered by updated_at descending, all stored and of the category unless it is missing, empty or "all"; with no offset and no binding limit every such note is returned |
| Queries.GetNotesIsPage | app/crud.py:15-19 | the answer is the page [skip, skip+limit) of the notes of the category, taken in an order newest update first |
| Queries.GetFavoriteNotes | app/crud.py:24-25 | at most limit notes, ordered by updated_at descending, all favourites; with no offset and no binding limit every favourite is returned |
| Queries.GetFavoriteNotesIsPage | app/crud.py:24-25 | the answer is the page [skip, skip+limit) of the favourite notes, taken in an order newest update first |
| Queries.SortByName | app/crud.py:60 | the result is a permutation of its input ordered by name |
| Queries.GetCategories | app/crud.py:59-60 | every category once, ordered by name |
| Queries.SearchSpec | app/crud.py:79-103 | a note is returned exactly when each lower-cased term is a case-insensitive substring of its title, content, summary or tags, its category matches unless the filter is empty or "all", and, when tags are given, some stripped comma piece occurs in its tags; ordered by updated_at descending, each note as often as it is stored |
| Queries.TermConditionsOf | app/crud.py:83-89 | one condition per term, in term order |
| Queries.TagPatternsOf | app/crud.py:97-99 | one pattern per comma piece, the piece stripped |
| Queries.AssembledConditions | app/crud.py:83-100 | the conjunction of the term conditions, the category condition and the tag alternatives holds exactly when the search predicate does |
| Queries.SearchByConditions | app/crud.py:91-102 | filtering by the assembled conditions and sorting gives the specified search result |
| Queries.SearchNotes | app/crud.py:79-103 | the query built condition by condition returns exactly the specified search result |
| Queries.BlankQueryMatchesAll | app/crud.py:80-91 | a query with no terms keeps every note that passes the category and tag filters |
| Queries.EmptyTagPieceMatchesAnyTagged | app/crud.py:96-100 | a tag filter with a piece that strips to nothing accepts every note that has tags |
| Queries.GetStats | app/crud.py:106-121 | counts of notes and categories; the favourite and recent counts lie between zero and the note count; the favourite count is zero exactly when no note is a favourite |
| Queries.StatsAgreeWithListings | app/crud.py:106-121 | the favourite count is the length of the unwindowed favourites listing and the note count that of the unwindowed note listing |
| Crud.UpdateTakesAllFields | app/crud.py:27-34 | an update keeps id and created_at, takes every field from the request, so a request with the defaults clears both flags, and stamps updated_at unless nothing changed |
| Crud.ToggleTwiceRestores | app/crud.py:43-49 | a toggle flips the favourite flag and no other field; a second toggle restores the fields |
| Crud.Store.constructor | app/models.py:6-27 | the two tables start empty and satisfy the key and unique-name invariants |
| Crud.Store.RowsCoverTables | app/models.py:9-23 | the key-ordered scans visit every row exactly once, each under its own key |
| Crud.Store.NoteRowsUnique | app/models.py:9-10 | the key-ordered scan of the notes visits no row twice |
| Crud.Store.GetNoteById | app/crud.py:21-22 | the stored note of that key, or None when there is none |
| Crud.Store.CreateNote | app/crud.py:8-13 | exactly one new row under a key absent from the table, with created_at now and updated_at null; categories unchanged |
| Crud.Store.UpdateNote | app/crud.py:27-34 | the addressed row is replaced by the updated note and no other row changes; an unknown key gives None and no change |
| Crud.Store.DeleteNote | app/crud.py:36-41 | exactly the addressed row is removed and returned; an unknown key gives None and no change |
| Crud.Store.ToggleFavorite | app/crud.py:43-49 | exactly the addressed row is toggled; an unknown key gives None and no change |
| Crud.Store.CreateCategory | app/crud.py:52-57 | exactly one new category under a fresh key; names stay unique; notes unchanged |
| Crud.Store.UpdateCategory | app/crud.py:62-69 | the addressed category takes every field of the request; an unknown key gives None and no change |
| Crud.Store.DeleteCategory | app/crud.py:71-76 | exactly the addressed category is removed; notes keep their category names; an unknown key gives None and no change |
| Api.FillSummary | app/main.py:36-37 | a missing or empty summary of a note with content becomes its generated summary, which is then non-empty; any other request is unchanged, and no other field changes |
| Api.FillSummaryIdempotent | app/main.py:69-70 | filling a filled request changes nothing |
| Api.GetStats | app/main.py:26-29 | the note and category counts are the table sizes; the favourite count is the number of keys holding a favourite and the recent count the number of keys holding a note created at most seven days before now |
| Api.CreateNote | app/main.py:32-39 | the stored note is the request with its summary filled, under a fresh key |
| Api.GetNotes | app/main.py:41-50 | the notes are the page [skip, skip+limit) of an arrangement of all stored notes of the category, each once, newest update first; total is the length of the page |
| Api.DefaultListingSize | app/main.py:41-50 | with the default parameters the listing holds the first 100 notes, or all of them when there are fewer |
| Api.GetFavoriteNotes | app/main.py:52-56 | the notes are the page [skip, skip+limit) of an arrangement of all stored favourite notes, each once, newest update first; total is the length of the page |
| Api.GetNote | app/main.py:58-64 | the stored note, or 404 "Note not found" exactly when the key is unknown |
| Api.UpdateNote | app/main.py:66-75 | the note is overwritten by the request with its summary filled; 404 "Note not found" and no change for an unknown key |
| Api.DeleteNote | app/main.py:77-83 | the note is removed and "Note deleted successfully" returned; 404 and no change for an unknown key |
| Api.ToggleFavorite | app/main.py:85-91 | the reported is_favorite is the flag after the flip; 404 and no change for an unknown key |
| Api.CreateCategory | app/main.py:94-102 | 400 "Category name already exists" and no change for a taken name; otherwise one new category under a fresh key |
| Api.GetCategories | app/main.py:104-108 | total is the number of categories; each stored category appears, ordered by name |
| Api.UpdateCategory | app/main.py:110-116 | the category takes the request's fields; 404 "Category not found" and no change for an unknown key |
| Api.DeleteCategory | app/main.py:118-124 | the category is removed and "Category deleted successfully" returned; 404 and no change for an unknown key |
| Api.SearchNotes | app/main.py:127-139 | a query that strips to nothing gives no notes, total 0 and the query echoed; otherwise exactly the stored notes meeting the search predicate, each once, ordered by updated_at descending, with total their count |

## Left out

- The browser client `static/js/app.js`: DOM updates, `fetch` calls and toasts, with no backend logic.
- `app/database.py`: engine, session and directory set-up; every commit is an atomic update of the store.
- `read_root`, the Jinja templates and the static-file mount of `app/main.py`: they serve files only.
- FastAPI routing, pydantic validation and JSON serialisation: requests arrive as typed values.
- The query-parameter defaults of `get_notes`, `get_favorite_notes` and `search_notes` (category "all", skip 0, limit 100) are the constants `ALL_CATEGORIES`, `DEFAULT_SKIP` and `DEFAULT_LIMIT` of `Api`; the endpoints take every parameter explicitly, because filling in a missing query parameter is FastAPI's request parsing.
- Crud.Store.CreateCategory: requires the name to be free instead of modelling the IntegrityError that the UNIQUE constraint raises, because the endpoint checks the name first.
- Crud.Store.UpdateCategory: requires, when the key exists, that the new name not belong to another category, instead of modelling the IntegrityError (an HTTP 500) of a duplicate rename; an unknown key is accepted with any name and gives None.
- Api.UpdateCategory: has the same requirement for an existing key, since the endpoint performs no name check of its own; an unknown key gives 404 whatever the name.
- Crud.Store.CreateNote: claims only that the new key is fresh, not SQLite's choice of the largest key plus one, so keys of deleted rows are never reused in the model.
- Queries.GetStats: states only bounds for the favourite and seven-day counts over a listing of rows; their exact values, as numbers of keys, are stated at Api.GetStats. The clock is the parameter `now` and both timestamps are taken as seconds in one time zone, whereas `get_stats` compares a naive local `datetime.now()` with the server's `func.now()`.
- Queries.SearchSpec: lower-cases and compares ASCII letters only, and treats `%` and `_` inside terms as ordinary characters, whereas `ILIKE` gives them their wildcard meaning.
- Queries.SortByUpdatedDesc: notes with equal `updated_at` stay in key order; the queries of app/crud.py leave their order to the database.
- TextUtils.GenerateSummary: takes `max_length` as a natural number and writes the float test against `max_length * 0.7` in integers, which is exact for the default 200 used by the endpoints.
- Api.FillSummary: returns a new request instead of assigning `note.summary` in place, since nothing else holds the request.
- Crud.Store.UpdateNote: replaces the row's editable fields at once instead of the `setattr` loop, which writes every field of the request in turn to the same effect.
