/** The JSON endpoints of app/main.py over a `Store`. An endpoint either
    answers with a body or raises an HTTP error with a status and a detail
    message. */
module Api {
  import opened Wrappers
  import opened Strings
  import opened Schemas
  import opened TextUtils
  import opened Crud
  import Q = Queries

  datatype Response<T> = Ok(body: T) | Error(status: int, detail: string)

  /** The `{"message": ...}` body of the delete endpoints. */
  datatype Message = Message(message: string)

  /** The body of the favourite toggle. */
  datatype FavoriteStatus = FavoriteStatus(message: string, isFavorite: bool)

  const NOT_FOUND: int := 404
  const BAD_REQUEST: int := 400
  const NOTE_NOT_FOUND: string := "Note not found"
  const CATEGORY_NOT_FOUND: string := "Category not found"
  const CATEGORY_EXISTS: string := "Category name already exists"
  const NOTE_DELETED: string := "Note deleted successfully"
  const CATEGORY_DELETED: string := "Category deleted successfully"
  const FAVORITE_UPDATED: string := "Favorite status updated"

  /** The defaults of the listing and search parameters. */
  const ALL_CATEGORIES: string := "all"
  const DEFAULT_SKIP: int := 0
  const DEFAULT_LIMIT: int := 100

  /** Python truthiness of an optional string. */
  predicate Blank(s: Option<string>)
  {
    s == None || s == Some([])
  }

  /** The summary rule of note creation and update: a note whose summary is
      missing or empty but whose content is not gets a generated summary;
      every other field, and every other note, is left alone. */
  function FillSummary(note: NoteCreate): (filled: NoteCreate)
    ensures filled.(summary := note.summary) == note
    ensures !Blank(note.summary) || note.content == [] ==> filled == note
    ensures Blank(note.summary) && note.content != [] ==>
      filled.summary == Some(GenerateSummary(note.content, SUMMARY_LENGTH))
    ensures note.content != [] ==> !Blank(filled.summary)
    ensures Blank(filled.summary) ==> note.content == []
  {
    if Blank(note.summary) && note.content != [] then
      note.(summary := Some(GenerateSummary(note.content, SUMMARY_LENGTH)))
    else
      note
  }

  /** Filling is idempotent: a filled note is filled already. */
  lemma FillSummaryIdempotent(note: NoteCreate)
    ensures FillSummary(FillSummary(note)) == FillSummary(note)
  {
  }

  /** `GET /api/stats`: the counts are the numbers of keys of the tables,
      of keys holding a favourite note and of keys holding a note created
      within `RECENT_WINDOW` seconds before `now`. */
  function GetStats(store: Store, now: Timestamp): (stats: Stats)
    reads store
    requires store.Valid()
    ensures stats.totalNotes == |store.notes| && stats.totalCategories == |store.categories|
    ensures 0 <= stats.favoriteNotes <= stats.totalNotes
    ensures 0 <= stats.recentNotes <= stats.totalNotes
    ensures stats.favoriteNotes == 0 <==> forall id :: id in store.notes ==> !store.notes[id].base.isFavorite
    ensures stats.favoriteNotes == |set id | id in store.notes && store.notes[id].base.isFavorite|
    ensures stats.recentNotes == |set id | id in store.notes && store.notes[id].createdAt >= now - Q.RECENT_WINDOW|
  {
    store.RowsCoverTables();
    CountFavorites(store);
    CountRecent(store, now);
    Q.GetStats(store.NoteRows(), store.CategoryRows(), now)
  }

  /** The favourite count of the scan is the number of favourite keys. */
  lemma CountFavorites(store: Store)
    requires store.Valid()
    ensures |Sequences.Filter(store.NoteRows(), Q.FavoriteCondition())| ==
      |set id | id in store.notes && store.notes[id].base.isFavorite|
  {
    Sequences.ScanFilterCount(store.notes, store.nextNoteId, Q.FavoriteCondition());
    assert Sequences.KeysWith(store.notes, store.nextNoteId, Q.FavoriteCondition()) ==
      set id | id in store.notes && store.notes[id].base.isFavorite;
  }

  /** The recent count of the scan is the number of keys of recent notes. */
  lemma CountRecent(store: Store, now: Timestamp)
    requires store.Valid()
    ensures |Sequences.Filter(store.NoteRows(), Q.CreatedSince(now - Q.RECENT_WINDOW))| ==
      |set id | id in store.notes && store.notes[id].createdAt >= now - Q.RECENT_WINDOW|
  {
    Sequences.ScanFilterCount(store.notes, store.nextNoteId, Q.CreatedSince(now - Q.RECENT_WINDOW));
    assert Sequences.KeysWith(store.notes, store.nextNoteId, Q.CreatedSince(now - Q.RECENT_WINDOW)) ==
      set id | id in store.notes && store.notes[id].createdAt >= now - Q.RECENT_WINDOW;
  }

  /** `POST /api/notes`: stores the note, with its summary filled in, under
      a fresh key. */
  method CreateNote(store: Store, note: NoteCreate, now: Timestamp) returns (created: Note)
    requires store.Valid()
    modifies store
    ensures store.Valid()
    ensures created.id !in old(store.notes)
    ensures created == Note(created.id, FillSummary(note), now, None)
    ensures store.notes == old(store.notes)[created.id := created]
    ensures store.categories == old(store.categories)
  {
    created := store.CreateNote(FillSummary(note), now);
  }

  /** The note is the row stored under its key. */
  predicate Stored(store: Store, n: Note)
    reads store
  {
    n.id in store.notes && store.notes[n.id] == n
  }

  /** A listing over the scan of the notes table is a page of the stored
      notes meeting `keep`, every one of them once, newest update first. */
  lemma ListingOfStore(store: Store, keep: Note -> bool, skip: int, limit: int)
    requires store.Valid()
    ensures var L := Q.SortByUpdatedDesc(Sequences.Filter(store.NoteRows(), keep));
      && Q.SortedByUpdatedDesc(L) && Q.DistinctIds(L)
      && (forall n :: n in L <==> Stored(store, n) && keep(n))
      && Q.Listing(store.NoteRows(), keep, skip, limit) == Sequences.Window(L, skip, limit)
      && Q.DistinctIds(Q.Listing(store.NoteRows(), keep, skip, limit))
  {
    var rows := store.NoteRows();
    var L := Q.SortByUpdatedDesc(Sequences.Filter(rows, keep));
    store.RowsCoverTables();
    store.NoteRowsUnique();
    Q.ListingNoDuplicates(rows, keep, skip, limit);
    Q.SortKeepsMembers(Sequences.Filter(rows, keep));
    Q.KeyedDistinct(L, store.notes);
    Q.KeyedDistinct(Q.Listing(rows, keep, skip, limit), store.notes);
    assert Q.Listing(rows, keep, skip, limit) == Sequences.Window(L, skip, limit);
  }

  /** `GET /api/notes`: the page `[skip, skip+limit)` of the stored notes of
      `category` (all notes for "" or "all"), each once, newest update first;
      the total is the length of the page. */
  function GetNotes(store: Store, category: string, skip: int, limit: int): (r: NoteList)
    reads store
    requires store.Valid()
    ensures r.total == |r.notes|
    ensures limit >= 0 ==> r.total <= limit
    ensures Q.SortedByUpdatedDesc(r.notes) && Q.DistinctIds(r.notes)
    ensures forall n :: n in r.notes ==> Stored(store, n) && Q.InCategory(Some(category), n)
    ensures skip <= 0 && (limit < 0 || limit >= |store.notes|) ==>
      forall id :: id in store.notes && Q.InCategory(Some(category), store.notes[id]) ==> store.notes[id] in r.notes
    ensures exists L ::
      && Q.SortedByUpdatedDesc(L) && Q.DistinctIds(L)
      && (forall n :: n in L <==> Stored(store, n) && Q.InCategory(Some(category), n))
      && r.notes == Sequences.Window(L, skip, limit)
  {
    store.RowsCoverTables();
    var keep := Q.CategoryCondition(Some(category));
    ListingOfStore(store, keep, skip, limit);
    var notes := Q.GetNotes(store.NoteRows(), skip, limit, Some(category));
    assert forall n :: keep(n) == Q.InCategory(Some(category), n);
    NoteList(notes, |notes|)
  }

  /** `GET /api/notes` with every parameter left at its default answers
      with the first hundred notes, or all of them when there are fewer. */
  lemma DefaultListingSize(store: Store)
    requires store.Valid()
    ensures GetNotes(store, ALL_CATEGORIES, DEFAULT_SKIP, DEFAULT_LIMIT).total ==
      if |store.notes| < DEFAULT_LIMIT then |store.notes| else DEFAULT_LIMIT
  {
    var rows := store.NoteRows();
    var keep := Q.CategoryCondition(Some(ALL_CATEGORIES));
    store.RowsCoverTables();
    Sequences.FilterAgrees(rows, keep, x => true);
    Q.AllKept(rows);
    var L := Q.SortByUpdatedDesc(Sequences.Filter(rows, keep));
    assert |L| == |store.notes|;
    var page := Sequences.Window(L, DEFAULT_SKIP, DEFAULT_LIMIT);
    assert Q.GetNotes(rows, DEFAULT_SKIP, DEFAULT_LIMIT, Some(ALL_CATEGORIES)) == page;
    assert page != [] ==> Sequences.Offset(DEFAULT_SKIP) + (|page| - 1) < |L|;
  }

  /** `GET /api/notes/favorites`: the page `[skip, skip+limit)` of the stored
      favourite notes, each once, newest update first. */
  function GetFavoriteNotes(store: Store, skip: int, limit: int): (r: NoteList)
    reads store
    requires store.Valid()
    ensures r.total == |r.notes|
    ensures limit >= 0 ==> r.total <= limit
    ensures Q.SortedByUpdatedDesc(r.notes) && Q.DistinctIds(r.notes)
    ensures forall n :: n in r.notes ==> Stored(store, n) && n.base.isFavorite
    ensures skip <= 0 && (limit < 0 || limit >= |store.notes|) ==>
      forall id :: id in store.notes && store.notes[id].base.isFavorite ==> store.notes[id] in r.notes
    ensures exists L ::
      && Q.SortedByUpdatedDesc(L) && Q.DistinctIds(L)
      && (forall n :: n in L <==> Stored(store, n) && n.base.isFavorite)
      && r.notes == Sequences.Window(L, skip, limit)
  {
    store.RowsCoverTables();
    var keep := Q.FavoriteCondition();
    ListingOfStore(store, keep, skip, limit);
    var notes := Q.GetFavoriteNotes(store.NoteRows(), skip, limit);
    assert forall n :: keep(n) == n.base.isFavorite;
    NoteList(notes, |notes|)
  }

  /** `GET /api/notes/{id}`: the stored note, or 404. */
  function GetNote(store: Store, id: int): (r: Response<Note>)
    reads store
    ensures r.Ok? <==> id in store.notes
    ensures r.Ok? ==> r.body == store.notes[id]
    ensures r.Error? ==> r == Error(NOT_FOUND, NOTE_NOT_FOUND)
  {
    match store.GetNoteById(id)
    case Some(n) => Ok(n)
    case None => Error(NOT_FOUND, NOTE_NOT_FOUND)
  }

  /** `PUT /api/notes/{id}`: fills the summary of the request, then
      overwrites the note; 404 and no change for an unknown key. */
  method UpdateNote(store: Store, id: int, note: NoteCreate, now: Timestamp) returns (r: Response<Note>)
    requires store.Valid()
    modifies store
    ensures store.Valid()
    ensures id !in old(store.notes) ==>
      r == Error(NOT_FOUND, NOTE_NOT_FOUND) && store.notes == old(store.notes)
    ensures id in old(store.notes) ==>
      r == Ok(Updated(old(store.notes)[id], FillSummary(note), now)) && store.notes == old(store.notes)[id := r.body]
    ensures store.categories == old(store.categories)
  {
    var updated := store.UpdateNote(id, FillSummary(note), now);
    if updated.None? {
      r := Error(NOT_FOUND, NOTE_NOT_FOUND);
    } else {
      r := Ok(updated.value);
    }
  }

  /** `DELETE /api/notes/{id}`. */
  method DeleteNote(store: Store, id: int) returns (r: Response<Message>)
    requires store.Valid()
    modifies store
    ensures store.Valid()
    ensures id !in old(store.notes) ==>
      r == Error(NOT_FOUND, NOTE_NOT_FOUND) && store.notes == old(store.notes)
    ensures id in old(store.notes) ==>
      r == Ok(Message(NOTE_DELETED)) && store.notes == old(store.notes) - {id}
    ensures store.categories == old(store.categories)
  {
    var deleted := store.DeleteNote(id);
    if deleted.None? {
      r := Error(NOT_FOUND, NOTE_NOT_FOUND);
    } else {
      r := Ok(Message(NOTE_DELETED));
    }
  }

  /** `POST /api/notes/{id}/favorite`: answers with the flag after the flip. */
  method ToggleFavorite(store: Store, id: int, now: Timestamp) returns (r: Response<FavoriteStatus>)
    requires store.Valid()
    modifies store
    ensures store.Valid()
    ensures id !in old(store.notes) ==>
      r == Error(NOT_FOUND, NOTE_NOT_FOUND) && store.notes == old(store.notes)
    ensures id in old(store.notes) ==>
      && r == Ok(FavoriteStatus(FAVORITE_UPDATED, !old(store.notes)[id].base.isFavorite))
      && store.notes == old(store.notes)[id := Toggled(old(store.notes)[id], now)]
    ensures store.categories == old(store.categories)
  {
    var toggled := store.ToggleFavorite(id, now);
    if toggled.None? {
      r := Error(NOT_FOUND, NOTE_NOT_FOUND);
    } else {
      r := Ok(FavoriteStatus(FAVORITE_UPDATED, toggled.value.base.isFavorite));
    }
  }

  /** `POST /api/categories`: 400 and no change when the name is taken,
      otherwise a new row under a fresh key. */
  method CreateCategory(store: Store, category: CategoryCreate, now: Timestamp) returns (r: Response<Category>)
    requires store.Valid()
    modifies store
    ensures store.Valid()
    ensures NameTaken(old(store.categories), category.name) ==>
      r == Error(BAD_REQUEST, CATEGORY_EXISTS) && store.categories == old(store.categories)
    ensures !NameTaken(old(store.categories), category.name) ==>
      && r.Ok? && r.body.id !in old(store.categories)
      && r.body == Category(r.body.id, category, now)
      && store.categories == old(store.categories)[r.body.id := r.body]
    ensures store.notes == old(store.notes)
  {
    if NameTaken(store.categories, category.name) {
      r := Error(BAD_REQUEST, CATEGORY_EXISTS);
    } else {
      var created := store.CreateCategory(category, now);
      r := Ok(created);
    }
  }

  /** `GET /api/categories`: every category in name order. */
  function GetCategories(store: Store): (r: CategoryList)
    reads store
    requires store.Valid()
    ensures r.total == |r.categories| == |store.categories|
    ensures Q.SortedByName(r.categories)
    ensures forall c :: c in r.categories <==> exists id :: id in store.categories && store.categories[id] == c
  {
    store.RowsCoverTables();
    var categories := Q.GetCategories(store.CategoryRows());
    assert forall c :: c in categories <==> c in store.CategoryRows() by {
      forall c ensures c in categories <==> c in store.CategoryRows() {
        assert c in categories <==> c in multiset(categories);
      }
    }
    assert |categories| == |multiset(categories)|;
    CategoryList(categories, |categories|)
  }

  /** `PUT /api/categories/{id}`: 404 and no change for an unknown key. */
  method UpdateCategory(store: Store, id: int, category: CategoryCreate) returns (r: Response<Category>)
    requires store.Valid() && (id in store.categories ==> !NameTakenByOther(store.categories, id, category.name))
    modifies store
    ensures store.Valid()
    ensures id !in old(store.categories) ==>
      r == Error(NOT_FOUND, CATEGORY_NOT_FOUND) && store.categories == old(store.categories)
    ensures id in old(store.categories) ==>
      && r == Ok(old(store.categories)[id].(base := category))
      && store.categories == old(store.categories)[id := r.body]
    ensures store.notes == old(store.notes)
  {
    var updated := store.UpdateCategory(id, category);
    if updated.None? {
      r := Error(NOT_FOUND, CATEGORY_NOT_FOUND);
    } else {
      r := Ok(updated.value);
    }
  }

  /** `DELETE /api/categories/{id}`. */
  method DeleteCategory(store: Store, id: int) returns (r: Response<Message>)
    requires store.Valid()
    modifies store
    ensures store.Valid()
    ensures id !in old(store.categories) ==>
      r == Error(NOT_FOUND, CATEGORY_NOT_FOUND) && store.categories == old(store.categories)
    ensures id in old(store.categories) ==>
      r == Ok(Message(CATEGORY_DELETED)) && store.categories == old(store.categories) - {id}
    ensures store.notes == old(store.notes)
  {
    var deleted := store.DeleteCategory(id);
    if deleted.None? {
      r := Error(NOT_FOUND, CATEGORY_NOT_FOUND);
    } else {
      r := Ok(Message(CATEGORY_DELETED));
    }
  }

  /** `GET /api/search`: a query that strips to nothing answers with no
      notes without looking at the store; otherwise the matching notes,
      newest update first, with their count and the query echoed. */
  method SearchNotes(store: Store, q: string, category: string, tags: Option<string>) returns (r: SearchResult)
    requires store.Valid()
    ensures r.query == q && r.total == |r.notes|
    ensures Strip(q) == [] ==> r.notes == []
    ensures Q.SortedByUpdatedDesc(r.notes) && Q.DistinctIds(r.notes)
    ensures forall n :: n in r.notes ==> Stored(store, n)
    ensures Strip(q) != [] ==> forall n :: n in r.notes ==> Q.SearchMatches(n, q, Some(category), tags)
    ensures Strip(q) != [] ==> forall id :: id in store.notes && Q.SearchMatches(store.notes[id], q, Some(category), tags) ==>
      store.notes[id] in r.notes
  {
    if Strip(q) == [] {
      r := SearchResult([], 0, q);
    } else {
      store.RowsCoverTables();
      store.NoteRowsUnique();
      var notes := Q.SearchNotes(store.NoteRows(), q, Some(category), tags);
      SearchDistinct(store, q, Some(category), tags);
      r := SearchResult(notes, |notes|, q);
    }
  }

  /** The search over the scan finds every stored note at most once. */
  lemma SearchDistinct(store: Store, q: string, category: Option<string>, tags: Option<string>)
    requires store.Valid()
    ensures Q.DistinctIds(Q.SearchSpec(store.NoteRows(), q, category, tags))
  {
    var rows := store.NoteRows();
    store.RowsCoverTables();
    store.NoteRowsUnique();
    Q.ListingNoDuplicates(rows, Q.SearchCondition(q, category, tags), 0, -1);
    assert Q.SearchSpec(rows, q, category, tags) == Q.SortByUpdatedDesc(Sequences.Filter(rows, Q.SearchCondition(q, category, tags)));
    Q.KeyedDistinct(Q.SearchSpec(rows, q, category, tags), store.notes);
  }
}
