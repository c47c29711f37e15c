/** The write side of app/crud.py over the two tables of app/models.py. The
    database is an object holding each table as a map from primary key to
    row, and the next free key of each; a commit is one atomic update of
    those fields. */
module Crud {
  import opened Wrappers
  import opened Sequences
  import opened Schemas

  /** A fresh row of `notes`: `created_at` set by the server default, and
      `updated_at` still NULL, because `onupdate` fires only on updates. */
  function Inserted(id: int, note: NoteCreate, now: Timestamp): Note
  {
    Note(id, note, now, None)
  }

  /** `update_note` writes every field of the request onto the row. The ORM
      issues an UPDATE, and so stamps `updated_at`, only when some field
      actually changes. */
  function Updated(n: Note, update: NoteCreate, now: Timestamp): Note
  {
    Note(n.id, update, n.createdAt, if update == n.base then n.updatedAt else Some(now))
  }

  /** `toggle_favorite` flips the flag, which always changes the row. */
  function Toggled(n: Note, now: Timestamp): Note
  {
    n.(base := n.base.(isFavorite := !n.base.isFavorite), updatedAt := Some(now))
  }

  /** An update keeps the key and the insertion time and takes every field
      from the request, flags included: a request built from title and
      content alone clears the favourite and public flags. */
  lemma UpdateTakesAllFields(n: Note, update: NoteCreate, now: Timestamp)
    ensures Updated(n, update, now).id == n.id
    ensures Updated(n, update, now).createdAt == n.createdAt
    ensures Updated(n, update, now).base == update
    ensures update == NoteCreateOf(update.title, update.content) ==>
      !Updated(n, update, now).base.isFavorite && !Updated(n, update, now).base.isPublic
    ensures Updated(n, update, now).updatedAt == Some(now) || update == n.base
  {
  }

  /** Toggling flips the favourite flag and nothing else of the editable
      fields; toggling again restores them. */
  lemma ToggleTwiceRestores(n: Note, t1: Timestamp, t2: Timestamp)
    ensures Toggled(n, t1).base.isFavorite == !n.base.isFavorite
    ensures Toggled(n, t1).base.(isFavorite := n.base.isFavorite) == n.base
    ensures Toggled(Toggled(n, t1), t2).base == n.base
    ensures Toggled(Toggled(n, t1), t2).id == n.id
  {
  }

  /** `categories.name` is UNIQUE: no two rows share a name. */
  ghost predicate NamesUnique(categories: map<int, Category>)
  {
    forall i, j :: i in categories && j in categories && categories[i].base.name == categories[j].base.name ==> i == j
  }

  /** Some row of `categories` already has this name. */
  predicate NameTaken(categories: map<int, Category>, name: string)
  {
    exists id :: id in categories && categories[id].base.name == name
  }

  /** Some row other than `id` has this name. */
  predicate NameTakenByOther(categories: map<int, Category>, id: int, name: string)
  {
    exists other :: other in categories && other != id && categories[other].base.name == name
  }

  class Store {
    var notes: map<int, Note>
    var categories: map<int, Category>
    var nextNoteId: nat
    var nextCategoryId: nat

    /** The table invariants: each row is stored under its own primary key,
        keys are positive and below the next free key, and category names
        are unique. */
    ghost predicate Valid()
      reads this
    {
      && 1 <= nextNoteId && 1 <= nextCategoryId
      && (forall id :: id in notes ==> 1 <= id < nextNoteId && notes[id].id == id)
      && (forall id :: id in categories ==> 1 <= id < nextCategoryId && categories[id].id == id)
      && NamesUnique(categories)
    }

    /** Two empty tables. */
    constructor ()
      ensures Valid()
      ensures notes == map[] && categories == map[]
    {
      notes := map[];
      categories := map[];
      nextNoteId := 1;
      nextCategoryId := 1;
    }

    /** The `notes` table in primary-key order. */
    function NoteRows(): seq<Note>
      reads this
    {
      Scan(notes, nextNoteId)
    }

    /** The `categories` table in primary-key order. */
    function CategoryRows(): seq<Category>
      reads this
    {
      Scan(categories, nextCategoryId)
    }

    /** The scans visit every row once. */
    lemma RowsCoverTables()
      requires Valid()
      ensures |NoteRows()| == |notes| && |CategoryRows()| == |categories|
      ensures forall id :: id in notes ==> notes[id] in NoteRows()
      ensures forall n :: n in NoteRows() ==> n.id in notes && notes[n.id] == n
      ensures forall id :: id in categories ==> categories[id] in CategoryRows()
      ensures forall c :: c in CategoryRows() ==> c.id in categories && categories[c.id] == c
    {
      ScanVisitsAll(notes, nextNoteId);
      ScanVisitsAll(categories, nextCategoryId);
      forall id | id in notes ensures notes[id] in NoteRows() {
        ScanFinds(notes, nextNoteId, id);
      }
      forall id | id in categories ensures categories[id] in CategoryRows() {
        ScanFinds(categories, nextCategoryId, id);
      }
      forall n | n in NoteRows() ensures n.id in notes && notes[n.id] == n {
        ScanFromTable(notes, nextNoteId, n);
      }
      forall c | c in CategoryRows() ensures c.id in categories && categories[c.id] == c {
        ScanFromTable(categories, nextCategoryId, c);
      }
    }

    /** No row is visited twice: each is stored under its own key. */
    lemma NoteRowsUnique()
      requires Valid()
      ensures NoDuplicates(NoteRows())
    {
      ScanNoDuplicates(notes, nextNoteId, (n: Note) => n.id);
    }

    /** `get_note_by_id`. */
    function GetNoteById(id: int): (r: Option<Note>)
      reads this
      ensures r.Some? <==> id in notes
      ensures r.Some? ==> r.value == notes[id]
    {
      if id in notes then Some(notes[id]) else None
    }

    /** `create_note`: inserts one row under a fresh key. */
    method CreateNote(note: NoteCreate, now: Timestamp) returns (created: Note)
      requires Valid()
      modifies this
      ensures Valid()
      ensures created.id !in old(notes) && created == Inserted(created.id, note, now)
      ensures notes == old(notes)[created.id := created]
      ensures |notes| == |old(notes)| + 1
      ensures categories == old(categories) && nextCategoryId == old(nextCategoryId)
    {
      created := Inserted(nextNoteId, note, now);
      notes := notes[nextNoteId := created];
      nextNoteId := nextNoteId + 1;
    }

    /** `update_note`: overwrites every field of an existing note; for an
        unknown key returns None and changes nothing. */
    method UpdateNote(id: int, update: NoteCreate, now: Timestamp) returns (r: Option<Note>)
      requires Valid()
      modifies this
      ensures Valid()
      ensures id !in old(notes) ==> r == None && notes == old(notes)
      ensures id in old(notes) ==>
        r == Some(Updated(old(notes)[id], update, now)) && notes == old(notes)[id := r.value]
      ensures categories == old(categories)
      ensures nextNoteId == old(nextNoteId) && nextCategoryId == old(nextCategoryId)
    {
      if id in notes {
        var n := Updated(notes[id], update, now);
        notes := notes[id := n];
        r := Some(n);
      } else {
        r := None;
      }
    }

    /** `delete_note`: removes an existing note and returns it; for an
        unknown key returns None and changes nothing. */
    method DeleteNote(id: int) returns (r: Option<Note>)
      requires Valid()
      modifies this
      ensures Valid()
      ensures id !in old(notes) ==> r == None && notes == old(notes)
      ensures id in old(notes) ==> r == Some(old(notes)[id]) && notes == old(notes) - {id}
      ensures categories == old(categories)
      ensures nextNoteId == old(nextNoteId) && nextCategoryId == old(nextCategoryId)
    {
      if id in notes {
        r := Some(notes[id]);
        notes := notes - {id};
      } else {
        r := None;
      }
    }

    /** `toggle_favorite`: flips the flag of an existing note; for an unknown
        key returns None and changes nothing. */
    method ToggleFavorite(id: int, now: Timestamp) returns (r: Option<Note>)
      requires Valid()
      modifies this
      ensures Valid()
      ensures id !in old(notes) ==> r == None && notes == old(notes)
      ensures id in old(notes) ==>
        r == Some(Toggled(old(notes)[id], now)) && notes == old(notes)[id := r.value]
      ensures categories == old(categories)
      ensures nextNoteId == old(nextNoteId) && nextCategoryId == old(nextCategoryId)
    {
      if id in notes {
        var n := Toggled(notes[id], now);
        notes := notes[id := n];
        r := Some(n);
      } else {
        r := None;
      }
    }

    /** `create_category`: inserts one row under a fresh key. The UNIQUE
        constraint on the name is the caller's to respect. */
    method CreateCategory(category: CategoryCreate, now: Timestamp) returns (created: Category)
      requires Valid() && !NameTaken(categories, category.name)
      modifies this
      ensures Valid()
      ensures created.id !in old(categories) && created == Category(created.id, category, now)
      ensures categories == old(categories)[created.id := created]
      ensures notes == old(notes) && nextNoteId == old(nextNoteId)
    {
      created := Category(nextCategoryId, category, now);
      categories := categories[nextCategoryId := created];
      nextCategoryId := nextCategoryId + 1;
    }

    /** `update_category`: overwrites every field of an existing category;
        for an unknown key returns None and changes nothing. The new name of
        an existing category must not belong to another one (the UNIQUE
        constraint). */
    method UpdateCategory(id: int, update: CategoryCreate) returns (r: Option<Category>)
      requires Valid() && (id in categories ==> !NameTakenByOther(categories, id, update.name))
      modifies this
      ensures Valid()
      ensures id !in old(categories) ==> r == None && categories == old(categories)
      ensures id in old(categories) ==>
        r == Some(old(categories)[id].(base := update)) && categories == old(categories)[id := r.value]
      ensures notes == old(notes)
      ensures nextNoteId == old(nextNoteId) && nextCategoryId == old(nextCategoryId)
    {
      if id in categories {
        var c := categories[id].(base := update);
        categories := categories[id := c];
        r := Some(c);
      } else {
        r := None;
      }
    }

    /** `delete_category`: removes an existing category and returns it; the
        notes that carry its name keep it. For an unknown key returns None
        and changes nothing. */
    method DeleteCategory(id: int) returns (r: Option<Category>)
      requires Valid()
      modifies this
      ensures Valid()
      ensures id !in old(categories) ==> r == None && categories == old(categories)
      ensures id in old(categories) ==> r == Some(old(categories)[id]) && categories == old(categories) - {id}
      ensures notes == old(notes)
      ensures nextNoteId == old(nextNoteId) && nextCategoryId == old(nextCategoryId)
    {
      if id in categories {
        r := Some(categories[id]);
        categories := categories - {id};
      } else {
        r := None;
      }
    }
  }
}
