/** The read side of app/crud.py: the listing queries, the search and the
    statistics. Each query works on the table scan, the rows of a table in
    primary-key order (`Crud.Store.NoteRows`), and does in the model what
    SQLite does with `WHERE`, `ORDER BY` and `OFFSET ... LIMIT ...`. */
module Queries {
  import opened Wrappers
  import opened Strings
  import opened Sequences
  import opened Schemas

  // ------------------------------------------- ORDER BY updated_at DESC

  /** `a` may stand before `b` under `ORDER BY updated_at DESC`. SQLite ranks
      NULL below every time, so notes never updated come last. */
  predicate UpdatedNoEarlier(a: Note, b: Note)
  {
    b.updatedAt.None? || (a.updatedAt.Some? && a.updatedAt.value >= b.updatedAt.value)
  }

  predicate SortedByUpdatedDesc(s: seq<Note>)
  {
    forall i, j :: 0 <= i < j < |s| ==> UpdatedNoEarlier(s[i], s[j])
  }

  /** A note no older than everything in a sorted listing can head it. */
  lemma ConsByUpdated(y: Note, t: seq<Note>)
    requires SortedByUpdatedDesc(t)
    requires forall z :: z in t ==> UpdatedNoEarlier(y, z)
    ensures SortedByUpdatedDesc([y] + t)
  {
    var r := [y] + t;
    forall i, j | 0 <= i < j < |r| ensures UpdatedNoEarlier(r[i], r[j]) {
      if i == 0 {
        assert r[j] == t[j - 1] && r[j] in t;
      } else {
        assert r[i] == t[i - 1] && r[j] == t[j - 1];
      }
    }
  }

  /** The head of a sorted listing is no older than the rest of it. */
  lemma HeadByUpdated(s: seq<Note>)
    requires s != [] && SortedByUpdatedDesc(s)
    ensures forall z :: z in s[1..] ==> UpdatedNoEarlier(s[0], z)
  {
    forall z | z in s[1..] ensures UpdatedNoEarlier(s[0], z) {
      var k :| 0 <= k < |s[1..]| && s[1..][k] == z;
      assert s[k + 1] == z;
    }
  }

  /** Puts `x` in front of the first note it is not older than. */
  function InsertByUpdated(x: Note, s: seq<Note>): (r: seq<Note>)
    requires SortedByUpdatedDesc(s)
    ensures SortedByUpdatedDesc(r)
    ensures multiset(r) == multiset(s) + multiset{x}
  {
    if s == [] then [x]
    else
      HeadByUpdated(s);
      assert s == [s[0]] + s[1..];
      if UpdatedNoEarlier(x, s[0]) then
        ConsByUpdated(x, s);
        [x] + s
      else
        var rest := InsertByUpdated(x, s[1..]);
        assert forall z :: z in rest ==> z == x || z in s[1..] by {
          forall z | z in rest ensures z == x || z in s[1..] {
            assert z in multiset(rest);
          }
        }
        ConsByUpdated(s[0], rest);
        [s[0]] + rest
  }

  /** `ORDER BY updated_at DESC`: the same notes, newest update first. SQL
      leaves the order of equal times open; here they keep their scan order. */
  function SortByUpdatedDesc(s: seq<Note>): (r: seq<Note>)
    ensures SortedByUpdatedDesc(r)
    ensures multiset(r) == multiset(s)
    ensures |r| == |s|
  {
    if s == [] then []
    else
      assert s == [s[0]] + s[1..];
      InsertByUpdated(s[0], SortByUpdatedDesc(s[1..]))
  }

  /** Every stretch of a sorted listing is sorted. */
  lemma WindowKeepsOrder(s: seq<Note>, skip: int, limit: int)
    requires SortedByUpdatedDesc(s)
    ensures SortedByUpdatedDesc(Window(s, skip, limit))
  {
    var r := Window(s, skip, limit);
    forall i, j | 0 <= i < j < |r| ensures UpdatedNoEarlier(r[i], r[j]) {
      assert r[i] == s[Offset(skip) + i] && r[j] == s[Offset(skip) + j];
    }
  }

  /** A window that starts at the front and is not shorter than the listing
      holds all of it. */
  lemma WholeWindow<T(!new)>(s: seq<T>, skip: int, limit: int)
    ensures skip <= 0 && (limit < 0 || limit >= |s|) ==> Window(s, skip, limit) == s
  {
  }

  // --------------------------------------------------- ORDER BY name

  /** SQLite's BINARY collation on text: code-point lexicographic order. */
  predicate NameAtMost(a: string, b: string)
  {
    a == [] || (b != [] && (a[0] < b[0] || (a[0] == b[0] && NameAtMost(a[1..], b[1..]))))
  }

  lemma {:induction false} NameOrderTotal(a: string, b: string)
    ensures NameAtMost(a, b) || NameAtMost(b, a)
  {
    if a != [] && b != [] && a[0] == b[0] {
      NameOrderTotal(a[1..], b[1..]);
    }
  }

  lemma {:induction false} NameOrderTransitive(a: string, b: string, c: string)
    requires NameAtMost(a, b) && NameAtMost(b, c)
    ensures NameAtMost(a, c)
  {
    if a != [] && a[0] == b[0] && b[0] == c[0] {
      NameOrderTransitive(a[1..], b[1..], c[1..]);
    }
  }

  predicate SortedByName(s: seq<Category>)
  {
    forall i, j :: 0 <= i < j < |s| ==> NameAtMost(s[i].base.name, s[j].base.name)
  }

  /** A category whose name is at most every name of a sorted listing can
      head it. */
  lemma ConsByName(y: Category, t: seq<Category>)
    requires SortedByName(t)
    requires forall z :: z in t ==> NameAtMost(y.base.name, z.base.name)
    ensures SortedByName([y] + t)
  {
    var r := [y] + t;
    forall i, j | 0 <= i < j < |r| ensures NameAtMost(r[i].base.name, r[j].base.name) {
      if i == 0 {
        assert r[j] == t[j - 1] && r[j] in t;
      } else {
        assert r[i] == t[i - 1] && r[j] == t[j - 1];
      }
    }
  }

  /** Everything after the head of a sorted listing has a name at least the
      head's. */
  lemma HeadByName(s: seq<Category>)
    requires s != [] && SortedByName(s)
    ensures forall z :: z in s[1..] ==> NameAtMost(s[0].base.name, z.base.name)
  {
    forall z | z in s[1..] ensures NameAtMost(s[0].base.name, z.base.name) {
      var k :| 0 <= k < |s[1..]| && s[1..][k] == z;
      assert s[k + 1] == z;
    }
  }

  /** Puts `x` in front of the first category whose name is not smaller. */
  function InsertByName(x: Category, s: seq<Category>): (r: seq<Category>)
    requires SortedByName(s)
    ensures SortedByName(r)
    ensures multiset(r) == multiset(s) + multiset{x}
  {
    if s == [] then [x]
    else
      HeadByName(s);
      assert s == [s[0]] + s[1..];
      if NameAtMost(x.base.name, s[0].base.name) then
        assert forall z :: z in s ==> NameAtMost(x.base.name, z.base.name) by {
          forall z | z in s ensures NameAtMost(x.base.name, z.base.name) {
            if z != s[0] {
              assert z in s[1..];
              NameOrderTransitive(x.base.name, s[0].base.name, z.base.name);
            }
          }
        }
        ConsByName(x, s);
        [x] + s
      else
        NameOrderTotal(x.base.name, s[0].base.name);
        var rest := InsertByName(x, s[1..]);
        assert forall z :: z in rest ==> z == x || z in s[1..] by {
          forall z | z in rest ensures z == x || z in s[1..] {
            assert z in multiset(rest);
          }
        }
        ConsByName(s[0], rest);
        [s[0]] + rest
  }

  /** `ORDER BY name`: the same categories in name order. */
  function SortByName(s: seq<Category>): (r: seq<Category>)
    ensures SortedByName(r)
    ensures multiset(r) == multiset(s)
  {
    if s == [] then []
    else
      assert s == [s[0]] + s[1..];
      InsertByName(s[0], SortByName(s[1..]))
  }

  // ------------------------------------------------------------ listings

  /** `category` restricts a listing unless it is missing, empty or "all". */
  predicate CategoryFilterActive(category: Option<string>)
  {
    category.Some? && category.value != [] && category.value != "all"
  }

  predicate InCategory(category: Option<string>, n: Note)
  {
    !CategoryFilterActive(category) || n.base.category == category.value
  }

  function CategoryCondition(category: Option<string>): Note -> bool
  {
    n => InCategory(category, n)
  }

  /** A listing: the rows meeting `keep`, newest update first, windowed. */
  function Listing(rows: seq<Note>, keep: Note -> bool, skip: int, limit: int): (notes: seq<Note>)
    ensures limit >= 0 ==> |notes| <= limit
    ensures SortedByUpdatedDesc(notes)
    ensures forall n :: n in notes ==> n in rows && keep(n)
    ensures skip <= 0 && (limit < 0 || limit >= |rows|) ==>
      forall n :: n in notes <==> n in rows && keep(n)
  {
    var sorted := SortByUpdatedDesc(Filter(rows, keep));
    WindowKeepsOrder(sorted, skip, limit);
    WindowWithin(sorted, skip, limit);
    SortKeepsMembers(Filter(rows, keep));
    WholeWindow(sorted, skip, limit);
    Window(sorted, skip, limit)
  }

  /** A window holds elements of the listing only. */
  lemma WindowWithin<T(!new)>(s: seq<T>, skip: int, limit: int)
    ensures forall x :: x in Window(s, skip, limit) ==> x in s
  {
    var r := Window(s, skip, limit);
    forall x | x in r ensures x in s {
      var i :| 0 <= i < |r| && r[i] == x;
      assert s[Offset(skip) + i] == x;
    }
  }

  /** Sorting keeps exactly the notes it is given. */
  lemma SortKeepsMembers(s: seq<Note>)
    ensures |SortByUpdatedDesc(s)| == |s|
    ensures forall n :: n in SortByUpdatedDesc(s) <==> n in s
  {
    var r := SortByUpdatedDesc(s);
    forall n ensures n in r <==> n in s {
      assert n in r <==> n in multiset(r);
      assert n in s <==> n in multiset(s);
    }
  }

  /** No two notes of a listing share a key. */
  predicate DistinctIds(s: seq<Note>)
  {
    forall i, j :: 0 <= i < j < |s| ==> s[i].id != s[j].id
  }

  /** `notes` is the page `[skip, skip+limit)` of the notes `matching`, put
      in some order newest update first (SQL leaves the order of equal times
      open). */
  ghost predicate IsPage(matching: seq<Note>, skip: int, limit: int, notes: seq<Note>)
  {
    exists L :: SortedByUpdatedDesc(L) && multiset(L) == multiset(matching) && notes == Window(L, skip, limit)
  }

  /** A listing is the requested page of the rows meeting `keep`. */
  lemma ListingIsPage(rows: seq<Note>, keep: Note -> bool, skip: int, limit: int)
    ensures IsPage(Filter(rows, keep), skip, limit, Listing(rows, keep, skip, limit))
  {
    var sorted := SortByUpdatedDesc(Filter(rows, keep));
    assert Listing(rows, keep, skip, limit) == Window(sorted, skip, limit);
  }

  /** A listing of rows without duplicates has none, nor has its ordered
      selection. */
  lemma ListingNoDuplicates(rows: seq<Note>, keep: Note -> bool, skip: int, limit: int)
    requires NoDuplicates(rows)
    ensures NoDuplicates(SortByUpdatedDesc(Filter(rows, keep)))
    ensures NoDuplicates(Listing(rows, keep, skip, limit))
  {
    var sorted := SortByUpdatedDesc(Filter(rows, keep));
    WindowSubMultiset(sorted, skip, limit);
    assert Listing(rows, keep, skip, limit) == Window(sorted, skip, limit);
  }

  /** Notes without duplicates, each stored under its own key in `table`,
      have distinct keys. */
  lemma KeyedDistinct(s: seq<Note>, table: map<int, Note>)
    requires NoDuplicates(s)
    requires forall n :: n in s ==> n.id in table && table[n.id] == n
    ensures DistinctIds(s)
  {
    forall i, j | 0 <= i < j < |s| ensures s[i].id != s[j].id {
      DistinctPositions(s, i, j);
      assert s[i] in s && s[j] in s;
    }
  }

  /** `get_notes`: the notes of `category` (all of them for a missing, empty
      or "all" category), newest update first, positions `[skip, skip+limit)`. */
  function GetNotes(rows: seq<Note>, skip: int, limit: int, category: Option<string>): (notes: seq<Note>)
    ensures limit >= 0 ==> |notes| <= limit
    ensures SortedByUpdatedDesc(notes)
    ensures forall n :: n in notes ==> n in rows && InCategory(category, n)
    ensures skip <= 0 && (limit < 0 || limit >= |rows|) ==>
      forall n :: n in rows && InCategory(category, n) ==> n in notes
  {
    Listing(rows, CategoryCondition(category), skip, limit)
  }

  predicate IsFavorite(n: Note)
  {
    n.base.isFavorite
  }

  function FavoriteCondition(): Note -> bool
  {
    n => IsFavorite(n)
  }

  /** `get_favorite_notes`: the favourite notes, newest update first,
      positions `[skip, skip+limit)`. */
  function GetFavoriteNotes(rows: seq<Note>, skip: int, limit: int): (notes: seq<Note>)
    ensures limit >= 0 ==> |notes| <= limit
    ensures SortedByUpdatedDesc(notes)
    ensures forall n :: n in notes ==> n in rows && n.base.isFavorite
    ensures skip <= 0 && (limit < 0 || limit >= |rows|) ==>
      forall n :: n in rows && n.base.isFavorite ==> n in notes
  {
    Listing(rows, FavoriteCondition(), skip, limit)
  }

  /** `get_notes` answers with the requested page of the notes of the
      category. */
  lemma GetNotesIsPage(rows: seq<Note>, skip: int, limit: int, category: Option<string>)
    ensures IsPage(Filter(rows, CategoryCondition(category)), skip, limit, GetNotes(rows, skip, limit, category))
  {
    ListingIsPage(rows, CategoryCondition(category), skip, limit);
  }

  /** `get_favorite_notes` answers with the requested page of the favourite
      notes. */
  lemma GetFavoriteNotesIsPage(rows: seq<Note>, skip: int, limit: int)
    ensures IsPage(Filter(rows, FavoriteCondition()), skip, limit, GetFavoriteNotes(rows, skip, limit))
  {
    ListingIsPage(rows, FavoriteCondition(), skip, limit);
  }

  /** `get_categories`: every category, in name order. */
  function GetCategories(rows: seq<Category>): (categories: seq<Category>)
    ensures SortedByName(categories)
    ensures multiset(categories) == multiset(rows)
  {
    SortByName(rows)
  }

  // -------------------------------------------------------------- search

  /** `field ILIKE '%pattern%'`: SQLite lower-cases both sides (ASCII only)
      and looks for the pattern; `%` and `_` inside it are taken literally. */
  predicate ContainsIgnoringCase(field: string, pattern: string)
  {
    Contains(Lower(field), Lower(pattern))
  }

  /** The same on a nullable column: NULL matches nothing. */
  predicate OptionalContains(field: Option<string>, pattern: string)
  {
    field.Some? && ContainsIgnoringCase(field.value, pattern)
  }

  /** `query.lower().split()`. */
  function Terms(query: string): seq<string>
  {
    Words(Lower(query))
  }

  /** A term matches a note when it occurs in its title, content, summary or
      tags. */
  predicate TermMatches(n: Note, term: string)
  {
    || ContainsIgnoringCase(n.base.title, term)
    || ContainsIgnoringCase(n.base.content, term)
    || OptionalContains(n.base.summary, term)
    || OptionalContains(n.base.tags, term)
  }

  /** `if tags:` a tag filter applies unless it is missing or empty. */
  predicate TagFilterActive(tags: Option<string>)
  {
    tags.Some? && tags.value != []
  }

  predicate AllTermsMatch(n: Note, terms: seq<string>)
  {
    forall term :: term in terms ==> TermMatches(n, term)
  }

  /** Some comma-separated piece of a tag filter, stripped, occurs in the
      note's tags. */
  predicate SomePieceMatches(n: Note, pieces: seq<string>)
  {
    exists piece :: piece in pieces && OptionalContains(n.base.tags, Strip(piece))
  }

  /** The meaning of a search: every term matches some field, the category
      matches unless it is missing, empty or "all", and, under a tag filter,
      some stripped comma-separated piece of it occurs in the note's tags. */
  predicate SearchMatches(n: Note, query: string, category: Option<string>, tags: Option<string>)
  {
    && AllTermsMatch(n, Terms(query))
    && InCategory(category, n)
    && (TagFilterActive(tags) ==> SomePieceMatches(n, Split(tags.value, ',')))
  }

  function SearchCondition(query: string, category: Option<string>, tags: Option<string>): Note -> bool
  {
    n => SearchMatches(n, query, category, tags)
  }

  /** What `search_notes` returns: exactly the matching rows, each as often as
      in the scan, newest update first. */
  function SearchSpec(rows: seq<Note>, query: string, category: Option<string>, tags: Option<string>): (notes: seq<Note>)
    ensures SortedByUpdatedDesc(notes)
    ensures forall n :: n in notes <==> n in rows && SearchMatches(n, query, category, tags)
    ensures forall n :: n in rows && SearchMatches(n, query, category, tags) ==>
      multiset(notes)[n] == multiset(rows)[n]
  {
    var matching := Filter(rows, SearchCondition(query, category, tags));
    var notes := SortByUpdatedDesc(matching);
    assert forall n :: n in notes <==> n in matching by {
      forall n ensures n in notes <==> n in matching {
        assert n in notes <==> n in multiset(notes);
        assert n in matching <==> n in multiset(matching);
      }
    }
    notes
  }

  /** One conjunct of the `WHERE` clause that `search_notes` assembles. */
  datatype Condition =
    | AnyFieldContains(term: string)        // or_(title, content, summary, tags ILIKE term)
    | CategoryIs(name: string)              // Note.category == name
    | TagsContainAny(patterns: seq<string>) // or_(tags ILIKE pattern, ...)

  predicate Holds(c: Condition, n: Note)
  {
    match c
    case AnyFieldContains(term) => TermMatches(n, term)
    case CategoryIs(name) => n.base.category == name
    case TagsContainAny(patterns) => exists p :: p in patterns && OptionalContains(n.base.tags, p)
  }

  predicate HoldsAll(conditions: seq<Condition>, n: Note)
  {
    forall c :: c in conditions ==> Holds(c, n)
  }

  function ConditionsFilter(conditions: seq<Condition>): Note -> bool
  {
    n => HoldsAll(conditions, n)
  }

  /** The term conditions hold exactly when every term matches. */
  lemma TermConditions(conditions: seq<Condition>, terms: seq<string>, n: Note)
    requires |conditions| == |terms|
    requires forall j :: 0 <= j < |terms| ==> conditions[j] == AnyFieldContains(terms[j])
    ensures HoldsAll(conditions, n) <==> AllTermsMatch(n, terms)
  {
    if HoldsAll(conditions, n) {
      forall term | term in terms ensures TermMatches(n, term) {
        var j :| 0 <= j < |terms| && terms[j] == term;
        assert conditions[j] in conditions;
      }
    }
    if AllTermsMatch(n, terms) {
      forall c | c in conditions ensures Holds(c, n) {
        var j :| 0 <= j < |conditions| && conditions[j] == c;
        assert terms[j] in terms;
      }
    }
  }

  /** The tag condition holds exactly when some stripped piece occurs. */
  lemma TagCondition(patterns: seq<string>, pieces: seq<string>, n: Note)
    requires |patterns| == |pieces|
    requires forall j :: 0 <= j < |pieces| ==> patterns[j] == Strip(pieces[j])
    ensures Holds(TagsContainAny(patterns), n) <==> SomePieceMatches(n, pieces)
  {
    if Holds(TagsContainAny(patterns), n) {
      var p :| p in patterns && OptionalContains(n.base.tags, p);
      var j :| 0 <= j < |patterns| && patterns[j] == p;
      assert pieces[j] in pieces;
    }
    if SomePieceMatches(n, pieces) {
      var piece :| piece in pieces && OptionalContains(n.base.tags, Strip(piece));
      var j :| 0 <= j < |pieces| && pieces[j] == piece;
      assert patterns[j] in patterns;
    }
  }

  lemma HoldsAllAppend(a: seq<Condition>, b: seq<Condition>, n: Note)
    ensures HoldsAll(a + b, n) <==> HoldsAll(a, n) && HoldsAll(b, n)
  {
    assert forall c :: c in a + b <==> c in a || c in b;
  }

  /** The conjuncts assembled by `SearchNotes` mean what `SearchMatches` says. */
  lemma AssembledConditions(terms: seq<string>, category: Option<string>, tags: Option<string>, pieces: seq<string>,
                            termConditions: seq<Condition>, categoryConditions: seq<Condition>,
                            tagConditions: seq<Condition>, patterns: seq<string>, n: Note)
    requires |termConditions| == |terms|
    requires forall j :: 0 <= j < |terms| ==> termConditions[j] == AnyFieldContains(terms[j])
    requires categoryConditions == if CategoryFilterActive(category) then [CategoryIs(category.value)] else []
    requires TagFilterActive(tags) ==>
      |patterns| == |pieces| && forall j :: 0 <= j < |patterns| ==> patterns[j] == Strip(pieces[j])
    requires tagConditions == if TagFilterActive(tags) then [TagsContainAny(patterns)] else []
    ensures HoldsAll(termConditions + categoryConditions + tagConditions, n) <==>
      && AllTermsMatch(n, terms)
      && InCategory(category, n)
      && (TagFilterActive(tags) ==> SomePieceMatches(n, pieces))
  {
    HoldsAllAppend(termConditions + categoryConditions, tagConditions, n);
    HoldsAllAppend(termConditions, categoryConditions, n);
    TermConditions(termConditions, terms, n);
    if CategoryFilterActive(category) {
      HoldsAllSingle(CategoryIs(category.value), n);
    }
    if TagFilterActive(tags) {
      TagCondition(patterns, pieces, n);
      HoldsAllSingle(TagsContainAny(patterns), n);
    }
  }

  lemma HoldsAllSingle(c: Condition, n: Note)
    ensures HoldsAll([c], n) <==> Holds(c, n)
  {
    assert c in [c];
  }

  /** Conjuncts that agree with the meaning of a search on every row give
      the result of the search. */
  lemma SearchByConditions(rows: seq<Note>, query: string, category: Option<string>, tags: Option<string>,
                           conditions: seq<Condition>)
    requires forall n :: n in rows ==> HoldsAll(conditions, n) == SearchMatches(n, query, category, tags)
    ensures SortByUpdatedDesc(Filter(rows, ConditionsFilter(conditions))) == SearchSpec(rows, query, category, tags)
  {
    FilterAgrees(rows, ConditionsFilter(conditions), SearchCondition(query, category, tags));
  }

  /** The loop over the search terms: one `AnyFieldContains` conjunct per
      term, in term order. */
  method TermConditionsOf(searchTerms: seq<string>) returns (conditions: seq<Condition>)
    ensures |conditions| == |searchTerms|
    ensures forall j :: 0 <= j < |searchTerms| ==> conditions[j] == AnyFieldContains(searchTerms[j])
  {
    conditions := [];
    for i := 0 to |searchTerms|
      invariant |conditions| == i
      invariant forall j :: 0 <= j < i ==> conditions[j] == AnyFieldContains(searchTerms[j])
    {
      conditions := conditions + [AnyFieldContains(searchTerms[i])];
    }
  }

  /** The loop over the comma-separated pieces of the tag filter: each piece,
      stripped, becomes one alternative pattern. */
  method TagPatternsOf(pieces: seq<string>) returns (patterns: seq<string>)
    ensures |patterns| == |pieces|
    ensures forall j :: 0 <= j < |pieces| ==> patterns[j] == Strip(pieces[j])
  {
    patterns := [];
    for i := 0 to |pieces|
      invariant |patterns| == i
      invariant forall j :: 0 <= j < i ==> patterns[j] == Strip(pieces[j])
    {
      var pattern := Strip(pieces[i]);
      patterns := patterns + [pattern];
    }
  }

  /** `search_notes`: builds the `WHERE` conjuncts one per term, then the
      category test, then the tag alternatives, and
      returns the rows meeting all of them, newest update first. */
  method SearchNotes(rows: seq<Note>, query: string, category: Option<string>, tags: Option<string>)
    returns (results: seq<Note>)
    ensures results == SearchSpec(rows, query, category, tags)
  {
    var searchTerms := Terms(query);
    var termConditions := TermConditionsOf(searchTerms);

    var categoryConditions: seq<Condition> := [];
    if CategoryFilterActive(category) {
      categoryConditions := [CategoryIs(category.value)];
    }

    var tagConditions: seq<Condition> := [];
    var pieces: seq<string> := [];
    var patterns: seq<string> := [];
    if TagFilterActive(tags) {
      pieces := Split(tags.value, ',');
      patterns := TagPatternsOf(pieces);
      tagConditions := [TagsContainAny(patterns)];
    }
    var conditions := termConditions + categoryConditions + tagConditions;

    forall n | n in rows
      ensures HoldsAll(conditions, n) == SearchMatches(n, query, category, tags)
    {
      AssembledConditions(searchTerms, category, tags, pieces, termConditions, categoryConditions,
                          tagConditions, patterns, n);
    }
    SearchByConditions(rows, query, category, tags, conditions);
    results := SortByUpdatedDesc(Filter(rows, ConditionsFilter(conditions)));
  }

  /** A search with no terms (a blank query) keeps every row that passes the
      category and tag tests: the emptiness rule of the search endpoint is
      the endpoint's own, not the query's. */
  lemma BlankQueryMatchesAll(rows: seq<Note>, query: string, category: Option<string>, tags: Option<string>, n: Note)
    requires AllSpace(query)
    requires n in rows && InCategory(category, n) && !TagFilterActive(tags)
    ensures n in SearchSpec(rows, query, category, tags)
  {
    LowerKeepsSpace(query);
  }

  /** A tag filter with a piece that strips to nothing ("python,") accepts
      every note that has tags at all, since an empty pattern occurs
      everywhere. */
  lemma EmptyTagPieceMatchesAnyTagged(n: Note, query: string, category: Option<string>, tags: Option<string>, k: nat)
    requires TagFilterActive(tags) && k < |Split(tags.value, ',')| && Strip(Split(tags.value, ',')[k]) == []
    requires n.base.tags.Some?
    requires (forall term :: term in Terms(query) ==> TermMatches(n, term)) && InCategory(category, n)
    ensures SearchMatches(n, query, category, tags)
  {
    var piece := Split(tags.value, ',')[k];
    assert IsPrefix(Lower(Strip(piece)), Lower(n.base.tags.value));
    assert OptionalContains(n.base.tags, Strip(piece));
  }

  // ---------------------------------------------------------- statistics

  /** The "recent notes" window: seven days, in seconds. */
  const RECENT_WINDOW: int := 7 * 24 * 60 * 60

  function CreatedSince(since: Timestamp): Note -> bool
  {
    (n: Note) => n.createdAt >= since
  }

  /** `get_stats`: the number of notes, of categories, of favourite notes and
      of notes created in the last seven days before `now`. */
  function GetStats(noteRows: seq<Note>, categoryRows: seq<Category>, now: Timestamp): (stats: Stats)
    ensures stats.totalNotes == |noteRows| && stats.totalCategories == |categoryRows|
    ensures 0 <= stats.favoriteNotes <= stats.totalNotes
    ensures 0 <= stats.recentNotes <= stats.totalNotes
    ensures stats.favoriteNotes == 0 <==> forall n :: n in noteRows ==> !n.base.isFavorite
  {
    var favorites := Filter(noteRows, FavoriteCondition());
    assert favorites == [] <==> forall n :: n in noteRows ==> !n.base.isFavorite by {
      if favorites != [] {
        assert favorites[0] in favorites;
      }
    }
    Stats(|noteRows|, |categoryRows|, |favorites|, |Filter(noteRows, CreatedSince(now - RECENT_WINDOW))|)
  }

  /** The counts agree with the listings when the window covers everything:
      the favourite count is the length of the favourites listing and the
      note count the length of the unfiltered listing. */
  lemma StatsAgreeWithListings(noteRows: seq<Note>, categoryRows: seq<Category>, now: Timestamp, skip: int, limit: int)
    requires skip <= 0 && (limit < 0 || limit >= |noteRows|)
    ensures GetStats(noteRows, categoryRows, now).favoriteNotes == |GetFavoriteNotes(noteRows, skip, limit)|
    ensures GetStats(noteRows, categoryRows, now).totalNotes == |GetNotes(noteRows, skip, limit, None)|
  {
    var favorites := Filter(noteRows, FavoriteCondition());
    WholeWindow(SortByUpdatedDesc(favorites), skip, limit);
    var all := Filter(noteRows, CategoryCondition(None));
    FilterAgrees(noteRows, CategoryCondition(None), n => true);
    AllKept(noteRows);
    WholeWindow(SortByUpdatedDesc(all), skip, limit);
  }

  lemma {:induction false} AllKept<T(!new)>(s: seq<T>)
    ensures Filter(s, x => true) == s
  {
    if s != [] {
      AllKept(s[1..]);
      assert s == [s[0]] + s[1..];
    }
  }
}
