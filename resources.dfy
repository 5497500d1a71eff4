/**
 * The media-type-aware catalogue: a Books table of resources keyed by
 * (title, author, media type).  This module holds the copy-count policy,
 * the table that an add leaves behind, and the search (a conjunctive filter
 * followed by an ordering).
 */
module Resources {
  import opened Outcomes
  import opened Tables

  datatype MediaType = EBook | Audiobook | Physical

  /** E-books and audiobooks are digital; only physical items have a real copy count. */
  predicate IsDigital(m: MediaType) { m == EBook || m == Audiobook }

  /** Copies a new digital item gets when none (or zero) are supplied. */
  const DigitalCopies := 9999
  /** Copies a new physical item gets when none (or zero) are supplied. */
  const PhysicalCopies := 1

  datatype Resource = Resource(id: int, title: string, author: string, genre: string,
                               mediaType: MediaType, availableCopies: int, image: Option<string>)

  /** The body of POST /api/books/; the copy count and the image are optional. */
  datatype ResourceRequest = ResourceRequest(title: string, author: string, genre: string,
                                             mediaType: MediaType, availableCopies: Option<int>,
                                             image: Option<string>)

  /** An optional count is truthy when present and non-zero. */
  predicate Truthy(n: Option<int>) { n.Some? && n.value != 0 }

  /** The copy count of a newly inserted item: never zero. */
  function InitialCopies(req: ResourceRequest): (n: int)
    ensures n != 0
    ensures Truthy(req.availableCopies) ==> n == req.availableCopies.value
    ensures !Truthy(req.availableCopies) && IsDigital(req.mediaType) ==> n == DigitalCopies
    ensures !Truthy(req.availableCopies) && !IsDigital(req.mediaType) ==> n == PhysicalCopies
  {
    if Truthy(req.availableCopies) then req.availableCopies.value
    else if IsDigital(req.mediaType) then DigitalCopies
    else PhysicalCopies
  }

  /** The copies added to an existing physical item: never zero. */
  function CopyIncrement(req: ResourceRequest): (n: int)
    ensures n != 0
    ensures Truthy(req.availableCopies) ==> n == req.availableCopies.value
    ensures !Truthy(req.availableCopies) ==> n == 1
  {
    if Truthy(req.availableCopies) then req.availableCopies.value else 1
  }

  /** Selects the rows with the request's title, author and media type. */
  function SameItem(req: ResourceRequest): Resource -> bool
  {
    (r: Resource) => r.title == req.title && r.author == req.author && r.mediaType == req.mediaType
  }

  /** The existing row add_book finds for the request, if any. */
  function FindResource(rows: seq<Resource>, req: ResourceRequest): (k: Option<nat>)
    ensures k.None? <==> forall i :: 0 <= i < |rows| ==> !SameItem(req)(rows[i])
    ensures k.Some? ==> k.value < |rows| && SameItem(req)(rows[k.value])
  {
    FirstWhere(rows, SameItem(req))
  }

  /** No two rows share (title, author, media type). */
  predicate KeysUnique(rows: seq<Resource>)
  {
    forall i, j ::
      0 <= i < |rows| && 0 <= j < |rows| &&
      rows[i].title == rows[j].title && rows[i].author == rows[j].author && rows[i].mediaType == rows[j].mediaType
      ==> i == j
  }

  /** id is the primary key. */
  predicate IdsUnique(rows: seq<Resource>)
  {
    forall i, j :: 0 <= i < |rows| && 0 <= j < |rows| && rows[i].id == rows[j].id ==> i == j
  }

  // ---------------------------------------------------------------------
  // add_book
  // ---------------------------------------------------------------------

  /** The row inserted for a new item. */
  function NewResource(id: int, req: ResourceRequest): Resource
  {
    Resource(id, req.title, req.author, req.genre, req.mediaType, InitialCopies(req), req.image)
  }

  /** The table after every row with that id gets `inc` more available copies. */
  function CopiesAddedById(rows: seq<Resource>, id: int, inc: int): seq<Resource>
  {
    seq(|rows|, j requires 0 <= j < |rows| =>
      if rows[j].id == id then rows[j].(availableCopies := rows[j].availableCopies + inc) else rows[j])
  }

  /** The table add_book leaves: unchanged, one row's copies raised, or one row appended. */
  function Upserted(rows: seq<Resource>, newId: int, req: ResourceRequest): seq<Resource>
  {
    match FindResource(rows, req)
    case None => rows + [NewResource(newId, req)]
    case Some(k) =>
      if IsDigital(req.mediaType) then rows
      else CopiesAddedById(rows, rows[k].id, CopyIncrement(req))
  }

  /** With id a key, adding copies by the id of row k changes row k's count and nothing else. */
  lemma CopiesAddedByIdIsPointUpdate(rows: seq<Resource>, k: nat, inc: int)
    requires IdsUnique(rows) && k < |rows|
    ensures CopiesAddedById(rows, rows[k].id, inc)
         == rows[k := rows[k].(availableCopies := rows[k].availableCopies + inc)]
  {
    var c := CopiesAddedById(rows, rows[k].id, inc);
    forall j | 0 <= j < |rows|
      ensures c[j] == rows[k := rows[k].(availableCopies := rows[k].availableCopies + inc)][j]
    {
      if j != k {
        assert rows[j].id != rows[k].id;
      }
    }
  }

  /** add_book keeps (title, author, media type) unique. */
  lemma UpsertKeepsKeysUnique(rows: seq<Resource>, newId: int, req: ResourceRequest)
    requires KeysUnique(rows)
    ensures KeysUnique(Upserted(rows, newId, req))
  {
    var out := Upserted(rows, newId, req);
    match FindResource(rows, req)
    case None =>
      assert forall i :: 0 <= i < |rows| ==> !SameItem(req)(rows[i]);
    case Some(k) =>
      if !IsDigital(req.mediaType) {
        assert forall j :: 0 <= j < |rows| ==>
          out[j].title == rows[j].title && out[j].author == rows[j].author && out[j].mediaType == rows[j].mediaType;
      }
  }

  /** After add_book the requested item is in the table. */
  lemma UpsertedItemIsFound(rows: seq<Resource>, newId: int, req: ResourceRequest)
    ensures FindResource(Upserted(rows, newId, req), req).Some?
  {
    var out := Upserted(rows, newId, req);
    match FindResource(rows, req)
    case None =>
      assert SameItem(req)(out[|rows|]);
    case Some(k) =>
      assert SameItem(req)(out[k]);
  }

  /** Adding the same digital item twice leaves the table as adding it once. */
  lemma DigitalAddIsIdempotent(rows: seq<Resource>, id1: int, id2: int, req: ResourceRequest)
    requires IsDigital(req.mediaType)
    ensures Upserted(Upserted(rows, id1, req), id2, req) == Upserted(rows, id1, req)
  {
    UpsertedItemIsFound(rows, id1, req);
  }

  /**
   * Adding the same physical item twice, when it is already present, raises
   * its count by twice the increment and changes no other row or field.
   */
  lemma PhysicalAddTwice(rows: seq<Resource>, id1: int, id2: int, req: ResourceRequest)
    requires IdsUnique(rows) && !IsDigital(req.mediaType) && FindResource(rows, req).Some?
    ensures var k := FindResource(rows, req).value;
      Upserted(Upserted(rows, id1, req), id2, req)
        == rows[k := rows[k].(availableCopies := rows[k].availableCopies + 2 * CopyIncrement(req))]
  {
    var k := FindResource(rows, req).value;
    var inc := CopyIncrement(req);
    CopiesAddedByIdIsPointUpdate(rows, k, inc);
    var once := Upserted(rows, id1, req);
    assert once == rows[k := rows[k].(availableCopies := rows[k].availableCopies + inc)];
    assert FindResource(once, req) == Some(k) by {
      assert forall j :: 0 <= j < |rows| ==> SameItem(req)(once[j]) == SameItem(req)(rows[j]);
    }
    assert IdsUnique(once) by {
      assert forall j :: 0 <= j < |rows| ==> once[j].id == rows[j].id;
    }
    CopiesAddedByIdIsPointUpdate(once, k, inc);
  }

  // ---------------------------------------------------------------------
  // search_books
  // ---------------------------------------------------------------------

  /** The whitelisted sort columns that exist in the table. */
  datatype SortColumn = Title | Author
  datatype SortOrder = Asc | Desc

  /** The query string of GET /api/books/; every filter is optional. */
  datatype SearchQuery = SearchQuery(title: Option<string>, author: Option<string>,
                                     genre: Option<string>, mediaType: Option<MediaType>,
                                     sortBy: SortColumn, sortOrder: SortOrder)

  /** One condition of the WHERE clause. */
  datatype Condition =
    | TitleLike(pattern: string)
    | AuthorLike(pattern: string)
    | GenreIs(genre: string)
    | MediaTypeIs(mediaType: MediaType)

  /** A string filter is applied only when present and non-empty. */
  predicate Given(s: Option<string>) { s.Some? && s.value != "" }

  /** `needle` occurs in `hay` starting at position i. */
  predicate OccursAt(needle: string, hay: string, i: nat)
  {
    i + |needle| <= |hay| && hay[i..i + |needle|] == needle
  }

  /** LIKE '%needle%' */
  predicate Contains(hay: string, needle: string)
  {
    exists i: nat :: i <= |hay| && OccursAt(needle, hay, i)
  }

  /** The conditions appended one by one, in the order title, author, genre, media type. */
  function Conditions(q: SearchQuery): seq<Condition>
  {
    (if Given(q.title) then [TitleLike(q.title.value)] else []) +
    (if Given(q.author) then [AuthorLike(q.author.value)] else []) +
    (if Given(q.genre) then [GenreIs(q.genre.value)] else []) +
    (if q.mediaType.Some? then [MediaTypeIs(q.mediaType.value)] else [])
  }

  predicate Holds(c: Condition, r: Resource)
  {
    match c
    case TitleLike(p) => Contains(r.title, p)
    case AuthorLike(p) => Contains(r.author, p)
    case GenreIs(g) => r.genre == g
    case MediaTypeIs(m) => r.mediaType == m
  }

  /** Every condition holds of r; no condition at all is "1=1". */
  predicate AllHold(cs: seq<Condition>, r: Resource)
  {
    forall i :: 0 <= i < |cs| ==> Holds(cs[i], r)
  }

  lemma AllHoldConcat(cs: seq<Condition>, ds: seq<Condition>, r: Resource)
    ensures AllHold(cs + ds, r) <==> AllHold(cs, r) && AllHold(ds, r)
  {
    if AllHold(cs, r) && AllHold(ds, r) {
      forall i | 0 <= i < |cs + ds| ensures Holds((cs + ds)[i], r) {
        if i >= |cs| { assert (cs + ds)[i] == ds[i - |cs|]; }
      }
    }
    if AllHold(cs + ds, r) {
      forall i | 0 <= i < |cs| ensures Holds(cs[i], r) {
        assert (cs + ds)[i] == cs[i];
      }
      forall i | 0 <= i < |ds| ensures Holds(ds[i], r) {
        assert (cs + ds)[i + |cs|] == ds[i];
      }
    }
  }

  lemma AllHoldOne(c: Condition, r: Resource)
    ensures AllHold([c], r) <==> Holds(c, r)
  {
    assert [c][0] == c;
  }

  /** The conditions joined with AND. */
  function WhereClause(q: SearchQuery): Resource -> bool
  {
    (r: Resource) => AllHold(Conditions(q), r)
  }

  /** What a row must satisfy, filter by filter: substrings for title and author, equality otherwise. */
  predicate Matches(q: SearchQuery, r: Resource)
  {
    (Given(q.title) ==> Contains(r.title, q.title.value)) &&
    (Given(q.author) ==> Contains(r.author, q.author.value)) &&
    (Given(q.genre) ==> r.genre == q.genre.value) &&
    (q.mediaType.Some? ==> r.mediaType == q.mediaType.value)
  }

  /** The assembled WHERE clause accepts exactly the rows that match every supplied filter. */
  lemma WhereClauseIsMatches(q: SearchQuery, r: Resource)
    ensures WhereClause(q)(r) <==> Matches(q, r)
  {
    var t := if Given(q.title) then [TitleLike(q.title.value)] else [];
    var a := if Given(q.author) then [AuthorLike(q.author.value)] else [];
    var g := if Given(q.genre) then [GenreIs(q.genre.value)] else [];
    var m := if q.mediaType.Some? then [MediaTypeIs(q.mediaType.value)] else [];
    assert Conditions(q) == t + a + g + m;
    AllHoldConcat(t + a + g, m, r);
    AllHoldConcat(t + a, g, r);
    AllHoldConcat(t, a, r);
    if Given(q.title) { AllHoldOne(t[0], r); }
    if Given(q.author) { AllHoldOne(a[0], r); }
    if Given(q.genre) { AllHoldOne(g[0], r); }
    if q.mediaType.Some? { AllHoldOne(m[0], r); }
    assert AllHold(t, r) <==> (Given(q.title) ==> Contains(r.title, q.title.value));
    assert AllHold(a, r) <==> (Given(q.author) ==> Contains(r.author, q.author.value));
    assert AllHold(g, r) <==> (Given(q.genre) ==> r.genre == q.genre.value);
    assert AllHold(m, r) <==> (q.mediaType.Some? ==> r.mediaType == q.mediaType.value);
  }

  /** No supplied filter means no condition, so every row passes. */
  lemma NoFiltersNoConditions(q: SearchQuery, r: Resource)
    requires !Given(q.title) && !Given(q.author) && !Given(q.genre) && q.mediaType.None?
    ensures Conditions(q) == [] && WhereClause(q)(r)
  {
  }

  /** Lexicographic order on strings by character code; a prefix comes first. */
  predicate LexLe(a: string, b: string)
  {
    if |a| == 0 then true
    else if |b| == 0 then false
    else if a[0] != b[0] then a[0] < b[0]
    else LexLe(a[1..], b[1..])
  }

  lemma {:induction false} LexLeTotal(a: string, b: string)
    ensures LexLe(a, b) || LexLe(b, a)
  {
    if |a| > 0 && |b| > 0 && a[0] == b[0] {
      LexLeTotal(a[1..], b[1..]);
    }
  }

  lemma {:induction false} LexLeTransitive(a: string, b: string, c: string)
    requires LexLe(a, b) && LexLe(b, c)
    ensures LexLe(a, c)
  {
    if |a| > 0 && |b| > 0 && |c| > 0 && a[0] == b[0] && b[0] == c[0] {
      LexLeTransitive(a[1..], b[1..], c[1..]);
    }
  }

  function SortKey(col: SortColumn, r: Resource): string
  {
    match col
    case Title => r.title
    case Author => r.author
  }

  /** x may come before y under ORDER BY col ASC or DESC. */
  predicate InOrder(col: SortColumn, ord: SortOrder, x: Resource, y: Resource)
  {
    match ord
    case Asc => LexLe(SortKey(col, x), SortKey(col, y))
    case Desc => LexLe(SortKey(col, y), SortKey(col, x))
  }

  lemma InOrderTotal(col: SortColumn, ord: SortOrder, x: Resource, y: Resource)
    ensures InOrder(col, ord, x, y) || InOrder(col, ord, y, x)
  {
    LexLeTotal(SortKey(col, x), SortKey(col, y));
  }

  lemma InOrderTransitive(col: SortColumn, ord: SortOrder, x: Resource, y: Resource, z: Resource)
    requires InOrder(col, ord, x, y) && InOrder(col, ord, y, z)
    ensures InOrder(col, ord, x, z)
  {
    match ord
    case Asc => LexLeTransitive(SortKey(col, x), SortKey(col, y), SortKey(col, z));
    case Desc => LexLeTransitive(SortKey(col, z), SortKey(col, y), SortKey(col, x));
  }

  predicate SortedBy(s: seq<Resource>, col: SortColumn, ord: SortOrder)
  {
    forall i, j :: 0 <= i < j < |s| ==> InOrder(col, ord, s[i], s[j])
  }

  /** Places x before the first row it may precede. */
  function Insert(x: Resource, s: seq<Resource>, col: SortColumn, ord: SortOrder): (r: seq<Resource>)
    ensures multiset(r) == multiset(s) + multiset{x}
  {
    if |s| == 0 then [x]
    else if InOrder(col, ord, x, s[0]) then [x] + s
    else
      assert s == [s[0]] + s[1..];
      [s[0]] + Insert(x, s[1..], col, ord)
  }

  /** A row that may precede the head of a sorted sequence may precede all of it. */
  lemma PrependKeepsSorted(x: Resource, s: seq<Resource>, col: SortColumn, ord: SortOrder)
    requires SortedBy(s, col, ord) && |s| > 0 && InOrder(col, ord, x, s[0])
    ensures SortedBy([x] + s, col, ord)
  {
    var r := [x] + s;
    forall i, j | 0 <= i < j < |r| ensures InOrder(col, ord, r[i], r[j]) {
      if i == 0 {
        if j > 1 { InOrderTransitive(col, ord, x, s[0], s[j - 1]); }
      } else {
        assert r[i] == s[i - 1] && r[j] == s[j - 1];
      }
    }
  }

  /** A row that may precede every element of a sorted sequence keeps it sorted in front. */
  lemma ConsKeepsSorted(y: Resource, s: seq<Resource>, col: SortColumn, ord: SortOrder)
    requires SortedBy(s, col, ord)
    requires forall z :: z in s ==> InOrder(col, ord, y, z)
    ensures SortedBy([y] + s, col, ord)
  {
    var r := [y] + s;
    forall i, j | 0 <= i < j < |r| ensures InOrder(col, ord, r[i], r[j]) {
      if i == 0 {
        assert r[j] == s[j - 1];
        assert s[j - 1] in s;
      } else {
        assert r[i] == s[i - 1] && r[j] == s[j - 1];
      }
    }
  }

  lemma {:induction false} InsertKeepsSorted(x: Resource, s: seq<Resource>, col: SortColumn, ord: SortOrder)
    requires SortedBy(s, col, ord)
    ensures SortedBy(Insert(x, s, col, ord), col, ord)
  {
    if |s| == 0 {
    } else if InOrder(col, ord, x, s[0]) {
      PrependKeepsSorted(x, s, col, ord);
    } else {
      var tail := s[1..];
      var rest := Insert(x, tail, col, ord);
      assert SortedBy(tail, col, ord);
      InsertKeepsSorted(x, tail, col, ord);
      InOrderTotal(col, ord, x, s[0]);
      forall y | y in rest ensures InOrder(col, ord, s[0], y) {
        assert y in multiset(rest);
        if y != x {
          assert y in multiset(tail);
          var m :| 0 <= m < |tail| && tail[m] == y;
          assert s[m + 1] == y;
        }
      }
      ConsKeepsSorted(s[0], rest, col, ord);
    }
  }

  /** ORDER BY col ord: a sorted permutation (ties kept in table order). */
  function Sort(s: seq<Resource>, col: SortColumn, ord: SortOrder): (r: seq<Resource>)
    ensures multiset(r) == multiset(s)
    ensures SortedBy(r, col, ord)
  {
    if |s| == 0 then []
    else
      assert s == [s[0]] + s[1..];
      var sorted := Sort(s[1..], col, ord);
      InsertKeepsSorted(s[0], sorted, col, ord);
      Insert(s[0], sorted, col, ord)
  }

  /**
   * GET /api/books/: the rows that satisfy every supplied filter, ordered by
   * the sort column in the requested direction.
   */
  function SearchBooks(rows: seq<Resource>, q: SearchQuery): (r: seq<Resource>)
    ensures forall x :: x in r <==> x in rows && Matches(q, x)
    ensures forall x :: multiset(r)[x] == if Matches(q, x) then multiset(rows)[x] else 0
    ensures SortedBy(r, q.sortBy, q.sortOrder)
  {
    var kept := Where(rows, WhereClause(q));
    assert forall x :: WhereClause(q)(x) == Matches(q, x) by {
      forall x { WhereClauseIsMatches(q, x); }
    }
    Sort(kept, q.sortBy, q.sortOrder)
  }

  /** With no filters the search returns every row, reordered. */
  lemma SearchWithoutFiltersReturnsAll(rows: seq<Resource>, q: SearchQuery)
    requires !Given(q.title) && !Given(q.author) && !Given(q.genre) && q.mediaType.None?
    ensures multiset(SearchBooks(rows, q)) == multiset(rows)
  {
  }
}
