/** The book table and its query pipeline: filter by title and genre
    substrings, optionally order by title, then cut out one page. The stages
    work on the identifiers of the rows and read the books from the table. */
module BookStore {
  import opened Common
  import opened Entities

  /** The JSON body of `GET api/books`, bound by `[FromBody]`. */
  datatype BookQuery = BookQuery(
    Title: Option<string>,
    Genre: Option<string>,
    SortBy: Option<string>,
    IsDescending: bool,
    PageNumber: Int32,
    PageSize: Int32)

  /** The defaults of an empty query: first page of twenty, unsorted. */
  const DefaultQuery: BookQuery := BookQuery(None, None, None, false, 1, 20)

  /** Book `b` passes the title and genre filters of `q`; a blank filter
      passes everything. */
  predicate Matches(q: BookQuery, b: Book)
    reads b
  {
    && (IsNullOrWhiteSpace(q.Title) || Contains(b.Title, q.Title.value))
    && (IsNullOrWhiteSpace(q.Genre) || Contains(b.Genre, q.Genre.value))
  }

  /** Every identifier of `ids` names a stored book. */
  predicate Stored(ids: seq<Guid>, table: map<Guid, Book>) {
    forall k :: k in ids ==> k in table
  }

  // -------------------------------------------------------------------------
  // Stages of the pipeline

  /** `Where(b => b.Title.Contains(t))` */
  function WhereTitleContains(ids: seq<Guid>, table: map<Guid, Book>, t: string): (r: seq<Guid>)
    reads table.Values
    requires Stored(ids, table)
    ensures IsSubsequence(r, ids)
    ensures forall k :: k in r <==> k in ids && Contains(table[k].Title, t)
  {
    if ids == [] then []
    else
      var rest := WhereTitleContains(ids[1..], table, t);
      if Contains(table[ids[0]].Title, t) then
        assert ([ids[0]] + rest)[1..] == rest;
        [ids[0]] + rest
      else
        rest
  }

  /** `Where(b => b.Genre.Contains(g))` */
  function WhereGenreContains(ids: seq<Guid>, table: map<Guid, Book>, g: string): (r: seq<Guid>)
    reads table.Values
    requires Stored(ids, table)
    ensures IsSubsequence(r, ids)
    ensures forall k :: k in r <==> k in ids && Contains(table[k].Genre, g)
  {
    if ids == [] then []
    else
      var rest := WhereGenreContains(ids[1..], table, g);
      if Contains(table[ids[0]].Genre, g) then
        assert ([ids[0]] + rest)[1..] == rest;
        [ids[0]] + rest
      else
        rest
  }

  /** Book `a` may precede book `b` in an ordering by title, ascending or
      descending. */
  predicate TitleOrdered(table: map<Guid, Book>, a: Guid, b: Guid, descending: bool)
    reads table.Values
    requires a in table && b in table
  {
    if descending then LexLe(table[b].Title, table[a].Title)
    else LexLe(table[a].Title, table[b].Title)
  }

  predicate SortedByTitle(ids: seq<Guid>, table: map<Guid, Book>, descending: bool)
    reads table.Values
    requires Stored(ids, table)
  {
    forall i, j :: 0 <= i < j < |ids| ==> TitleOrdered(table, ids[i], ids[j], descending)
  }

  /** Places `x` into identifiers already ordered by title. */
  function InsertByTitle(x: Guid, s: seq<Guid>, table: map<Guid, Book>, descending: bool): (r: seq<Guid>)
    reads table.Values
    requires x in table && Stored(s, table)
    ensures multiset(r) == multiset(s) + multiset{x}
    ensures Stored(r, table)
  {
    if s == [] then [x]
    else if TitleOrdered(table, x, s[0], descending) then [x] + s
    else
      assert s == [s[0]] + s[1..];
      [s[0]] + InsertByTitle(x, s[1..], table, descending)
  }

  lemma {:induction false} InsertByTitleSorted(x: Guid, s: seq<Guid>, table: map<Guid, Book>, descending: bool)
    requires x in table && Stored(s, table) && SortedByTitle(s, table, descending)
    ensures SortedByTitle(InsertByTitle(x, s, table, descending), table, descending)
  {
    if s == [] {
    } else if TitleOrdered(table, x, s[0], descending) {
      forall j | 0 < j < |s| ensures TitleOrdered(table, x, s[j], descending) {
        TitleOrderedTransitive(table, x, s[0], s[j], descending);
      }
    } else {
      TitleOrderedTotal(table, x, s[0], descending);
      InsertByTitleSorted(x, s[1..], table, descending);
      var rest := InsertByTitle(x, s[1..], table, descending);
      assert s == [s[0]] + s[1..];
      forall k | 0 <= k < |rest| ensures TitleOrdered(table, s[0], rest[k], descending) {
        assert rest[k] in multiset(rest);
        if rest[k] != x {
          assert rest[k] in multiset(s[1..]);
          var j :| 0 <= j < |s[1..]| && s[1..][j] == rest[k];
          assert s[j + 1] == rest[k];
        }
      }
    }
  }

  /** `OrderBy(b => b.Title)` or `OrderByDescending(b => b.Title)`: the same
      identifiers, ordered by title. */
  function SortByTitle(ids: seq<Guid>, table: map<Guid, Book>, descending: bool): (r: seq<Guid>)
    reads table.Values
    requires Stored(ids, table)
    ensures multiset(r) == multiset(ids)
    ensures Stored(r, table)
    ensures SortedByTitle(r, table, descending)
  {
    if ids == [] then []
    else
      assert ids == [ids[0]] + ids[1..];
      var sorted := SortByTitle(ids[1..], table, descending);
      InsertByTitleSorted(ids[0], sorted, table, descending);
      InsertByTitle(ids[0], sorted, table, descending)
  }

  lemma TitleOrderedTotal(table: map<Guid, Book>, a: Guid, b: Guid, descending: bool)
    requires a in table && b in table
    ensures TitleOrdered(table, a, b, descending) || TitleOrdered(table, b, a, descending)
  {
    LexLeTotal(table[a].Title, table[b].Title);
  }

  lemma TitleOrderedTransitive(table: map<Guid, Book>, a: Guid, b: Guid, c: Guid, descending: bool)
    requires a in table && b in table && c in table
    requires TitleOrdered(table, a, b, descending) && TitleOrdered(table, b, c, descending)
    ensures TitleOrdered(table, a, c, descending)
  {
    if descending {
      LexLeTransitive(table[c].Title, table[b].Title, table[a].Title);
    } else {
      LexLeTransitive(table[a].Title, table[b].Title, table[c].Title);
    }
  }

  /** `Skip(n).Take(size)` as the SQLite store runs it, `LIMIT size OFFSET
      n`: a negative offset skips nothing, a zero limit returns nothing and
      a negative limit sets no bound. So the rows of `s` from position
      `max(n, 0)` on, at most `size` of them when `size` is positive. */
  function Page<T>(s: seq<T>, n: int, size: int): (r: seq<T>)
    ensures size == 0 ==> r == []
    ensures size > 0 ==> |r| <= size
    ensures var k := if n <= 0 then 0 else n;
            && |r| == (if k >= |s| then 0 else if 0 <= size < |s| - k then size else |s| - k)
            && (forall i :: 0 <= i < |r| ==> k + i < |s| && r[i] == s[k + i])
  {
    var skipped := if n <= 0 then s else if n >= |s| then [] else s[n..];
    if size < 0 || size >= |skipped| then skipped else skipped[..size]
  }

  /** Every identifier of a page comes from the sequence paged; GetAllAsync
      uses it to read the page's rows from the table. */
  lemma PageOfStored(s: seq<Guid>, n: int, size: int)
    ensures forall x :: x in Page(s, n, size) ==> x in s
  {
    var r := Page(s, n, size);
    forall x | x in r ensures x in s {
      var i :| 0 <= i < |r| && r[i] == x;
    }
  }

  /** The rows of a page at offset `n`: those of `f` from position
      `max(n, 0)` on, as many as `size` allows and `f` supplies. */
  lemma PageRows(f: seq<Guid>, n: int, size: int, table: map<Guid, Book>, r: seq<Book>)
    requires Stored(f, table)
    requires Stored(Page(f, n, size), table) && r == RowsOf(Page(f, n, size), table)
    ensures var k := if n <= 0 then 0 else n;
            && |r| == (if k >= |f| then 0 else if 0 <= size < |f| - k then size else |f| - k)
            && forall i :: 0 <= i < |r| ==> r[i] == table[f[k + i]]
  {
    var page, k := Page(f, n, size), if n <= 0 then 0 else n;
    forall i | 0 <= i < |r| ensures r[i] == table[f[k + i]] {
      assert r[i] == table[page[i]] && page[i] == f[k + i];
    }
  }

  /** A page of distinct identifiers has distinct identifiers; with
      RowsDistinct it gives GetAllAsync its distinct rows. */
  lemma PageNoDup(s: seq<Guid>, n: int, size: int)
    requires NoDup(s)
    ensures NoDup(Page(s, n, size))
  {
    var r, k := Page(s, n, size), if n <= 0 then 0 else n;
    forall i, j | 0 <= i < j < |r| ensures r[i] != r[j] {
      assert r[i] == s[k + i] && r[j] == s[k + j];
    }
  }

  /** Distinct keys of a table whose books carry their own keys name
      distinct books. */
  lemma RowsDistinct(ids: seq<Guid>, table: map<Guid, Book>, r: seq<Book>)
    requires Stored(ids, table) && NoDup(ids) && r == RowsOf(ids, table)
    requires forall id :: id in table ==> table[id].Id == id
    ensures forall i, j :: 0 <= i < j < |r| ==> r[i] != r[j]
  {
    forall i, j | 0 <= i < j < |r| ensures r[i] != r[j] {
      assert r[i].Id == ids[i] && r[j].Id == ids[j];
    }
  }

  /** Books ordered by title, ascending or descending. */
  predicate BooksSortedByTitle(r: seq<Book>, descending: bool)
    reads r
  {
    forall i, j :: 0 <= i < j < |r| ==>
      if descending then LexLe(r[j].Title, r[i].Title) else LexLe(r[i].Title, r[j].Title)
  }

  /** `SortBy` asks for the title ordering. */
  predicate SortsByTitle(q: BookQuery) {
    !IsNullOrWhiteSpace(q.SortBy) && EqualsIgnoreCase(q.SortBy.value, "Title")
  }

  /** `(PageNumber - 1) * PageSize`, computed in unchecked 32-bit arithmetic. */
  function SkipNumber(q: BookQuery): (n: Int32)
    ensures 1 <= q.PageNumber && 0 <= q.PageSize && (q.PageNumber - 1) * q.PageSize <= MaxInt32
            ==> n == (q.PageNumber - 1) * q.PageSize
  {
    Wrap32(Wrap32(q.PageNumber - 1) * q.PageSize)
  }

  /** Solver helper for SkipIsOffset: the sign of a product, which the
      nonlinear arithmetic there does not find unaided. */
  lemma MulNonNegative(a: int, b: int)
    requires 0 <= a && 0 <= b
    ensures 0 <= a * b
  {
  }

  /** The books of `table` in the order given by `ids`. */
  function RowsOf(ids: seq<Guid>, table: map<Guid, Book>): (r: seq<Book>)
    requires Stored(ids, table)
    ensures |r| == |ids| && forall i :: 0 <= i < |ids| ==> r[i] == table[ids[i]]
  {
    if ids == [] then [] else [table[ids[0]]] + RowsOf(ids[1..], table)
  }

  /** The `Books` table: books by identifier, plus the order in which the
      store enumerates them (the order they were added). */
  class BookRepository {
    var table: map<Guid, Book>
    var order: seq<Guid>

    ghost predicate Valid()
      reads this
    {
      && (forall id :: id in table ==> table[id].Id == id)
      && NoDup(order)
      && (forall id :: id in order <==> id in table)
    }

    constructor ()
      ensures Valid() && table == map[] && order == []
    {
      table := map[];
      order := [];
    }

    /** The identifiers of the rows that pass the title and genre filters,
        in store order. */
    function MatchingIds(q: BookQuery): (r: seq<Guid>)
      reads this, table.Values
      requires Valid()
      ensures Stored(r, table)
      ensures forall k :: k in r <==> k in table && Matches(q, table[k])
      ensures IsSubsequence(r, order) && NoDup(r)
      ensures IsNullOrWhiteSpace(q.Title) && IsNullOrWhiteSpace(q.Genre) ==> r == order
    {
      var byTitle := if IsNullOrWhiteSpace(q.Title) then order else WhereTitleContains(order, table, q.Title.value);
      assert forall k :: k in byTitle <==> k in table && (IsNullOrWhiteSpace(q.Title) || Contains(table[k].Title, q.Title.value));
      var byGenre := if IsNullOrWhiteSpace(q.Genre) then byTitle else WhereGenreContains(byTitle, table, q.Genre.value);
      SubsequenceReflexive(order);
      SubsequenceReflexive(byTitle);
      SubsequenceTransitive(byGenre, byTitle, order);
      SubsequenceNoDup(byGenre, order);
      byGenre
    }

    /** The filtered identifiers, each matching book once, ordered by
        title when `SortBy` asks for it and in store order otherwise;
        paging comes after. */
    function FilteredIds(q: BookQuery): (r: seq<Guid>)
      reads this, table.Values
      requires Valid()
      ensures Stored(r, table)
      ensures forall k :: k in r <==> k in table && Matches(q, table[k])
      ensures multiset(r) == multiset(MatchingIds(q)) && NoDup(r)
      ensures SortsByTitle(q) ==> SortedByTitle(r, table, q.IsDescending)
      ensures !SortsByTitle(q) ==> r == MatchingIds(q) && IsSubsequence(r, order)
    {
      var matching := MatchingIds(q);
      if SortsByTitle(q) then
        var r := SortByTitle(matching, table, q.IsDescending);
        assert forall k :: k in r <==> k in matching by {
          forall k ensures k in r <==> k in matching {
            assert k in r <==> k in multiset(r);
          }
        }
        MultisetNoDup(matching, r);
        r
      else
        matching
    }

    /** `GetAllAsync`: one page of the filtered (and possibly sorted) books. */
    function GetAllAsync(q: BookQuery): (r: seq<Book>)
      reads this, table.Values
      requires Valid()
      ensures forall i :: 0 <= i < |r| ==> r[i] in table.Values && Matches(q, r[i])
      ensures SortsByTitle(q) ==> BooksSortedByTitle(r, q.IsDescending)
      ensures forall i, j :: 0 <= i < j < |r| ==> r[i] != r[j]
      ensures q.PageSize == 0 ==> r == []
      ensures q.PageSize > 0 ==> |r| <= q.PageSize
    {
      var f := FilteredIds(q);
      var page := Page(f, SkipNumber(q), q.PageSize);
      PageOfStored(f, SkipNumber(q), q.PageSize);
      var r := RowsOf(page, table);
      PageRowsFacts(q, f, SkipNumber(q), page, r);
      PageNoDup(f, SkipNumber(q), q.PageSize);
      RowsDistinct(page, table, r);
      r
    }

    /** The per-row facts of GetAllAsync's contract: each row is stored and
        matching, and the rows keep the title order of the filtered ids. */
    lemma PageRowsFacts(q: BookQuery, f: seq<Guid>, k: int, page: seq<Guid>, r: seq<Book>)
      requires Stored(f, table)
      requires forall x :: x in f ==> Matches(q, table[x])
      requires SortsByTitle(q) ==> SortedByTitle(f, table, q.IsDescending)
      requires page == Page(f, k, q.PageSize)
      requires Stored(page, table) && r == RowsOf(page, table)
      ensures forall i :: 0 <= i < |r| ==> r[i] in table.Values && Matches(q, r[i])
      ensures SortsByTitle(q) ==> BooksSortedByTitle(r, q.IsDescending)
    {
      var k0 := if k <= 0 then 0 else k;
      forall i | 0 <= i < |r| ensures r[i] in table.Values && Matches(q, r[i]) {
        assert page[i] == f[k0 + i];
        assert page[i] in f;
      }
      if SortsByTitle(q) {
        forall i, j | 0 <= i < j < |r|
          ensures if q.IsDescending then LexLe(r[j].Title, r[i].Title) else LexLe(r[i].Title, r[j].Title)
        {
          assert page[i] == f[k0 + i] && page[j] == f[k0 + j];
          assert TitleOrdered(table, f[k0 + i], f[k0 + j], q.IsDescending);
        }
      }
    }

    /** With a page number of at least one and a product that fits in an
        `int`, the skip count is `(PageNumber - 1) * PageSize`, without
        wrap-around, and so not negative. */
    lemma SkipIsOffset(q: BookQuery)
      requires 1 <= q.PageNumber && 0 <= q.PageSize && (q.PageNumber - 1) * q.PageSize <= MaxInt32
      ensures SkipNumber(q) == (q.PageNumber - 1) * q.PageSize
      ensures 0 <= SkipNumber(q)
    {
      MulNonNegative(q.PageNumber - 1, q.PageSize);
    }

    /** The page holds the filtered rows from the skip count `k` on (from
        the start when `k` is negative), as many as a non-negative
        `PageSize` allows and the filtered rows supply; a negative
        `PageSize` sets no bound. */
    lemma PageIsSlice(q: BookQuery)
      requires Valid()
      ensures var f, r := FilteredIds(q), GetAllAsync(q);
              var k := if SkipNumber(q) <= 0 then 0 else SkipNumber(q);
              && |r| == (if k >= |f| then 0 else if 0 <= q.PageSize < |f| - k then q.PageSize else |f| - k)
              && forall i :: 0 <= i < |r| ==> r[i] == table[f[k + i]]
    {
      var f, n := FilteredIds(q), SkipNumber(q);
      PageOfStored(f, n, q.PageSize);
      PageRows(f, n, q.PageSize, table, GetAllAsync(q));
    }

    /** The JSON body `{}` lists the first twenty books in store order. */
    lemma DefaultQueryFirstPage()
      requires Valid()
      ensures var r := GetAllAsync(DefaultQuery);
              && |r| == (if |order| < 20 then |order| else 20)
              && forall i :: 0 <= i < |r| ==> r[i] == table[order[i]]
    {
      assert SkipNumber(DefaultQuery) == 0;
      assert !SortsByTitle(DefaultQuery);
      PageIsSlice(DefaultQuery);
    }

    /** `GetByIdAsync`: the book with that identifier, or null. */
    function GetByIdAsync(id: Guid): (b: Book?)
      reads this
      requires Valid()
      ensures b == null <==> id !in table
      ensures b != null ==> b.Id == id && b in table.Values
    {
      if id in table then table[id] else null
    }

    /** The book stored under `id`, as a frame: empty when there is none. */
    function Entry(id: Guid): set<Book>
      reads this
    {
      if id in table then {table[id]} else {}
    }

    /** `AddAsync`: the new book becomes retrievable and is enumerated last. */
    method AddAsync(book: Book)
      requires Valid()
      requires book.Id !in table
      modifies this
      ensures Valid()
      ensures table == old(table)[book.Id := book]
      ensures order == old(order) + [book.Id]
      ensures GetByIdAsync(book.Id) == book
    {
      table := table[book.Id := book];
      order := order + [book.Id];
    }

    /** `UpdateAsync`: the stored book with that identifier is replaced;
        every other book and the enumeration order stay as they were. */
    method UpdateAsync(book: Book)
      requires Valid()
      requires book.Id in table
      modifies this
      ensures Valid()
      ensures table == old(table)[book.Id := book] && order == old(order)
      ensures GetByIdAsync(book.Id) == book
      ensures forall id :: id != book.Id ==> GetByIdAsync(id) == old(GetByIdAsync(id))
    {
      table := table[book.Id := book];
    }

    /** `DeleteAsync`: removes the book if it is present; an unknown
        identifier changes nothing. */
    method DeleteAsync(id: Guid)
      requires Valid()
      modifies this
      ensures Valid()
      ensures table == old(table) - {id}
      ensures order == RemoveKey(old(order), id)
      ensures GetByIdAsync(id) == null
      ensures id !in old(table) ==> table == old(table) && order == old(order)
    {
      if id in table {
        table := table - {id};
        order := RemoveKey(order, id);
      } else {
        RemoveAbsentKey(order, id);
      }
    }
  }

  lemma {:induction false} RemoveAbsentKey(order: seq<Guid>, k: Guid)
    requires k !in order
    ensures RemoveKey(order, k) == order
  {
    if order != [] {
      RemoveAbsentKey(order[1..], k);
      assert order == [order[0]] + order[1..];
    }
  }
}
