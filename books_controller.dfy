/** The catalogue endpoints: listing and reading books as DTOs, and adding a
    book with every copy on the shelf. */
module Catalog {
  import opened Common
  import opened Entities
  import opened BookStore
  import opened LoanStore
  import opened Validation
  import opened Lending

  /** `BookDto`: the twelve fields the catalogue endpoints expose. */
  datatype BookDto = BookDto(
    Id: Guid,
    Title: string,
    Author: string,
    Genre: string,
    Rating: Int32,
    CoverColor: string,
    CoverUrl: string,
    Description: string,
    TotalCopies: Int32,
    VideoUrl: string,
    Summary: string,
    AvailableCopies: Int32)

  /** `d` shows every exposed field of `b` as it is stored. */
  predicate Shows(d: BookDto, b: Book)
    reads b
  {
    && d.Id == b.Id && d.Title == b.Title && d.Author == b.Author && d.Genre == b.Genre
    && d.Rating == b.Rating && d.CoverColor == b.CoverColor && d.CoverUrl == b.CoverUrl
    && d.Description == b.Description && d.TotalCopies == b.TotalCopies
    && d.VideoUrl == b.VideoUrl && d.Summary == b.Summary
    && d.AvailableCopies == b.AvailableCopies
  }

  /** The object initializer that maps a book to its DTO. */
  function ToDto(b: Book): (d: BookDto)
    reads b
    ensures Shows(d, b)
  {
    BookDto(b.Id, b.Title, b.Author, b.Genre, b.Rating, b.CoverColor, b.CoverUrl,
            b.Description, b.TotalCopies, b.VideoUrl, b.Summary, b.AvailableCopies)
  }

  /** The `Select` of GetBooks: one DTO per book, in order. */
  function ToDtos(bs: seq<Book>): (ds: seq<BookDto>)
    reads set b | b in bs
    ensures |ds| == |bs|
    ensures forall i :: 0 <= i < |bs| ==> Shows(ds[i], bs[i])
  {
    if bs == [] then [] else [ToDto(bs[0])] + ToDtos(bs[1..])
  }

  /** `b` is the book CreateBook builds from `dto`: the descriptive fields
      and the rating copied, every copy on the shelf, no summary yet. */
  predicate BuiltFrom(b: Book, dto: CreateBookDto)
    reads b
  {
    && b.Title == dto.Title && b.Author == dto.Author && b.Genre == dto.Genre
    && b.Rating == dto.Rating && b.CoverColor == dto.CoverColor && b.CoverUrl == dto.CoverUrl
    && b.Description == dto.Description && b.VideoUrl == dto.VideoUrl
    && b.TotalCopies == dto.TotalCopies && b.AvailableCopies == dto.TotalCopies
    && b.Summary == ""
  }

  /** The answer the framework gives, before the action runs, to a body its
      data annotations reject. */
  const ValidationProblem: string := "One or more validation errors occurred."

  /** The object initializer of CreateBook: a new book with identifier `id`
      whose fields come from `dto`. No stored book is touched. */
  method BuildBook(dto: CreateBookDto, id: Guid, ghost books: BookRepository) returns (book: Book)
    ensures fresh(book) && book.Id == id && BuiltFrom(book, dto)
    ensures Stocks(books.table) == old(Stocks(books.table))
  {
    book := new Book(id);
    book.Title := dto.Title;
    book.Author := dto.Author;
    book.Genre := dto.Genre;
    book.Rating := dto.Rating;
    book.CoverColor := dto.CoverColor;
    book.CoverUrl := dto.CoverUrl;
    book.Description := dto.Description;
    book.TotalCopies := dto.TotalCopies;
    book.AvailableCopies := dto.TotalCopies;
    book.VideoUrl := dto.VideoUrl;
  }

  /** `AddAsync` seen from the ledger: the new book's copy counts join
      the stocks and every other entry stays. */
  method Store(books: BookRepository, book: Book)
    requires books.Valid() && book.Id !in books.table
    modifies books
    ensures books.Valid()
    ensures books.table == old(books.table)[book.Id := book] && books.order == old(books.order) + [book.Id]
    ensures Stocks(books.table) == old(Stocks(books.table))[book.Id := Stock(book.TotalCopies, book.AvailableCopies)]
  {
    ghost var stocks := Stocks(books.table);
    ghost var table := books.table;
    books.AddAsync(book);
    forall k | k in table
      ensures Stocks(books.table)[k] == stocks[book.Id := Stock(book.TotalCopies, book.AvailableCopies)][k]
    {
      assert table[k].Id == k;
    }
  }

  /** `BooksController` over its book store. */
  class BooksController {
    const repository: BookRepository

    constructor (books: BookRepository)
      ensures repository == books
    {
      repository := books;
    }

    ghost predicate Valid()
      reads repository
    {
      repository.Valid()
    }

    /** Each DTO of `ds` shows a different stored book that passes the
        filters of `q`, and the DTOs are ordered by title when `q` sorts. */
    predicate ListsMatches(q: BookQuery, ds: seq<BookDto>)
      reads repository, repository.table.Values
    {
      && (forall i :: 0 <= i < |ds| ==>
            ds[i].Id in repository.table && Shows(ds[i], repository.table[ds[i].Id])
            && Matches(q, repository.table[ds[i].Id]))
      && (forall i, j :: 0 <= i < j < |ds| ==> ds[i].Id != ds[j].Id)
      && (SortsByTitle(q) ==>
            forall i, j :: 0 <= i < j < |ds| ==>
              if q.IsDescending then LexLe(ds[j].Title, ds[i].Title) else LexLe(ds[i].Title, ds[j].Title))
    }

    /** `GetBooks`: always Ok, one DTO per book of the requested page, in
        the page's order; so each DTO shows a different stored book that
        passes the filters, the DTOs are ordered by title when the query
        sorts, and there are at most `PageSize` of them when it is
        positive. */
    function GetBooks(q: BookQuery): (result: ActionResult<seq<BookDto>>)
      reads repository, repository.table.Values
      requires Valid()
      ensures result.Ok?
      ensures var page, ds := repository.GetAllAsync(q), result.value;
              |ds| == |page| && forall i :: 0 <= i < |ds| ==> Shows(ds[i], page[i])
      ensures ListsMatches(q, result.value)
      ensures q.PageSize == 0 ==> result.value == []
      ensures q.PageSize > 0 ==> |result.value| <= q.PageSize
    {
      var page := repository.GetAllAsync(q);
      var ds := ToDtos(page);
      PageListsMatches(q, page, ds);
      Ok(ds)
    }

    lemma PageListsMatches(q: BookQuery, page: seq<Book>, ds: seq<BookDto>)
      requires Valid() && page == repository.GetAllAsync(q) && ds == ToDtos(page)
      ensures ListsMatches(q, ds)
    {
      forall i | 0 <= i < |ds|
        ensures ds[i].Id in repository.table && repository.table[ds[i].Id] == page[i]
      {
        var id :| id in repository.table && repository.table[id] == page[i];
      }
    }

    /** `GetBook`: NotFound for an unknown identifier, otherwise the DTO of
        the stored book, copy counts included. */
    function GetBook(id: Guid): (result: ActionResult<BookDto>)
      reads repository, repository.table.Values
      requires Valid()
      ensures id !in repository.table <==> result == NotFound(None)
      ensures id in repository.table ==>
                result.Ok? && result.value.Id == id && Shows(result.value, repository.table[id])
    {
      var book := repository.GetByIdAsync(id);
      if book == null then NotFound(None) else Ok(ToDto(book))
    }

    /** `CreateBook`. A body the data annotations reject never reaches the
        action: the answer is BadRequest and nothing is stored. Otherwise
        the new book, built from the DTO with every copy on the shelf, is
        stored under the fresh identifier `newId` and returned as Created;
        GetBook then shows it. A book that no record points at enters the
        ledger consistently. */
    method CreateBook(dto: CreateBookDto, newId: Guid, ghost loans: BorrowRepository)
      returns (result: ActionResult<Book>)
      requires Valid() && newId !in repository.table
      modifies repository
      ensures Valid()
      ensures !AnnotationsHold(dto) ==>
                && result == BadRequest(ValidationProblem)
                && repository.table == old(repository.table) && repository.order == old(repository.order)
      ensures AnnotationsHold(dto) ==>
                && result.Created? && result.id == newId && fresh(result.value)
                && result.value.Id == newId && BuiltFrom(result.value, dto)
                && 1 <= result.value.AvailableCopies == result.value.TotalCopies <= 1000
                && repository.table == old(repository.table)[newId := result.value]
                && repository.order == old(repository.order) + [newId]
                && GetBook(newId) == Ok(ToDto(result.value))
      ensures LedgerConsistent(old(Stocks(repository.table)), LoanStates(loans.table))
              && ActiveLoans(LoanStates(loans.table), newId) == {} ==>
                LedgerConsistent(Stocks(repository.table), LoanStates(loans.table))
    {
      if !AnnotationsHold(dto) {
        return BadRequest(ValidationProblem);
      }
      AnnotationsHoldIff(dto);
      ghost var stocks := Stocks(repository.table);
      var book := BuildBook(dto, newId, repository);
      Store(repository, book);
      if LedgerConsistent(stocks, LoanStates(loans.table)) && ActiveLoans(LoanStates(loans.table), newId) == {} {
        AddBookKeepsLedger(stocks, LoanStates(loans.table), newId, dto.TotalCopies);
      }
      result := Created(newId, book);
    }
  }
}
