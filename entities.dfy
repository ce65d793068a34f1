/** The two entities that the lending ledger changes in place: a book of the
    catalogue with its copy counts, and the loan record of one borrow. */
module Entities {
  import opened Common

  /** Stored by name; nothing writes Overdue. */
  datatype BorrowStatus = Borrowed | Returned | Overdue

  /** The loan period that BorrowBook adds to the borrow date. */
  const LoanPeriodDays: int := 14

  /** A catalogue entry. Its fields are those the controllers read and
      write; the identifier never changes once the book exists. */
  class Book {
    const Id: Guid
    var Title: string
    var Author: string
    var Genre: string
    var Rating: Int32
    var CoverColor: string
    var CoverUrl: string
    var Description: string
    var TotalCopies: Int32
    var AvailableCopies: Int32
    var VideoUrl: string
    var Summary: string

    /** `new Book { ... }` before its initialiser runs: a fresh identifier,
        empty strings and zero counts. */
    constructor (id: Guid)
      ensures Id == id
      ensures Title == "" && Author == "" && Genre == "" && CoverColor == ""
      ensures CoverUrl == "" && Description == "" && VideoUrl == "" && Summary == ""
      ensures Rating == 0 && TotalCopies == 0 && AvailableCopies == 0
    {
      Id := id;
      Title, Author, Genre, CoverColor := "", "", "", "";
      CoverUrl, Description, VideoUrl, Summary := "", "", "", "";
      Rating, TotalCopies, AvailableCopies := 0, 0, 0;
    }
  }

  /** One loan: who borrowed which book, when, and whether it came back. */
  class BorrowRecord {
    const Id: Guid
    var UserId: Guid
    var BookId: Guid
    var BorrowDate: DateTime
    var DueDate: DateTime
    var ReturnDate: Option<DateTime>
    var Status: BorrowStatus
    var CreatedAt: DateTime

    /** `new BorrowRecord()` with its field initialisers: a fresh identifier
        (`id`, drawn by the caller), `BorrowDate`, `CreatedAt` and, notably,
        `ReturnDate` all set to the creation time `now`, status Borrowed, and
        the remaining fields at their defaults (`Guid.Empty`,
        `DateTime.MinValue`). */
    constructor (id: Guid, now: DateTime)
      ensures Id == id && UserId == 0 && BookId == 0
      ensures BorrowDate == now && CreatedAt == now && DueDate == 0
      ensures ReturnDate == Some(now)
      ensures Status == Borrowed
    {
      Id := id;
      UserId, BookId := 0, 0;
      BorrowDate, DueDate, CreatedAt := now, 0, now;
      ReturnDate := Some(now);
      Status := Borrowed;
    }
  }
}
