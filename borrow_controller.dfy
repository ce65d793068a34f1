/** The lending ledger: borrowing a copy of a book, returning it, and the
    caller's borrow history. Two keyed tables change together here, the
    books (their `AvailableCopies`) and the borrow records. */
module Lending {
  import opened Common
  import opened Entities
  import opened BookStore
  import opened LoanStore

  /** The body of a successful borrow: a message and the new record's id. */
  datatype BorrowReceipt = BorrowReceipt(message: string, recordId: Guid)

  /** `UserBorrowHistoryDto` */
  datatype BorrowHistory = BorrowHistory(
    RecordId: Guid,
    BookTitle: string,
    Author: string,
    BorrowDate: DateTime,
    DueDate: DateTime,
    ReturnDate: Option<DateTime>,
    Status: BorrowStatus)

  /** What the ledger needs of one book: its copies in all and on the shelf. */
  datatype Stock = Stock(total: Int32, available: Int32)

  /** The ledger's view of the stored books. */
  function Stocks(books: map<Guid, Book>): map<Guid, Stock>
    reads books.Values
  {
    map id | id in books :: Stock(books[id].TotalCopies, books[id].AvailableCopies)
  }

  /** One book's accounts: the copies not on the shelf are exactly its
      loans not yet returned, and the shelf count is never negative. */
  predicate LedgerEntry(stock: Stock, active: set<Guid>) {
    0 <= stock.available && stock.total - stock.available == |active|
  }

  /** The ledger's accounting invariant, for every stored book. */
  predicate LedgerConsistent(stocks: map<Guid, Stock>, loans: map<Guid, LoanState>) {
    forall id {:trigger ActiveLoans(loans, id)} :: id in stocks ==> LedgerEntry(stocks[id], ActiveLoans(loans, id))
  }

  /** `userId` holds a loan of `bookId` that is still out. */
  predicate HoldsActiveLoan(loans: map<Guid, LoanState>, userId: Guid, bookId: Guid) {
    exists id :: id in ActiveLoans(loans, bookId) && loans[id].userId == userId
  }

  /** No user holds two loans of the same book that are both still out. */
  predicate SingleActiveLoan(loans: map<Guid, LoanState>) {
    forall i, j :: i in loans && j in loans && i != j
      && loans[i].status != Returned && loans[j].status != Returned
      && loans[i].bookId == loans[j].bookId
      ==> loans[i].userId != loans[j].userId
  }

  /** `r` is the record BorrowBook creates for `userId` and `bookId` at
      time `now`: out, not returned, due fourteen days later. */
  predicate NewLoan(r: BorrowRecord, userId: Guid, bookId: Guid, now: DateTime)
    reads r
  {
    && r.UserId == userId && r.BookId == bookId
    && r.BorrowDate == now && r.CreatedAt == now
    && r.DueDate == now + LoanPeriodDays * TicksPerDay
    && r.ReturnDate == None && r.Status == Borrowed
  }

  /** Adding a record grows the active loans of its book by that record,
      when it is out, and leaves every other book's active loans alone. */
  lemma ActiveLoansAfterAdd(loans: map<Guid, LoanState>, id: Guid, st: LoanState, bookId: Guid)
    requires id !in loans
    ensures st.bookId == bookId && st.status != Returned ==>
              ActiveLoans(loans[id := st], bookId) == ActiveLoans(loans, bookId) + {id}
    ensures !(st.bookId == bookId && st.status != Returned) ==>
              ActiveLoans(loans[id := st], bookId) == ActiveLoans(loans, bookId)
    ensures |ActiveLoans(loans[id := st], bookId)|
         == |ActiveLoans(loans, bookId)| + (if st.bookId == bookId && st.status != Returned then 1 else 0)
  {
    if st.bookId == bookId && st.status != Returned {
      assert id !in ActiveLoans(loans, bookId);
    }
  }

  /** Lending a copy of `bookId` under the fresh record `id`: one copy fewer
      on the shelf, one more loan out, and the ledger stays consistent. */
  lemma LedgerAfterLend(stocks: map<Guid, Stock>, loans: map<Guid, LoanState>, bookId: Guid, userId: Guid, id: Guid)
    requires LedgerConsistent(stocks, loans)
    requires bookId in stocks && id !in loans && 0 < stocks[bookId].available
    ensures LedgerConsistent(stocks[bookId := Stock(stocks[bookId].total, stocks[bookId].available - 1)],
                             loans[id := LoanState(bookId, userId, Borrowed)])
  {
    var st := LoanState(bookId, userId, Borrowed);
    var stocks', loans' := stocks[bookId := Stock(stocks[bookId].total, stocks[bookId].available - 1)], loans[id := st];
    forall k | k in stocks' ensures LedgerEntry(stocks'[k], ActiveLoans(loans', k)) {
      ActiveLoansAfterAdd(loans, id, st, k);
    }
  }

  /** One copy of `bookId` back on the shelf, when the book is stored, in
      the 32-bit arithmetic of the field. */
  function Restocked(stocks: map<Guid, Stock>, bookId: Guid): map<Guid, Stock> {
    if bookId in stocks
    then stocks[bookId := Stock(stocks[bookId].total, Wrap32(stocks[bookId].available + 1))]
    else stocks
  }

  /** Settling the loan `id`, which is still out: its book, when stored,
      had a copy off the shelf, so the copy put back cannot overflow the
      count, and the ledger stays consistent. */
  lemma LedgerAfterReturn(stocks: map<Guid, Stock>, loans: map<Guid, LoanState>, id: Guid)
    requires LedgerConsistent(stocks, loans)
    requires id in loans && loans[id].status != Returned
    ensures var b := loans[id].bookId;
            b in stocks ==> stocks[b].available + 1 <= stocks[b].total
                            && Restocked(stocks, b)[b].available == stocks[b].available + 1
    ensures LedgerConsistent(Restocked(stocks, loans[id].bookId), loans[id := loans[id].(status := Returned)])
  {
    var b := loans[id].bookId;
    var loans' := loans[id := loans[id].(status := Returned)];
    var stocks' := Restocked(stocks, b);
    assert id in ActiveLoans(loans, b);
    forall k | k in stocks' ensures LedgerEntry(stocks'[k], ActiveLoans(loans', k)) {
      if k == b {
        assert ActiveLoans(loans', k) == ActiveLoans(loans, k) - {id};
      } else {
        assert ActiveLoans(loans', k) == ActiveLoans(loans, k);
      }
    }
  }

  /** A book added with every copy on the shelf, and with no loan yet
      pointing at it, keeps the ledger consistent. */
  lemma AddBookKeepsLedger(stocks: map<Guid, Stock>, loans: map<Guid, LoanState>, id: Guid, copies: Int32)
    requires LedgerConsistent(stocks, loans)
    requires 0 <= copies && ActiveLoans(loans, id) == {}
    ensures LedgerConsistent(stocks[id := Stock(copies, copies)], loans)
  {
  }

  /** The ledger's view of the table `DeleteAsync(id)` leaves: that book's
      entry gone, every other entry kept. */
  lemma StocksAfterDelete(books: map<Guid, Book>, id: Guid)
    ensures Stocks(books - {id}) == Stocks(books) - {id}
  {
  }

  /** `DeleteAsync` keeps the ledger consistent for the books that stay:
      its new table is the old one without `id`. */
  lemma DeleteBookKeepsLedger(books: map<Guid, Book>, loans: map<Guid, LoanState>, id: Guid)
    requires LedgerConsistent(Stocks(books), loans)
    ensures LedgerConsistent(Stocks(books - {id}), loans)
  {
    StocksAfterDelete(books, id);
  }

  /** Settling a loan never gives anyone a second active loan. */
  lemma ReturnKeepsSingleLoan(loans: map<Guid, LoanState>, id: Guid)
    requires id in loans
    ensures SingleActiveLoan(loans) ==> SingleActiveLoan(loans[id := loans[id].(status := Returned)])
  {
  }

  /** A loan of `bookId` opened for a user who already holds one that is
      still out breaks SingleActiveLoan, whatever the other records. */
  lemma LendToHolderBreaksSingleLoan(loans: map<Guid, LoanState>, id: Guid, userId: Guid, bookId: Guid)
    requires HoldsActiveLoan(loans, userId, bookId) && id !in loans
    ensures !SingleActiveLoan(loans[id := LoanState(bookId, userId, Borrowed)])
  {
    var held :| held in ActiveLoans(loans, bookId) && loans[held].userId == userId;
    var loans' := loans[id := LoanState(bookId, userId, Borrowed)];
    assert held in loans' && id in loans' && held != id;
    assert loans'[held].userId == loans'[id].userId;
  }

  /** A loan opened for a user who holds no active loan of that book keeps
      SingleActiveLoan. */
  lemma LendToNewHolderKeepsSingleLoan(loans: map<Guid, LoanState>, id: Guid, userId: Guid, bookId: Guid)
    requires SingleActiveLoan(loans) && !HoldsActiveLoan(loans, userId, bookId) && id !in loans
    ensures SingleActiveLoan(loans[id := LoanState(bookId, userId, Borrowed)])
  {
    var loans' := loans[id := LoanState(bookId, userId, Borrowed)];
    forall i, j | i in loans' && j in loans' && i != j
      && loans'[i].status != Returned && loans'[j].status != Returned
      && loans'[i].bookId == loans'[j].bookId
      ensures loans'[i].userId != loans'[j].userId
    {
      if i == id {
        assert j in ActiveLoans(loans, bookId);
      } else if j == id {
        assert i in ActiveLoans(loans, bookId);
      }
    }
  }

  /** The object initializer of BorrowBook: a new record, whose defaults
      are then overwritten, for `userId` borrowing `bookId` at `now`. */
  method OpenLoan(id: Guid, userId: Guid, bookId: Guid, now: DateTime, ghost books: BookRepository)
    returns (record: BorrowRecord)
    ensures fresh(record) && record.Id == id && NewLoan(record, userId, bookId, now)
    ensures Stocks(books.table) == old(Stocks(books.table))
  {
    record := new BorrowRecord(id, now);
    record.BookId := bookId;
    record.UserId := userId;
    record.BorrowDate := now;
    record.DueDate := now + LoanPeriodDays * TicksPerDay;
    record.Status := Borrowed;
    record.ReturnDate := None;
  }

  /** Moves `delta` copies of `book` onto the shelf, in the 32-bit
      arithmetic of its field, and writes the book back. */
  method Shelve(books: BookRepository, book: Book, delta: int, ghost loans: BorrowRepository)
    requires books.Valid() && book.Id in books.table && books.table[book.Id] == book
    modifies books, book`AvailableCopies
    ensures LoanStates(loans.table) == old(LoanStates(loans.table))
    ensures books.Valid() && books.table == old(books.table) && books.order == old(books.order)
    ensures book.AvailableCopies == Wrap32(old(book.AvailableCopies) + delta)
    ensures Stocks(books.table) == old(Stocks(books.table))[book.Id := Stock(book.TotalCopies, book.AvailableCopies)]
  {
    ghost var table := books.table;
    ghost var stocks := Stocks(table);
    book.AvailableCopies := Wrap32(book.AvailableCopies + delta);
    books.UpdateAsync(book);
    assert table[book.Id := book] == table;
    forall k | k in table ensures Stocks(table)[k] == stocks[book.Id := Stock(book.TotalCopies, book.AvailableCopies)][k] {
      assert table[k].Id == k;
    }
  }

  /** Stamps `record` returned at `now` and writes it back. The books of
      `books` are not touched. */
  method CloseLoan(loans: BorrowRepository, record: BorrowRecord, now: DateTime, ghost books: BookRepository)
    requires loans.Valid() && record.Id in loans.table && loans.table[record.Id] == record
    modifies loans, record`ReturnDate, record`Status
    ensures Stocks(books.table) == old(Stocks(books.table))
    ensures loans.Valid() && loans.table == old(loans.table) && loans.order == old(loans.order)
    ensures record.ReturnDate == Some(now) && record.Status == Returned
    ensures LoanStates(loans.table) == old(LoanStates(loans.table))[record.Id := LoanState(record.BookId, record.UserId, Returned)]
  {
    ghost var table := loans.table;
    ghost var states := LoanStates(table);
    record.ReturnDate := Some(now);
    record.Status := Returned;
    loans.UpdateAsync(record);
    assert table[record.Id := record] == table;
    forall k | k in table ensures LoanStates(table)[k] == states[record.Id := LoanState(record.BookId, record.UserId, Returned)][k] {
      assert table[k].Id == k;
    }
  }

  /** The book `bookId`, when it is still stored, gets one copy back on
      the shelf and is written back. The records of `loans` are not
      touched. */
  method Restock(books: BookRepository, bookId: Guid, ghost loans: BorrowRepository)
    requires books.Valid()
    modifies books, books.Entry(bookId)`AvailableCopies
    ensures LoanStates(loans.table) == old(LoanStates(loans.table))
    ensures books.Valid() && books.table == old(books.table) && books.order == old(books.order)
    ensures bookId in books.table ==>
              books.table[bookId].AvailableCopies == Wrap32(old(books.table[bookId].AvailableCopies) + 1)
    ensures Stocks(books.table) == Restocked(old(Stocks(books.table)), bookId)
  {
    ghost var stocks := Stocks(books.table);
    var book := books.GetByIdAsync(bookId);
    if book != null {
      assert stocks[bookId] == Stock(book.TotalCopies, book.AvailableCopies);
      Shelve(books, book, 1, loans);
    }
  }

  /** `BorrowController`: the two repositories it writes through. The
      user store and the clock are passed to each action. */
  class BorrowController {
    const borrowRepository: BorrowRepository
    const bookRepository: BookRepository

    constructor (borrows: BorrowRepository, books: BookRepository)
      ensures borrowRepository == borrows && bookRepository == books
    {
      borrowRepository := borrows;
      bookRepository := books;
    }

    ghost predicate Valid()
      reads borrowRepository, bookRepository
    {
      borrowRepository.Valid() && bookRepository.Valid()
    }

    predicate Consistent()
      reads bookRepository, borrowRepository
      reads bookRepository.table.Values, borrowRepository.table.Values
    {
      LedgerConsistent(Stocks(bookRepository.table), LoanStates(borrowRepository.table))
    }

    /** The book a record points at, as a frame: empty when the record or
        its book is missing. */
    function LoanedBook(id: Guid): set<Book>
      reads borrowRepository, bookRepository, borrowRepository.table.Values
    {
      if id in borrowRepository.table && borrowRepository.table[id].BookId in bookRepository.table
      then {bookRepository.table[borrowRepository.table[id].BookId]}
      else {}
    }

    /** `BorrowBook`. `caller` is the user id parsed from the name-id claim
        (None when the claim is absent), `users` the ids the user store
        still finds, `now` the clock, and `newRecordId` the fresh `Guid`
        the new record draws. The checks run in order: the book exists,
        there is a caller, the caller still exists, a copy is on the
        shelf. A rejected request changes nothing. */
    method BorrowBook(bookId: Guid, caller: Option<Guid>, users: set<Guid>, now: DateTime, newRecordId: Guid)
      returns (result: ActionResult<BorrowReceipt>)
      requires Valid()
      requires newRecordId !in borrowRepository.table
      modifies bookRepository, borrowRepository, bookRepository.Entry(bookId)`AvailableCopies
      ensures Valid()
      ensures bookId !in old(bookRepository.table) ==> result == NotFound(Some("Book not found"))
      ensures bookId in old(bookRepository.table) && caller.None? ==> result == Unauthorized(None)
      ensures bookId in old(bookRepository.table) && caller.Some? && caller.value !in users ==>
                result == Unauthorized(Some("User no longer exists"))
      ensures bookId in old(bookRepository.table) && caller.Some? && caller.value in users
              && old(bookRepository.table[bookId].AvailableCopies) <= 0 ==>
                result == BadRequest("Book is not available")
      ensures result.Ok? <==>
                bookId in old(bookRepository.table) && caller.Some? && caller.value in users
                && old(bookRepository.table[bookId].AvailableCopies) > 0
      ensures bookRepository.table == old(bookRepository.table)
      ensures bookRepository.order == old(bookRepository.order)
      ensures !result.Ok? ==>
                && borrowRepository.table == old(borrowRepository.table)
                && borrowRepository.order == old(borrowRepository.order)
                && unchanged(bookRepository.Entry(bookId))
      ensures result.Ok? ==>
                && result.value == BorrowReceipt("Book borrowed successfully", newRecordId)
                && bookRepository.table[bookId].AvailableCopies
                   == old(bookRepository.table[bookId].AvailableCopies) - 1
                && newRecordId in borrowRepository.table
                && borrowRepository.table
                   == old(borrowRepository.table)[newRecordId := borrowRepository.table[newRecordId]]
                && borrowRepository.order == old(borrowRepository.order) + [newRecordId]
                && fresh(borrowRepository.table[newRecordId])
                && NewLoan(borrowRepository.table[newRecordId], caller.value, bookId, now)
      ensures result.Ok? ==>
                LoanStates(borrowRepository.table)
                == old(LoanStates(borrowRepository.table))[newRecordId := LoanState(bookId, caller.value, Borrowed)]
      ensures !result.Ok? ==> LoanStates(borrowRepository.table) == old(LoanStates(borrowRepository.table))
      ensures old(Consistent()) ==> Consistent()
    {
      var book := bookRepository.GetByIdAsync(bookId);
      if book == null {
        return NotFound(Some("Book not found"));
      }
      if caller.None? {
        return Unauthorized(None);
      }
      var userId := caller.value;
      if userId !in users {
        return Unauthorized(Some("User no longer exists"));
      }
      if book.AvailableCopies <= 0 {
        return BadRequest("Book is not available");
      }
      ghost var stocks, states := Stocks(bookRepository.table), LoanStates(borrowRepository.table);
      ghost var consistent := Consistent();
      var record := Lend(book, userId, now, newRecordId);
      if consistent {
        LedgerAfterLend(stocks, states, bookId, userId, newRecordId);
      }
      result := Ok(BorrowReceipt("Book borrowed successfully", record.Id));
    }

    /** BorrowBook with the duplicate check its tests expect: once the
        other checks pass, a caller who already holds a copy of the book
        that is still out is refused, and nothing changes. Every other
        outcome is BorrowBook's. This keeps SingleActiveLoan, which
        BorrowBook alone does not. */
    method BorrowBookOnce(bookId: Guid, caller: Option<Guid>, users: set<Guid>, now: DateTime, newRecordId: Guid)
      returns (result: ActionResult<BorrowReceipt>)
      requires Valid()
      requires newRecordId !in borrowRepository.table
      modifies bookRepository, borrowRepository, bookRepository.Entry(bookId)`AvailableCopies
      ensures Valid()
      ensures bookId !in old(bookRepository.table) ==> result == NotFound(Some("Book not found"))
      ensures bookId in old(bookRepository.table) && caller.None? ==> result == Unauthorized(None)
      ensures bookId in old(bookRepository.table) && caller.Some? && caller.value !in users ==>
                result == Unauthorized(Some("User no longer exists"))
      ensures bookId in old(bookRepository.table) && caller.Some? && caller.value in users
              && old(bookRepository.table[bookId].AvailableCopies) <= 0 ==>
                result == BadRequest("Book is not available")
      ensures bookId in old(bookRepository.table) && caller.Some? && caller.value in users
              && old(bookRepository.table[bookId].AvailableCopies) > 0
              && old(HoldsActiveLoan(LoanStates(borrowRepository.table), caller.value, bookId)) ==>
                result == BadRequest("Only one borrow is possible for the same book")
      ensures result.Ok? <==>
                bookId in old(bookRepository.table) && caller.Some? && caller.value in users
                && old(bookRepository.table[bookId].AvailableCopies) > 0
                && !old(HoldsActiveLoan(LoanStates(borrowRepository.table), caller.value, bookId))
      ensures bookRepository.table == old(bookRepository.table)
      ensures bookRepository.order == old(bookRepository.order)
      ensures !result.Ok? ==>
                && borrowRepository.table == old(borrowRepository.table)
                && borrowRepository.order == old(borrowRepository.order)
                && unchanged(bookRepository.Entry(bookId))
                && LoanStates(borrowRepository.table) == old(LoanStates(borrowRepository.table))
      ensures result.Ok? ==>
                && result.value == BorrowReceipt("Book borrowed successfully", newRecordId)
                && bookRepository.table[bookId].AvailableCopies
                   == old(bookRepository.table[bookId].AvailableCopies) - 1
                && newRecordId in borrowRepository.table
                && borrowRepository.table
                   == old(borrowRepository.table)[newRecordId := borrowRepository.table[newRecordId]]
                && borrowRepository.order == old(borrowRepository.order) + [newRecordId]
                && fresh(borrowRepository.table[newRecordId])
                && NewLoan(borrowRepository.table[newRecordId], caller.value, bookId, now)
                && LoanStates(borrowRepository.table)
                   == old(LoanStates(borrowRepository.table))[newRecordId := LoanState(bookId, caller.value, Borrowed)]
      ensures old(SingleActiveLoan(LoanStates(borrowRepository.table))) ==>
                SingleActiveLoan(LoanStates(borrowRepository.table))
      ensures old(Consistent()) ==> Consistent()
    {
      var book := bookRepository.GetByIdAsync(bookId);
      ghost var states := LoanStates(borrowRepository.table);
      if book != null && caller.Some? && caller.value in users && book.AvailableCopies > 0 {
        var mine := borrowRepository.GetByUserIdAsync(caller.value);
        var held := exists i :: 0 <= i < |mine| && mine[i].BookId == bookId && mine[i].Status != Returned;
        HeldIffActive(caller.value, bookId);
        if held {
          return BadRequest("Only one borrow is possible for the same book");
        }
      }
      result := BorrowBook(bookId, caller, users, now, newRecordId);
      if result.Ok? && SingleActiveLoan(states) {
        LendToNewHolderKeepsSingleLoan(states, newRecordId, caller.value, bookId);
      }
    }

    /** Scanning the caller's records for an active loan of the book finds
        one exactly when the ledger says the caller holds one. */
    lemma HeldIffActive(userId: Guid, bookId: Guid)
      requires Valid()
      ensures var mine := borrowRepository.GetByUserIdAsync(userId);
              (exists i :: 0 <= i < |mine| && mine[i].BookId == bookId && mine[i].Status != Returned)
              <==> HoldsActiveLoan(LoanStates(borrowRepository.table), userId, bookId)
    {
      var mine := borrowRepository.GetByUserIdAsync(userId);
      var loans := borrowRepository.table;
      var states := LoanStates(loans);
      if i :| 0 <= i < |mine| && mine[i].BookId == bookId && mine[i].Status != Returned {
        assert mine[i] in loans.Values;
        var id :| id in loans && loans[id] == mine[i];
        assert id in ActiveLoans(states, bookId) && states[id].userId == userId;
      }
      if HoldsActiveLoan(states, userId, bookId) {
        var id :| id in ActiveLoans(states, bookId) && states[id].userId == userId;
        assert loans[id] in mine;
        var i :| 0 <= i < |mine| && mine[i] == loans[id];
      }
    }

    /** Steps 4 to 6 of a borrow that passed its checks: a new record for
        `userId`, one copy fewer on the shelf, the book written back and
        the record added. */
    method Lend(book: Book, userId: Guid, now: DateTime, newRecordId: Guid) returns (record: BorrowRecord)
      requires Valid()
      requires book.Id in bookRepository.table && bookRepository.table[book.Id] == book
      requires 0 < book.AvailableCopies
      requires newRecordId !in borrowRepository.table
      modifies bookRepository, borrowRepository, book`AvailableCopies
      ensures Valid()
      ensures bookRepository.table == old(bookRepository.table)
      ensures bookRepository.order == old(bookRepository.order)
      ensures book.AvailableCopies == old(book.AvailableCopies) - 1
      ensures fresh(record) && record.Id == newRecordId && NewLoan(record, userId, book.Id, now)
      ensures borrowRepository.table == old(borrowRepository.table)[newRecordId := record]
      ensures borrowRepository.order == old(borrowRepository.order) + [newRecordId]
      ensures Stocks(bookRepository.table)
              == old(Stocks(bookRepository.table))[book.Id := Stock(book.TotalCopies, book.AvailableCopies)]
      ensures LoanStates(borrowRepository.table)
              == old(LoanStates(borrowRepository.table))[newRecordId := LoanState(book.Id, userId, Borrowed)]
    {
      record := OpenLoan(newRecordId, userId, book.Id, now, bookRepository);
      Shelve(bookRepository, book, -1, borrowRepository);
      ghost var shelved := Stocks(bookRepository.table);
      borrowRepository.AddAsync(record);
      assert Stocks(bookRepository.table) == shelved;
    }

    /** `ReturnBook`. A missing record is NotFound and a record already
        returned is BadRequest, both without change. Otherwise the record is
        stamped returned at `now` and, when its book still exists, one copy
        goes back on the shelf; nothing caps the count at `TotalCopies`. */
    method ReturnBook(id: Guid, now: DateTime) returns (result: ActionResult<string>)
      requires Valid()
      modifies bookRepository, borrowRepository
      modifies borrowRepository.Entry(id)`ReturnDate, borrowRepository.Entry(id)`Status
      modifies LoanedBook(id)`AvailableCopies
      ensures Valid()
      ensures id !in old(borrowRepository.table) ==> result == NotFound(Some("Borrow record not found"))
      ensures id in old(borrowRepository.table) && old(borrowRepository.table[id].Status) == Returned ==>
                result == BadRequest("Book already returned")
      ensures result.Ok? <==>
                id in old(borrowRepository.table) && old(borrowRepository.table[id].Status) != Returned
      ensures bookRepository.table == old(bookRepository.table)
      ensures bookRepository.order == old(bookRepository.order)
      ensures borrowRepository.table == old(borrowRepository.table)
      ensures borrowRepository.order == old(borrowRepository.order)
      ensures !result.Ok? ==> unchanged(borrowRepository.Entry(id)) && unchanged(LoanedBook(id))
      ensures result.Ok? ==>
                && result.value == "Book returned successfully"
                && borrowRepository.table[id].Status == Returned
                && borrowRepository.table[id].ReturnDate == Some(now)
                && var bookId := borrowRepository.table[id].BookId;
                   bookId in bookRepository.table ==>
                     bookRepository.table[bookId].AvailableCopies
                     == Wrap32(old(bookRepository.table[bookId].AvailableCopies) + 1)
      ensures old(Consistent()) ==> Consistent()
      ensures old(Consistent()) && result.Ok? ==>
                var bookId := borrowRepository.table[id].BookId;
                bookId in bookRepository.table ==>
                  bookRepository.table[bookId].AvailableCopies
                  == old(bookRepository.table[bookId].AvailableCopies) + 1
      ensures old(SingleActiveLoan(LoanStates(borrowRepository.table))) ==>
                SingleActiveLoan(LoanStates(borrowRepository.table))
    {
      var record := borrowRepository.GetByIdAsync(id);
      if record == null {
        return NotFound(Some("Borrow record not found"));
      }
      if record.Status == Returned {
        return BadRequest("Book already returned");
      }
      ghost var stocks, states := Stocks(bookRepository.table), LoanStates(borrowRepository.table);
      ghost var consistent := Consistent();
      Settle(record, now);
      if consistent {
        LedgerAfterReturn(stocks, states, id);
        assert LedgerConsistent(Stocks(bookRepository.table), LoanStates(borrowRepository.table));
      }
      ReturnKeepsSingleLoan(states, id);
      result := Ok("Book returned successfully");
    }

    /** Steps 3 to 5 of a return that passed its checks: the record is
        stamped returned and written back, then its book, when still
        stored, gets a copy back on the shelf. */
    method Settle(record: BorrowRecord, now: DateTime)
      requires Valid()
      requires record.Id in borrowRepository.table && borrowRepository.table[record.Id] == record
      modifies bookRepository, borrowRepository, record`ReturnDate, record`Status
      modifies bookRepository.Entry(record.BookId)`AvailableCopies
      ensures Valid()
      ensures bookRepository.table == old(bookRepository.table) && bookRepository.order == old(bookRepository.order)
      ensures borrowRepository.table == old(borrowRepository.table) && borrowRepository.order == old(borrowRepository.order)
      ensures record.Status == Returned && record.ReturnDate == Some(now)
      ensures record.BookId in bookRepository.table ==>
                bookRepository.table[record.BookId].AvailableCopies
                == Wrap32(old(bookRepository.table[record.BookId].AvailableCopies) + 1)
      ensures Stocks(bookRepository.table) == Restocked(old(Stocks(bookRepository.table)), record.BookId)
      ensures LoanStates(borrowRepository.table)
              == old(LoanStates(borrowRepository.table))[record.Id := LoanState(record.BookId, record.UserId, Returned)]
    {
      CloseLoan(borrowRepository, record, now, bookRepository);
      Restock(bookRepository, record.BookId, borrowRepository);
    }

    /** The history entry for one record: its own id, dates and status, and
        the title and author of its book, "Unknown" when the book is gone. */
    predicate Describes(h: BorrowHistory, r: BorrowRecord)
      reads r, bookRepository, bookRepository.table.Values
    {
      && h.RecordId == r.Id
      && h.BookTitle == (if r.BookId in bookRepository.table then bookRepository.table[r.BookId].Title else "Unknown")
      && h.Author == (if r.BookId in bookRepository.table then bookRepository.table[r.BookId].Author else "Unknown")
      && h.BorrowDate == r.BorrowDate && h.DueDate == r.DueDate
      && h.ReturnDate == r.ReturnDate && h.Status == r.Status
    }

    /** The `Select` projection, one entry per record, in order. */
    function Project(rs: seq<BorrowRecord>): (hs: seq<BorrowHistory>)
      reads rs, bookRepository, bookRepository.table.Values
      ensures |hs| == |rs|
      ensures forall i :: 0 <= i < |rs| ==> Describes(hs[i], rs[i])
    {
      if rs == [] then []
      else
        var r := rs[0];
        var h := BorrowHistory(
          r.Id,
          if r.BookId in bookRepository.table then bookRepository.table[r.BookId].Title else "Unknown",
          if r.BookId in bookRepository.table then bookRepository.table[r.BookId].Author else "Unknown",
          r.BorrowDate, r.DueDate, r.ReturnDate, r.Status);
        [h] + Project(rs[1..])
    }

    /** `h` is the borrow history of `userId`: each entry describes a
        stored record of that user, every such record has an entry, no
        record has two, and the newest borrow comes first. */
    predicate HistoryOf(userId: Guid, h: seq<BorrowHistory>)
      reads borrowRepository, borrowRepository.table.Values
      reads bookRepository, bookRepository.table.Values
    {
      var loans := borrowRepository.table;
      && (forall i :: 0 <= i < |h| ==>
            && h[i].RecordId in loans
            && loans[h[i].RecordId].UserId == userId
            && Describes(h[i], loans[h[i].RecordId]))
      && (forall id :: id in loans && loans[id].UserId == userId ==>
            exists i :: 0 <= i < |h| && h[i].RecordId == id)
      && (forall i, j :: 0 <= i < j < |h| ==> h[i].RecordId != h[j].RecordId)
      && (forall i, j :: 0 <= i < j < |h| ==> h[i].BorrowDate >= h[j].BorrowDate)
    }

    /** `GetMyBorrowedBooks`: Unauthorized without a caller; otherwise the
        caller's borrow history, each record once, newest borrow first. */
    function GetMyBorrowedBooks(caller: Option<Guid>): (result: ActionResult<seq<BorrowHistory>>)
      reads borrowRepository, borrowRepository.table.Values
      reads bookRepository, bookRepository.table.Values
      requires Valid()
      ensures caller.None? <==> result == Unauthorized(None)
      ensures caller.Some? ==> result.Ok? && HistoryOf(caller.value, result.value)
    {
      if caller.None? then Unauthorized(None)
      else
        var rs := borrowRepository.GetByUserId(caller.value);
        var h := Project(rs);
        HistoryFacts(caller.value, rs, h);
        Ok(h)
    }

    lemma HistoryFacts(userId: Guid, rs: seq<BorrowRecord>, h: seq<BorrowHistory>)
      requires Valid()
      requires rs == borrowRepository.GetByUserId(userId) && h == Project(rs)
      ensures forall i :: 0 <= i < |h| ==>
                && h[i].RecordId in borrowRepository.table
                && borrowRepository.table[h[i].RecordId] == rs[i]
      ensures HistoryOf(userId, h)
    {
      var loans := borrowRepository.table;
      forall i | 0 <= i < |h|
        ensures h[i].RecordId in loans && loans[h[i].RecordId] == rs[i]
      {
        assert rs[i] in loans.Values;
        var k :| k in loans && loans[k] == rs[i];
      }
      forall id | id in loans && loans[id].UserId == userId
        ensures exists i :: 0 <= i < |h| && h[i].RecordId == id
      {
        assert loans[id] in rs;
        var i :| 0 <= i < |rs| && rs[i] == loans[id];
        assert h[i].RecordId == id;
      }
    }
  }
}
