# Library lending ledger

A Dafny model of the core of a university library application: an ASP.NET
Core back end that lends and takes back copies of books, and one helper file
of its React front end. The lending ledger sits at the centre. It is made of
two keyed tables:

- books, each with `TotalCopies` and `AvailableCopies`;
- borrow records, each `Borrowed` until it is `Returned`.

The model proves that borrowing and returning keep these two tables in step.
For every stored book, `TotalCopies - AvailableCopies` equals the number of
its records not yet returned, and `AvailableCopies` is never negative.

Modules, one per source area:

- `Common`: shared values.
  - `Option`, and `ActionResult`, the HTTP outcome kinds.
  - `Guid` and `DateTime`, both as integers.
  - 32-bit wrap-around (`Wrap32`).
  - `string.IsNullOrWhiteSpace`, ordinal `string.Contains`, and ordinal string order.
- `Entities`: the classes `Book` and `BorrowRecord`. The controllers change their fields in place.
- `BookStore`: the `Books` table (`BookRepository`) and its query pipeline.
  - Filter by title, then by genre.
  - Optionally order by title.
  - `Skip`/`Take` paging, as the SQLite store runs it (`LIMIT`/`OFFSET`).
- `LoanStore`: the `BorrowRecords` table (`BorrowRepository`) and its per-user queries. It also holds `LoanStates`, the ledger's value snapshot of the records.
- `Lending`: `BorrowController`, and the ledger invariant with its preservation lemmas.
- `Catalog`: `BooksController`, with its DTO projections and book creation.
- `Validation`: the `CreateBookDto` data annotations, and the two FluentValidation rule sets.
- `Images`: `images.ts`. Its seeded cover hash uses JavaScript's int32 `<<`; the model also gives its two fixed illustrations.

The ledger invariant is stated over value snapshots of the two tables:

- `Stocks(books)` maps each book id to `Stock(total, available)`.
- `LoanStates(records)` maps each record id to `LoanState(bookId, userId, status)`.

`LedgerConsistent(stocks, loans)` is the invariant. Separate lemmas prove that each operation preserves it:

- `LedgerAfterLend`, `LedgerAfterReturn` and `AddBookKeepsLedger`;
- `DeleteBookKeepsLedger`, stated on the table `DeleteAsync` leaves behind, which covers the books that remain.

The controller methods state how each action changes the snapshots, and
`BorrowBook`/`ReturnBook` conclude `old(Consistent()) ==> Consistent()`.

Where the code's behaviour differs from what its names, its tests or a natural reading suggest, the model follows the code:

- `GetMyBorrowedBooks` calls `GetByUserId`, which orders by `BorrowDate` descending (BorrowRepository.cs:51). The history is therefore newest first, not in store order.
- `new BorrowRecord()` sets `ReturnDate` to the creation time, not to null (BorrowRecord.cs:15). BorrowBook overwrites the field with null.
- `ReturnBook` puts the copy back with an unchecked `++`. Nothing caps the count at `TotalCopies`. The ledger lemmas show that no cap is needed while the invariant holds: `LedgerAfterReturn` proves `available + 1 <= total`.
- The tests expect a duplicate-loan refusal that the controller does not make (see Findings). They also mock `AddAsync` as returning `bool`, while `IBorrowRepository.AddAsync` returns a plain `Task`. The model follows the interface.
- `Book` itself is not among the source files. Its fields are inferred from use: `Guid Id`, string fields, and `int` rating and copy counts. `Summary` is assumed to default to the empty string. `Models/Books.cs` is a different, unused class.

## Model

| member | source | states |
|---|---|---|
| Common.ContainsAt | LibraryApplicationManagement/Repository/BookRepository.cs:25 | `Contains(s, t)` holds exactly when some slice of `s` equals `t`: the recursive definition agrees with the index-based one |
| Common.OccursAtContains | LibraryApplicationManagement/Repository/BookRepository.cs:25 | an occurrence of `t` at any index makes `Contains(s, t)` true |
| Common.ContainsWitness | LibraryApplicationManagement/Repository/BookRepository.cs:25 | when `Contains(s, t)` holds, there is an index at which `t` occurs in `s` |
| Common.Wrap32Congruent | LibraryApplicationManagement/Controller/BorrowController.cs:100 | the 32-bit wrap of `x` differs from `x` by a multiple of 2^32, as unchecked `int` arithmetic (and JavaScript's `ToInt32`, see ShiftLeft5Congruent) does |
| Entities.BorrowRecord.constructor | LibraryApplicationManagement/Models/BorrowRecord.cs:8-17 | a new record has status Borrowed, `BorrowDate`, `CreatedAt` and `ReturnDate` all at the creation time, and empty ids and due date |
| Entities.Book.constructor | LibraryApplicationManagement/Controller/BooksController.cs:78 | a new book has empty strings and zero counts before its initialiser runs |
| Images.ShiftLeft5 | library-frontend/src/lib/images.ts:25 | `hash << 5` on an int32: exactly `32 * hash` whenever that product fits in 32 bits |
| Images.ShiftLeft5Congruent | library-frontend/src/lib/images.ts:25 | in every case `hash << 5` agrees with `32 * hash` modulo 2^32, since both of JavaScript's `ToInt32` truncations keep the value modulo 2^32 (Wrap32Congruent) |
| Images.SeedHash | library-frontend/src/lib/images.ts:23-26 | the hash starts at 0, so an empty seed hashes to 0 and a one-unit seed to its code unit |
| Images.SeedHashAppend | library-frontend/src/lib/images.ts:24-26 | one more code unit is one more round `c + ((hash << 5) - hash)` on the hash so far, which is what each iteration of the loop computes |
| Images.HashBound | library-frontend/src/lib/images.ts:23-26 | each round of the seed hash moves it by at most 2^31 + 65535, so its magnitude is at most linear in the seed length |
| Images.HashExact | library-frontend/src/lib/images.ts:23-26 | for seeds under four million code units the hash stays below 2^53, so double arithmetic computes it exactly |
| Images.SeededCover | library-frontend/src/lib/images.ts:27-28 | the cover a seed selects is always one of the ten covers (index `abs(hash) % 10`) |
| Images.GetRandomBookCover | library-frontend/src/lib/images.ts:20-32 | the result is always one of the covers; a non-empty seed selects `SeededCover(seed)`, so equal seeds give equal covers; an absent or empty seed takes the random branch |
| Images.GetLoginImage | library-frontend/src/lib/images.ts:34-36 | the login image is one of the library illustrations, and not the one the registration page shows |
| Images.GetRegisterImage | library-frontend/src/lib/images.ts:38-40 | the register image is one of the library illustrations |
| BookStore.WhereTitleContains | LibraryApplicationManagement/Repository/BookRepository.cs:23-26 | keeps exactly the books whose title contains the filter, in their order (a subsequence) |
| BookStore.WhereGenreContains | LibraryApplicationManagement/Repository/BookRepository.cs:28-31 | keeps exactly the books whose genre contains the filter, in their order |
| BookStore.InsertByTitle | LibraryApplicationManagement/Repository/BookRepository.cs:37 | inserting an id adds exactly that id to the multiset of ids |
| BookStore.InsertByTitleSorted | LibraryApplicationManagement/Repository/BookRepository.cs:37 | inserting into a title-ordered sequence keeps it title-ordered |
| BookStore.SortByTitle | LibraryApplicationManagement/Repository/BookRepository.cs:33-39 | the result is a permutation of the input, ordered by title ascending or descending |
| BookStore.TitleOrderedTotal | LibraryApplicationManagement/Repository/BookRepository.cs:37 | any two books are comparable by title |
| BookStore.TitleOrderedTransitive | LibraryApplicationManagement/Repository/BookRepository.cs:37 | the title order is transitive |
| BookStore.Page | LibraryApplicationManagement/Repository/BookRepository.cs:41-43 | `Skip(n).Take(size)` as SQLite's `LIMIT size OFFSET n`: the rows from position `max(n, 0)` on, in order; none for size 0, at most `size` for a positive size, all that remain for a negative size |
| BookStore.PageRows | LibraryApplicationManagement/Repository/BookRepository.cs:41-43 | the page's books are the filtered books from position `max(n, 0)` on, as many as the size allows and the filtered books supply |
| BookStore.SkipNumber | LibraryApplicationManagement/Repository/BookRepository.cs:41 | when the product fits in an `int`, the skip count is `(PageNumber - 1) * PageSize` |
| BookStore.BookRepository.MatchingIds | LibraryApplicationManagement/Repository/BookRepository.cs:21-31 | exactly the stored books that pass both filters, each once, in store order; with both filters blank, every stored book in store order |
| BookStore.BookRepository.FilteredIds | LibraryApplicationManagement/Repository/BookRepository.cs:21-39 | exactly the matching books, each once (a permutation of the matching ones). When `SortBy` is "Title", ignoring case, they are ordered by title; otherwise they stay in store order |
| BookStore.BookRepository.GetAllAsync | LibraryApplicationManagement/Repository/BookRepository.cs:19-44 | every returned book is stored and passes the filters, no book appears twice, and results are title-ordered when asked; no rows for `PageSize` 0, at most `PageSize` for a positive one |
| BookStore.BookRepository.SkipIsOffset | LibraryApplicationManagement/Repository/BookRepository.cs:41 | for `PageNumber >= 1` and a product within `int`, the skip count is the plain, non-negative product |
| BookStore.BookRepository.PageIsSlice | LibraryApplicationManagement/Repository/BookRepository.cs:41-43 | the result is the slice of the filtered and sorted books starting at the skip count (0 when negative), `min(PageSize, remaining)` long, or all the remaining ones for a negative `PageSize` |
| BookStore.BookRepository.DefaultQueryFirstPage | LibraryApplicationManagement/Helpers/BookQueryObject.cs:7-12 | the JSON body `{}` (page 1 of 20, no filter, no sort) lists the first twenty stored books, or all of them when fewer, in store order |
| BookStore.BookRepository.GetByIdAsync | LibraryApplicationManagement/Repository/BookRepository.cs:46-49 | the stored book with that id, or null exactly when there is none |
| BookStore.BookRepository.AddAsync | LibraryApplicationManagement/Repository/BookRepository.cs:51-55 | the new book becomes retrievable by its id; the others stay |
| BookStore.BookRepository.UpdateAsync | LibraryApplicationManagement/Repository/BookRepository.cs:57-61 | replaces the book with that id; every other id retrieves what it did before |
| BookStore.BookRepository.DeleteAsync | LibraryApplicationManagement/Repository/BookRepository.cs:63-71 | removes the book if present; an unknown id changes nothing |
| LoanStore.WhereUser | LibraryApplicationManagement/Repository/BorrowRepository.cs:50 | keeps exactly the records of that user, in their order |
| LoanStore.InsertByBorrowDate | LibraryApplicationManagement/Repository/BorrowRepository.cs:51 | inserting a record id adds exactly that id to the multiset of ids, and every id stays a stored record |
| LoanStore.InsertByBorrowDateSorted | LibraryApplicationManagement/Repository/BorrowRepository.cs:51 | inserting into a sequence ordered by descending borrow date keeps it ordered |
| LoanStore.SortByBorrowDateDesc | LibraryApplicationManagement/Repository/BorrowRepository.cs:51 | a permutation of the input, ordered by borrow date, newest first |
| LoanStore.BorrowRepository.GetByIdAsync | LibraryApplicationManagement/Repository/BorrowRepository.cs:18-24 | the record with that id, or null exactly when there is none |
| LoanStore.BorrowRepository.GetByUserIdAsync | LibraryApplicationManagement/Repository/BorrowRepository.cs:26-32 | exactly the stored records of that user, each once |
| LoanStore.BorrowRepository.GetByUserId | LibraryApplicationManagement/Repository/BorrowRepository.cs:46-53 | exactly the stored records of that user, each once, newest borrow first |
| LoanStore.BorrowRepository.SameRecords | LibraryApplicationManagement/Repository/BorrowRepository.cs:26-53 | the ordered and unordered queries return the same records (equal multisets) |
| LoanStore.BorrowRepository.AddAsync | LibraryApplicationManagement/Repository/BorrowRepository.cs:34-38 | the record becomes retrievable, and the ledger snapshot gains exactly its entry |
| LoanStore.BorrowRepository.UpdateAsync | LibraryApplicationManagement/Repository/BorrowRepository.cs:40-44 | replaces the record with that id; every other id retrieves what it did before |
| Lending.ActiveLoansAfterAdd | LibraryApplicationManagement/Controller/BorrowController.cs:74 | adding a record grows its book's active loans by that record only when the record is out; other books' active loans stay |
| Lending.LedgerAfterLend | LibraryApplicationManagement/Controller/BorrowController.cs:53-74 | one copy fewer on the shelf plus one new Borrowed record keeps the ledger consistent |
| Lending.LedgerAfterReturn | LibraryApplicationManagement/Controller/BorrowController.cs:86-102 | settling a loan that is still out keeps the ledger consistent; the copy put back cannot overflow and never exceeds `TotalCopies` |
| Lending.AddBookKeepsLedger | LibraryApplicationManagement/Controller/BooksController.cs:87-88 | a book created with `AvailableCopies = TotalCopies >= 0`, and no loans, keeps the ledger consistent |
| Lending.DeleteBookKeepsLedger | LibraryApplicationManagement/Repository/BookRepository.cs:63-71 | the table `DeleteAsync(id)` leaves (the old one without `id`) keeps the ledger consistent for the books that remain |
| Lending.StocksAfterDelete | LibraryApplicationManagement/Repository/BookRepository.cs:63-71 | the ledger's view of the table after a delete is the old view without that book's entry |
| Lending.ReturnKeepsSingleLoan | LibraryApplicationManagement/Controller/BorrowController.cs:92-94 | marking a loan Returned never gives a user a second active loan of a book |
| Lending.LendToHolderBreaksSingleLoan | LibraryApplicationManagement/Controller/BorrowController.cs:59-74 | a loan opened for a user who already holds an active loan of that book breaks "one active loan per user and book" |
| Lending.LendToNewHolderKeepsSingleLoan | LibraryApplicationManagement/Controller/BorrowController.cs:59-74 | a loan opened for a user holding no active loan of that book keeps "one active loan per user and book" |
| Lending.OpenLoan | LibraryApplicationManagement/Controller/BorrowController.cs:59-67 | the new record belongs to that user and book, is Borrowed with no return date, and is due fourteen days after `now` |
| Lending.Shelve | LibraryApplicationManagement/Controller/BorrowController.cs:70-71 | the book's shelf count moves by `delta` in 32-bit arithmetic and is written back; only its stock entry changes |
| Lending.CloseLoan | LibraryApplicationManagement/Controller/BorrowController.cs:92-94 | the record is Returned at `now` and written back; only its ledger entry changes, to Returned |
| Lending.Restock | LibraryApplicationManagement/Controller/BorrowController.cs:97-102 | if the book still exists, one copy goes back on its shelf; otherwise nothing changes |
| Lending.BorrowController.BorrowBook | LibraryApplicationManagement/Controller/BorrowController.cs:36-77 | checks in order: missing book NotFound("Book not found"), no caller Unauthorized, deleted user Unauthorized("User no longer exists"), no copy on the shelf BadRequest("Book is not available"), and each rejection changes nothing. On success: exactly one copy fewer, exactly one new Borrowed record for that user and book, due in fourteen days, whose id is returned. The ledger stays consistent |
| Lending.BorrowController.BorrowBookOnce | LibraryApplicationManagement/Controller/BorrowController.cs:53-74 | BorrowBook plus the duplicate check its tests expect. The four checks give BorrowBook's answers. A caller already holding an active loan of the book gets BadRequest("Only one borrow is possible for the same book"). Every refusal changes neither table nor the book's copy count. Success is exactly one copy fewer and one new Borrowed record for that user and book, due in fourteen days, with the ledger snapshot updated by exactly that loan. Both the ledger and "one active loan per user and book" are kept |
| Lending.BorrowController.HeldIffActive | LibraryApplicationManagement/Repository/BorrowRepository.cs:26-32 | scanning the caller's records finds an active loan of the book exactly when the ledger says the caller holds one |
| Lending.BorrowController.Lend | LibraryApplicationManagement/Controller/BorrowController.cs:58-74 | after the checks: one copy fewer, the new record appended, and both ledger snapshots updated by exactly that loan |
| Lending.BorrowController.ReturnBook | LibraryApplicationManagement/Controller/BorrowController.cs:81-105 | a missing record is NotFound("Borrow record not found") and a returned record is BadRequest("Book already returned"), both without change. Otherwise the record becomes Returned at `now` and its book, if it still exists, gets a copy back: exactly +1 while the ledger is consistent. The ledger and single-loan invariants stay |
| Lending.BorrowController.Settle | LibraryApplicationManagement/Controller/BorrowController.cs:91-102 | the record is Returned at `now`, and the book's stock is restocked by one; both snapshots change by exactly this |
| Lending.BorrowController.Project | LibraryApplicationManagement/Controller/BorrowController.cs:119-128 | one history entry per record, in order, each copying the record's id, dates and status, and its book's title and author ("Unknown" when the book is gone) |
| Lending.BorrowController.GetMyBorrowedBooks | LibraryApplicationManagement/Controller/BorrowController.cs:109-132 | Unauthorized exactly without a caller; otherwise the caller's history (`HistoryOf`): every record of the caller appears exactly once, each entry describes its record, newest borrow first |
| Lending.BorrowController.HistoryFacts | LibraryApplicationManagement/Controller/BorrowController.cs:117-130 | the projected records form the caller's history: each entry names a stored record of the caller and describes it, every such record is listed once, newest borrow first |
| Catalog.ToDto | LibraryApplicationManagement/Controller/BooksController.cs:55-69 | the DTO shows all twelve exposed fields of the book, copy counts included |
| Catalog.ToDtos | LibraryApplicationManagement/Controller/BooksController.cs:28-42 | one DTO per book, in order, each showing its book |
| Catalog.BuildBook | LibraryApplicationManagement/Controller/BooksController.cs:78-90 | the new book copies the DTO's descriptive fields and rating, and has `AvailableCopies = TotalCopies` |
| Catalog.Store | LibraryApplicationManagement/Controller/BooksController.cs:92 | storing the new book adds exactly its stock entry to the ledger's view |
| Catalog.BooksController.GetBooks | LibraryApplicationManagement/Controller/BooksController.cs:23-45 | for a bound JSON body, always Ok, with one DTO per book of the page, in the same order. Each DTO shows a different stored book that passes the filters (`ListsMatches`), and the DTOs are title-ordered when asked; none for `PageSize` 0, at most `PageSize` for a positive one |
| Catalog.BooksController.PageListsMatches | LibraryApplicationManagement/Controller/BooksController.cs:23-45 | the DTOs of a page show different stored books that pass the filters, title-ordered when asked |
| Catalog.BooksController.GetBook | LibraryApplicationManagement/Controller/BooksController.cs:48-72 | NotFound exactly for an unknown id; otherwise Ok with the stored book's fields, both copy counts included |
| Catalog.BooksController.CreateBook | LibraryApplicationManagement/Controller/BooksController.cs:76-95 | for a caller the admin filter admits, a body the annotations reject gets BadRequest and stores nothing. Otherwise the book is built from the DTO with 1 <= `AvailableCopies` = `TotalCopies` <= 1000, stored under its new id and returned as Created, and GetBook then shows it. The ledger stays consistent |
| Validation.FailedRules | LibraryApplicationManagement/Validators/CreateBookDtoValidator.cs:10-24 | a rule set reports exactly its failing rules, in declaration order (a subsequence of the rules) |
| Validation.AnnotationFailures | LibraryApplicationManagement/DTOs/CreateBookDto.cs:8-39 | exactly the members whose annotations reject the DTO |
| Validation.AnnotationErrorKeys | LibraryApplicationManagement/DTOs/CreateBookDto.cs:8-39 | the model-state error keys name exactly the rejected members; there are none exactly when the annotations accept |
| Validation.NameInjective | LibraryApplicationManagement/DTOs/CreateBookDto.cs:8-39 | different members have different keys |
| Validation.AnnotationsHoldIff | LibraryApplicationManagement/DTOs/CreateBookDto.cs:8-39 | the annotations accept exactly when no member is rejected; acceptance implies copies in 1..1000 and rating in 1..5 |
| Validation.EmptyDtoRejected | LibraryApplicationManagement/DTOs/CreateBookDto.cs:8-33 | the default DTO is rejected on its blank title but not on its copy count (default 1) |
| Validation.CreateBookErrors | LibraryApplicationManagement/Validators/CreateBookDtoValidator.cs:10-24 | exactly the failing rules of the book rule set, in rule order |
| Validation.CreateBookMessages | LibraryApplicationManagement/Validators/CreateBookDtoValidator.cs:10-24 | one message per failure, in rule order; a rule's message appears exactly when that rule fails |
| Validation.BookMessageInjective | LibraryApplicationManagement/Validators/CreateBookDtoValidator.cs:10-24 | different failures carry different messages |
| Validation.CreateBookValidIff | LibraryApplicationManagement/Validators/CreateBookDtoValidator.cs:10-24 | valid exactly when title is non-empty and at most 100 long, author and genre are non-empty, rating is in 1..5 and copies are positive |
| Validation.TitleLimitsDiffer | LibraryApplicationManagement/Validators/CreateBookDtoValidator.cs:10-12 | a title of 101 to 255 characters passes the annotations but fails the rule set |
| Validation.ValidatorIgnoresCopyLimit | LibraryApplicationManagement/Validators/CreateBookDtoValidator.cs:23-24 | more than 1000 copies pass the rule set but fail the annotations |
| Validation.BothAccept | LibraryApplicationManagement/Validators/CreateBookDtoValidator.cs:10-24 | a DTO passing both checks has a title of 1..100 characters, copies in 1..1000 and rating in 1..5 |
| Validation.RegisterErrors | LibraryApplicationManagement/Validators/RegisterDtoValidator.cs:10-25 | exactly the failing rules of the registration rule set, in rule order |
| Validation.RegisterMessages | LibraryApplicationManagement/Validators/RegisterDtoValidator.cs:10-25 | one message per failure, in rule order; a rule's message appears exactly when that rule fails |
| Validation.RegisterMessageInjective | LibraryApplicationManagement/Validators/RegisterDtoValidator.cs:10-25 | different failures carry different messages |
| Validation.NoRegisterErrorIffAllPass | LibraryApplicationManagement/Validators/RegisterDtoValidator.cs:10-25 | no error is reported exactly when every rule passes |
| Validation.RegisterValidIff | LibraryApplicationManagement/Validators/RegisterDtoValidator.cs:10-25 | valid exactly when the email is non-empty and well formed, the password is non-empty and at least 6 long, name and card are non-empty, and the university id is positive |
| Validation.BlankPasswordReportsOnce | LibraryApplicationManagement/Validators/RegisterDtoValidator.cs:14-16 | a password of six spaces fails "required" but not "at least 6 characters": the two rules are independent |

## Left out

- Concurrency and partial failure. Each action is one sequential step. The two saves of BorrowBook and of ReturnBook cannot interleave with other requests, and neither can fail halfway.
- Identity plumbing. The name-id claim becomes `caller: Option<Guid>` and the user store's lookup becomes the set `users`. Claim extraction, `Guid.Parse` and `UserManager` are not modelled.
- Authorization filters. `[Authorize(Roles = "Admin")]` on CreateBook (BooksController.cs:74) and `[Authorize]` on BorrowBook, ReturnBook and GetMyBorrowedBooks (BorrowController.cs:35, :80, :108) refuse a request before the action runs. The model's callers are assumed to pass them: CreateBook's contract holds for an admin caller, and a request the filters refuse changes nothing.
- Model binding of the book query. GetBooks reads its `BookQueryObject` from the request body (`[FromBody]`, BooksController.cs:23), not from the query string. A request with no body is refused with 400 by the framework before the action runs; that refusal is not modelled, and "always Ok" holds once the body has bound.
- The clock and fresh identifiers. `DateTime.UtcNow` is the parameter `now`. New `Guid`s are parameters that are required to be unused.
- DateTime ranges. Dates are unbounded tick counts, so `AddDays(14)` cannot overflow.
- Entity Framework specifics:
  - the database provider's case sensitivity and collation, so `Contains` is ordinal and title order compares Unicode code points;
  - `Include` navigation, so the history reads each book from the book table;
  - cascade deletes; deleting a book leaves its records pointing at a missing book, which the history shows as "Unknown".
- BookStore.SortsByTitle: the case-insensitive comparison with "Title" folds ASCII letters only. A non-ASCII character that ordinal case folding maps onto a letter of "Title" is not treated as matching.
- String lengths. A string is a sequence of Unicode code points, so `[MaxLength]`, `MaximumLength` and `MinimumLength` count code points where .NET counts UTF-16 code units. A title of 60 characters outside the Basic Multilingual Plane is 120 code units; the rule set rejects it as too long, but `CreateBookErrors` accepts it.
- HTTP, JSON and `ProblemDetails`. Results are an `ActionResult` datatype. The framework's automatic 400 for a rejected `CreateBookDto` carries only its title string.
- The e-mail format check of FluentValidation. It is the uninterpreted parameter `isEmail`.
- Registration of the rule sets. Nothing in the application calls the two FluentValidation validators; only the data annotations guard `CreateBook`.
- `Math.random()` in `getRandomBookCover`. It is the parameter `draw` in [0, 1).
- Images.SeedHash: exact integer arithmetic. JavaScript doubles compute the same value only for seeds shorter than four million code units (HashExact). Longer seeds are not modelled.
- AuthController, token service, middleware, seeding and the React pages are not part of this model.
- Overdue status. Nothing writes `Overdue`, so no transition into it is modelled.

## Findings

| source | as written | input that shows it | evidently intended | confidence | as-written member | corrected member |
|---|---|---|---|---|---|---|
| LibraryApplicationManagement/Controller/BorrowController.cs:53-74 | BorrowBook makes no check on the caller's existing loans, so a user may borrow a second copy of a book while the first is still out | a caller who holds a Borrowed record of book B, with B having a copy on the shelf: BorrowBook returns Ok and appends a second active record for the same user and book | the controller tests (BorrowControllerTests.cs:128-155) expect BadRequest("Only one borrow is possible for the same book") | medium, not executed | Lending.LendToHolderBreaksSingleLoan | Lending.BorrowController.BorrowBookOnce |
