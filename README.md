# Library service: loan lifecycle and resource catalogue in Dafny

This project models the two table-update cores of a small library backend.

**Loan lifecycle** (`reservations.py`). The `Books`, `Users` and `BorrowingHistory` tables are held in memory as sequences of rows. "The first row returned" by a query means the first match in table order. A loan is *active* while its `ReturnDate` is null. The endpoints are:

- the availability check;
- borrow (guard, then one INSERT, due date = today + 14);
- return (guard, then an UPDATE by `HistoryID` of the first active match);
- renew (guard, then an UPDATE that gives every active match the first match's due date + 7);
- "my books" (the user's active loans joined with `Books`);
- the book list;
- the plaintext login.

Dates are integer day ordinals, and "today" is a parameter. The pure module `Reservations` holds the queries, the table updates and the invariant "at most one active loan per (user, book)". The class `LoanDesk.Library` holds the tables and performs borrow, return and renew as methods.

**Resource catalogue** (`resources.py`). This is a separate `Books` table of resources keyed by (title, author, media type). `add_book` is an upsert:

- a digital duplicate is left alone;
- a physical duplicate gets more copies;
- a new item is appended with a default copy count: 9999 for an e-book or audiobook, 1 for a physical item, unless a non-zero count is supplied.

`search_books` builds a list of conditions: substring match on title and author, equality on genre and media type. It keeps the rows that satisfy all of them and sorts the result by title or author, ascending or descending (the sort options the model covers). The pure module `Resources` holds the policy, the upsert's resulting table and the search. The class `ResourceCatalog.Catalog` performs the add as a method.

The two `Books` schemas are kept as two independent tables. `Tables` provides the three generic query shapes both files use:

- `FirstWhere`: the first matching row, as `fetchone()` returns it;
- `CountWhere`: the number of matching rows (`COUNT(*)`);
- `Where`: the matching rows in table order.

An SQL `UPDATE ... WHERE` is a loop over the rows in the methods. It is specified by a function that updates every matching row. For return and add, a lemma shows that the update by the row's key (HistoryID, id) touches exactly one row. For renew, a lemma shows that under the one-active-loan invariant it touches only the first match.

## Model

| member | source | states |
|---|---|---|
| Tables.FirstWhere | reservations.py:86-90 | the index returned is the first row satisfying the filter; none is returned iff no row satisfies it |
| Tables.CountWhere | reservations.py:67-71 | the count is at most the table size and is zero iff no row matches |
| Tables.Where | resources.py:146-147 | the kept rows are exactly the matching rows, with their multiplicities, and there are CountWhere of them |
| Tables.CountAppend | reservations.py:97-100 | appending a row raises a count by one exactly when the new row matches |
| Tables.CountUpdate | reservations.py:119-123 | replacing one row changes a count by the difference between the old and new row's matches |
| Reservations.FirstActiveLoan | reservations.py:109-115 | the guard row of return and renew is the first active loan of (user, book); there is none iff (user, book) has no active loan |
| Reservations.CheckAvailability | reservations.py:61-73 | NotFound iff no book has the id; otherwise true iff no loan of that book, by any user, is active; it changes no table |
| Reservations.ListedBooksAreKnown | reservations.py:42-57 | the book list contains a book with an id exactly when the availability check finds that id |
| Reservations.JoinedRowsUnique | reservations.py:157-162 | with BookID a key, a loan joins one Books row when its book exists and none otherwise |
| Reservations.MyBooksAreActiveLoansInOrder | reservations.py:157-164 | "my books" is, in table order, one (name, borrow date, due date) entry per active loan of the user whose book exists |
| Reservations.Login | reservations.py:170-181 | Unauthorized when no user has the name or the password differs; on success the id is that of a user with exactly that name and password |
| Reservations.LoginIffCredentialsMatch | reservations.py:170-181 | with unique user names, login succeeds iff some user has both the name and the password, and it then returns that user's id |
| LoanDesk.Library.Borrow | reservations.py:80-103 | NotFound for an unknown book; Conflict iff this user already has an active loan of the book; otherwise exactly one row (user, book, today, today + 14, null) is appended, the returned due date is the stored one, and the invariants are kept; on failure the table is unchanged |
| Reservations.OtherUsersDoNotBlock | reservations.py:86-92 | another user's borrow of the book never changes whether this user's borrow passes the guard |
| Reservations.BorrowKeepsOneActive | reservations.py:86-100 | a borrow that passed its guard keeps at most one active loan per (user, book) |
| Reservations.BorrowMakesUnavailable | reservations.py:94-100 | after a borrow the book has one more active loan and the availability check reports it unavailable |
| LoanDesk.Library.Return | reservations.py:109-126 | Conflict iff there is no active loan of (user, book), with the table unchanged; otherwise ReturnDate = today is set on the first active match, found by its HistoryID, and on no other row |
| Reservations.ClosedByIdIsPointUpdate | reservations.py:119-123 | with HistoryID a key, the update by the id of row k changes row k's return date and nothing else |
| Reservations.ReturnKeepsOneActive | reservations.py:119-123 | closing a loan keeps at most one active loan per (user, book) |
| Reservations.ReturnLowersActiveCount | reservations.py:119-123 | closing an active loan lowers its book's active-loan count by one |
| Reservations.BorrowThenReturn | reservations.py:94-123 | a borrow followed by a return of the same pair closes exactly the inserted row and restores every book's active count and availability |
| LoanDesk.Library.Renew | reservations.py:132-151 | Conflict iff there is no active loan, with the table unchanged; otherwise every active loan of (user, book) gets the first match's due date + 7, which is returned; other rows and other fields are unchanged |
| Reservations.RenewKeepsFirstMatch | reservations.py:144-148 | a renewal changes no row's activity, user or book, so the same row is matched first afterwards |
| Reservations.RenewKeepsOneActive | reservations.py:144-148 | a renewal keeps at most one active loan per (user, book) |
| Reservations.RenewedToIsPointUpdate | reservations.py:144-148 | under the invariant, the renewal update changes only the first match's due date |
| Reservations.RenewTwice | reservations.py:140-148 | renewing twice moves every active loan of the pair to the first match's original due date + 14 and leaves every other row unchanged |
| Resources.InitialCopies | resources.py:92 | a new item's count is the supplied count when it is non-null and non-zero, else 9999 for e-book/audiobook and 1 for physical; it is never zero |
| Resources.CopyIncrement | resources.py:76 | the increment for a physical duplicate is the supplied count when it is non-null and non-zero, else 1 |
| Resources.FindResource | resources.py:61-63 | the row found matches the request's title, author and media type; none is found iff no row matches |
| ResourceCatalog.Catalog.AddBook | resources.py:61-97 | a digital duplicate changes nothing; a physical duplicate raises only that row's copies by the increment; otherwise one row with the given fields and the initial count is appended; keys stay unique |
| Resources.CopiesAddedByIdIsPointUpdate | resources.py:76-79 | with id a key, the update by the matched row's id changes only that row's available copies |
| Resources.UpsertKeepsKeysUnique | resources.py:61-97 | if no two rows share (title, author, media type) before an add, none do after it |
| Resources.UpsertedItemIsFound | resources.py:61-97 | after an add the requested (title, author, media type) is in the table |
| Resources.DigitalAddIsIdempotent | resources.py:65-73 | adding the same digital item a second time leaves the table as the first add left it |
| Resources.PhysicalAddTwice | resources.py:76-79 | adding a present physical item twice raises its count by twice the increment and changes nothing else |
| Resources.WhereClauseIsMatches | resources.py:126-142 | the assembled conditions hold of a row iff it matches every supplied filter: substring on title and author, equality on genre and media type, absent or empty filters ignored |
| Resources.NoFiltersNoConditions | resources.py:142 | with no filter supplied there is no condition and every row passes |
| Resources.Sort | resources.py:143-146 | the ordering is a permutation of its input, sorted by the column in the requested direction |
| Resources.InsertKeepsSorted | resources.py:143-146 | inserting a row into a sorted sequence keeps it sorted |
| Resources.SearchBooks | resources.py:126-147 | the result holds exactly the rows matching every filter, each as often as in the table, ordered by the sort column and direction |
| Resources.SearchWithoutFiltersReturnsAll | resources.py:142-147 | with no filters the search returns every row (a permutation of the table) |

## Left out

- HTTP routing, CORS, request validation and status-code plumbing. Errors are the `Outcomes.Error` values NotFound (404), Conflict (400) and Unauthorized (401).
- Database connections, async execution and commit. Each endpoint is one atomic, sequential update, so the check-then-insert race under concurrent requests is not modelled.
- The current date and calendar arithmetic. Dates are day ordinals and "today" is a parameter, so "+ 14 days" and "+ 7 days" are integer additions. The `YYYY-MM-DD` parsing in renew is not modelled.
- HistoryID and resource id allocation: each new row takes a counter that is above every id in the table. The store's exact rowid choice is not modelled.
- Login: the code shown returns only the user id. An admin flag computed from a fixed credential is not part of this login code, so it is not modelled.
- Reservations.CheckAvailability and Reservations.GetAllBooks return the values, not the JSON dictionaries. `get_all_books` is the identity on the modelled five columns.
- Resources.SearchBooks: the title and author filters are a literal, case-sensitive substring test. The store's `LIKE '%value%'` ignores ASCII case, and it treats `%` and `_` inside the value as wildcards: a title filter `a_c` matches a row titled `abc` in the store but not in the model. Character order is by code point, and ties in the sort are kept in table order, where the store leaves them undefined.
- Resources.SearchBooks: the sort column is limited to title and author. `sort_by` and `sort_order` are pasted into the query text unchecked (resources.py:121-122, 143), so the store also sorts by any other column name it is given, such as `genre` or `id`. It fails on names it does not know, such as `published_year`, which is not in the table the add inserts into. These cases are not modelled.
- ResourceCatalog.Catalog.AddBook: copy counts and ids are unbounded integers, but the store's integers are 64-bit. A supplied count outside the 64-bit range cannot be bound to the query and ends in the catch-all 500. A physical increment that takes `available_copies` past 2^63-1 makes the store hold a floating-point value. The model returns `Created` or `CopiesAdded` with the exact integer instead.
- LoanDesk.Library.Borrow, LoanDesk.Library.Return and LoanDesk.Library.Renew: user and book ids and day ordinals are unbounded integers. The store rejects ids outside the 64-bit range, and the request then fails with a 500 that the model does not produce.
- The response dictionaries of `add_book`: they report column 4 (the media type) as the copy count (resources.py:71, 87), and a new row's id is read from the lookup cursor (resources.py:100). The model's `AddOutcome` reports the copy counts and id the table actually holds.
- The catch-all that turns any store failure into a 500 (resources.py:106-110, 158-162).
