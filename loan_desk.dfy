/**
 * The borrow, return and renew endpoints as methods of one object holding
 * the three tables.  Books and Users are read-only; each method runs its
 * guard query and then performs at most one INSERT or UPDATE on the
 * BorrowingHistory rows.
 */
module LoanDesk {
  import opened Outcomes
  import opened Tables
  import opened Reservations

  class Library {
    const books: seq<Book>
    const users: seq<User>
    var history: seq<Loan>
    /** The HistoryID the next inserted loan receives. */
    var nextHistoryId: int

    /** Keys are unique, issued ids are below the counter, and the loan invariant holds. */
    ghost predicate Valid()
      reads this
    {
      HistoryIdsUnique(history) &&
      (forall i :: 0 <= i < |history| ==> history[i].historyId < nextHistoryId) &&
      AtMostOneActive(history)
    }

    constructor (books: seq<Book>, users: seq<User>, history: seq<Loan>, nextHistoryId: int)
      requires HistoryIdsUnique(history) && AtMostOneActive(history)
      requires forall i :: 0 <= i < |history| ==> history[i].historyId < nextHistoryId
      ensures Valid()
      ensures this.books == books && this.users == users
      ensures this.history == history && this.nextHistoryId == nextHistoryId
    {
      this.books := books;
      this.users := users;
      this.history := history;
      this.nextHistoryId := nextHistoryId;
    }

    /**
     * POST /borrow/: NotFound for an unknown book, Conflict when this user
     * already has an active loan of it; otherwise one row is appended and its
     * due date returned.  Other users' loans and the user's existence are not
     * checked.
     */
    method Borrow(userId: int, bookId: int, today: int) returns (r: Result<int>)
      requires Valid()
      modifies this
      ensures Valid()
      ensures !HasBook(books, bookId) ==> r == Err(NotFound)
      ensures HasBook(books, bookId) && HasActiveLoan(old(history), userId, bookId) ==> r == Err(Conflict)
      ensures r.Ok? <==> HasBook(books, bookId) && !HasActiveLoan(old(history), userId, bookId)
      ensures r.Err? ==> history == old(history) && nextHistoryId == old(nextHistoryId)
      ensures r.Ok? ==> history == old(history) + [NewLoan(old(nextHistoryId), userId, bookId, today)]
      ensures r.Ok? ==> r.value == today + LoanDays && r.value == history[|history| - 1].dueDate
    {
      if FirstWhere(books, BookIdIs(bookId)).None? {
        return Err(NotFound);
      }
      if FirstActiveLoan(history, userId, bookId).Some? {
        return Err(Conflict);
      }
      var dueDate := today + LoanDays;
      BorrowKeepsOneActive(history, nextHistoryId, userId, bookId, today);
      history := history + [Loan(nextHistoryId, userId, bookId, today, dueDate, None)];
      nextHistoryId := nextHistoryId + 1;
      r := Ok(dueDate);
    }

    /**
     * POST /return/: Conflict when (user, book) has no active loan; otherwise
     * the first active match, found by its HistoryID, gets ReturnDate = today
     * and no other row changes.
     */
    method Return(userId: int, bookId: int, today: int) returns (r: Result<()>)
      requires Valid()
      modifies this
      ensures Valid() && nextHistoryId == old(nextHistoryId)
      ensures r.Err? <==> !HasActiveLoan(old(history), userId, bookId)
      ensures r.Err? ==> r.error == Conflict && history == old(history)
      ensures r.Ok? ==>
        var k := FirstActiveLoan(old(history), userId, bookId).value;
        history == ClosedById(old(history), old(history)[k].historyId, today) &&
        history == old(history)[k := old(history)[k].(returnDate := Some(today))]
    {
      var found := FirstActiveLoan(history, userId, bookId);
      if found.None? {
        return Err(Conflict);
      }
      var k := found.value;
      var hid := history[k].historyId;
      var rows := history;
      var i := 0;
      while i < |rows|
        invariant 0 <= i <= |rows| == |history|
        invariant forall j :: 0 <= j < i ==> rows[j] == ClosedById(history, hid, today)[j]
        invariant forall j :: i <= j < |rows| ==> rows[j] == history[j]
      {
        if rows[i].historyId == hid {
          rows := rows[i := rows[i].(returnDate := Some(today))];
        }
        i := i + 1;
      }
      ClosedByIdIsPointUpdate(history, k, today);
      ReturnKeepsOneActive(history, k, today);
      history := rows;
      r := Ok(());
    }

    /**
     * POST /renew/: Conflict when (user, book) has no active loan; otherwise
     * every active loan of (user, book) gets the first match's due date plus
     * RenewalDays, which is returned; borrow and return dates and all other
     * rows stay as they were.
     */
    method Renew(userId: int, bookId: int) returns (r: Result<int>)
      requires Valid()
      modifies this
      ensures Valid() && nextHistoryId == old(nextHistoryId)
      ensures r.Err? <==> !HasActiveLoan(old(history), userId, bookId)
      ensures r.Err? ==> r.error == Conflict && history == old(history)
      ensures r.Ok? ==>
        var k := FirstActiveLoan(old(history), userId, bookId).value;
        r.value == old(history)[k].dueDate + RenewalDays &&
        history == RenewedTo(old(history), userId, bookId, r.value) &&
        history == old(history)[k := old(history)[k].(dueDate := r.value)]
    {
      var found := FirstActiveLoan(history, userId, bookId);
      if found.None? {
        return Err(Conflict);
      }
      var newDue := history[found.value].dueDate + RenewalDays;
      var rows := history;
      var i := 0;
      while i < |rows|
        invariant 0 <= i <= |rows| == |history|
        invariant forall j :: 0 <= j < i ==> rows[j] == RenewedTo(history, userId, bookId, newDue)[j]
        invariant forall j :: i <= j < |rows| ==> rows[j] == history[j]
      {
        if rows[i].userId == userId && rows[i].bookId == bookId && rows[i].returnDate.None? {
          rows := rows[i := rows[i].(dueDate := newDue)];
        }
        i := i + 1;
      }
      RenewedToIsPointUpdate(history, userId, bookId, newDue);
      RenewKeepsOneActive(history, userId, bookId, newDue);
      history := rows;
      r := Ok(newDue);
    }
  }
}
