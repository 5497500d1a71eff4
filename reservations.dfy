/**
 * The loan lifecycle of the library service over in-memory tables:
 * Books and Users are read-only, BorrowingHistory is a sequence of loan rows.
 * Dates are day ordinals; "today" is always a parameter.
 *
 * This module holds the read-only queries (availability, my books, the book
 * list, login), the table updates that borrow, return and renew perform, and
 * the one-active-loan-per-(user, book) invariant that those updates preserve.
 */
module Reservations {
  import opened Outcomes
  import opened Tables

  /** A borrow makes the loan due this many days after the borrow date. */
  const LoanDays := 14
  /** A renewal moves the due date this many days later. */
  const RenewalDays := 7

  datatype Book = Book(id: int, name: string, author: string, genre: string, year: int)

  datatype User = User(id: int, name: string, password: string)

  /** A BorrowingHistory row; a loan with no return date is active. */
  datatype Loan = Loan(historyId: int, userId: int, bookId: int,
                       borrowDate: int, dueDate: int, returnDate: Option<int>)

  /** A row of the "my books" listing: book name, borrow date, due date. */
  datatype MyBook = MyBook(bookName: string, borrowDate: int, dueDate: int)

  // ---------------------------------------------------------------------
  // Row predicates
  // ---------------------------------------------------------------------

  predicate IsActive(l: Loan) { l.returnDate.None? }

  /** Selects the Books rows with BookID equal to id. */
  function BookIdIs(id: int): Book -> bool { (bk: Book) => bk.id == id }

  /** Selects the Users rows with that user name. */
  function UserNameIs(name: string): User -> bool { (usr: User) => usr.name == name }

  /** Selects the active loans of user u for book b. */
  function ActiveFor(u: int, b: int): Loan -> bool
  {
    (l: Loan) => l.userId == u && l.bookId == b && IsActive(l)
  }

  /** Selects the active loans of book b, whoever holds them. */
  function ActiveOn(b: int): Loan -> bool { (l: Loan) => l.bookId == b && IsActive(l) }

  predicate HasBook(books: seq<Book>, id: int)
  {
    exists i :: 0 <= i < |books| && books[i].id == id
  }

  predicate HasActiveLoan(loans: seq<Loan>, u: int, b: int)
  {
    exists i :: 0 <= i < |loans| && ActiveFor(u, b)(loans[i])
  }

  /** BookID is the primary key of Books. */
  predicate BookIdsUnique(books: seq<Book>)
  {
    forall i, j :: 0 <= i < |books| && 0 <= j < |books| && books[i].id == books[j].id ==> i == j
  }

  /** HistoryID is the primary key of BorrowingHistory. */
  predicate HistoryIdsUnique(loans: seq<Loan>)
  {
    forall i, j :: 0 <= i < |loans| && 0 <= j < |loans| && loans[i].historyId == loans[j].historyId ==> i == j
  }

  /** The loan invariant: at most one active loan per (user, book). */
  predicate AtMostOneActive(loans: seq<Loan>)
  {
    forall i, j ::
      0 <= i < |loans| && 0 <= j < |loans| && IsActive(loans[i]) && IsActive(loans[j]) &&
      loans[i].userId == loans[j].userId && loans[i].bookId == loans[j].bookId
      ==> i == j
  }

  /** The row the guard query of return and renew fetches: the first active loan of (u, b). */
  function FirstActiveLoan(loans: seq<Loan>, u: int, b: int): (r: Option<nat>)
    ensures r.None? <==> !HasActiveLoan(loans, u, b)
    ensures r.Some? ==> r.value < |loans| && ActiveFor(u, b)(loans[r.value])
    ensures r.Some? ==> forall j :: 0 <= j < r.value ==> !ActiveFor(u, b)(loans[j])
  {
    FirstWhere(loans, ActiveFor(u, b))
  }

  // ---------------------------------------------------------------------
  // Read-only queries
  // ---------------------------------------------------------------------

  /** GET /books/: every Books row, in table order. */
  function GetAllBooks(books: seq<Book>): seq<Book>
  {
    books
  }

  /** Number of active loans of book b, whoever holds them. */
  function ActiveCount(loans: seq<Loan>, b: int): nat
  {
    CountWhere(loans, ActiveOn(b))
  }

  /**
   * GET /available/{book_id}: NotFound when no book has that id; otherwise
   * available exactly when no loan of the book, by any user, is active.
   */
  function CheckAvailability(books: seq<Book>, loans: seq<Loan>, bookId: int): (r: Result<bool>)
    ensures r.Err? <==> !HasBook(books, bookId)
    ensures r.Err? ==> r.error == NotFound
    ensures r.Ok? ==> (r.value <==> forall i :: 0 <= i < |loans| ==> !(loans[i].bookId == bookId && IsActive(loans[i])))
  {
    if FirstWhere(books, BookIdIs(bookId)).None? then Err(NotFound)
    else Ok(ActiveCount(loans, bookId) == 0)
  }

  /** The Books rows joined to one loan: those whose BookID equals the loan's. */
  function JoinedRows(books: seq<Book>, l: Loan): (r: seq<MyBook>)
  {
    var matching := Where(books, BookIdIs(l.bookId));
    seq(|matching|, i requires 0 <= i < |matching| => MyBook(matching[i].name, l.borrowDate, l.dueDate))
  }

  /**
   * GET /mybooks/{user_id}: the inner join of the user's active loans with
   * Books, loan by loan in table order, as (name, borrow date, due date).
   */
  function GetMyBooks(books: seq<Book>, loans: seq<Loan>, u: int): seq<MyBook>
  {
    if |loans| == 0 then []
    else
      (if loans[0].userId == u && IsActive(loans[0]) then JoinedRows(books, loans[0]) else [])
      + GetMyBooks(books, loans[1..], u)
  }

  /** POST /login/: the first user with that name, if the password is exactly the stored one. */
  function Login(users: seq<User>, username: string, password: string): (r: Result<int>)
    ensures r.Err? ==> r.error == Unauthorized
    ensures (forall i :: 0 <= i < |users| ==> users[i].name != username) ==> r.Err?
    ensures r.Ok? ==> exists i :: 0 <= i < |users| && users[i].name == username &&
                                  users[i].password == password && users[i].id == r.value
  {
    match FirstWhere(users, UserNameIs(username))
    case None => Err(Unauthorized)
    case Some(k) => if users[k].password != password then Err(Unauthorized) else Ok(users[k].id)
  }

  // ---------------------------------------------------------------------
  // Table updates performed by borrow, return and renew
  // ---------------------------------------------------------------------

  /** The row borrow inserts: borrowed today, due LoanDays later, not returned. */
  function NewLoan(hid: int, u: int, b: int, today: int): Loan
  {
    Loan(hid, u, b, today, today + LoanDays, None)
  }

  /** The loan table after every row with HistoryID hid gets return date today. */
  function ClosedById(loans: seq<Loan>, hid: int, today: int): seq<Loan>
  {
    seq(|loans|, j requires 0 <= j < |loans| =>
      if loans[j].historyId == hid then loans[j].(returnDate := Some(today)) else loans[j])
  }

  /** The loan table after every active loan of (u, b) gets due date `due`. */
  function RenewedTo(loans: seq<Loan>, u: int, b: int, due: int): seq<Loan>
  {
    seq(|loans|, j requires 0 <= j < |loans| =>
      if ActiveFor(u, b)(loans[j]) then loans[j].(dueDate := due) else loans[j])
  }

  /** The due date renew writes: the first active match's due date plus RenewalDays. */
  function RenewedDue(loans: seq<Loan>, u: int, b: int): int
    requires HasActiveLoan(loans, u, b)
  {
    loans[FirstActiveLoan(loans, u, b).value].dueDate + RenewalDays
  }

  // ---------------------------------------------------------------------
  // Properties of the queries
  // ---------------------------------------------------------------------

  /** Every listed book, and only those, is known to the availability check. */
  lemma ListedBooksAreKnown(books: seq<Book>, loans: seq<Loan>, id: int)
    ensures (exists i :: 0 <= i < |GetAllBooks(books)| && GetAllBooks(books)[i].id == id)
        <==> CheckAvailability(books, loans, id).Ok?
  {
    assert GetAllBooks(books) == books;
  }

  /** The name shown for a book id: that of the first Books row with the id. */
  function BookName(books: seq<Book>, id: int): string
  {
    match FirstWhere(books, BookIdIs(id))
    case None => ""
    case Some(k) => books[k].name
  }

  /** With BookID a key, exactly the one row with the id is selected by it. */
  lemma {:induction false} WhereUniqueId(books: seq<Book>, k: nat)
    requires BookIdsUnique(books) && k < |books|
    ensures Where(books, BookIdIs(books[k].id)) == [books[k]]
  {
    var p := BookIdIs(books[k].id);
    if k == 0 {
      assert forall i :: 0 <= i < |books[1..]| ==> !p(books[1..][i]) by {
        forall i | 0 <= i < |books[1..]| ensures !p(books[1..][i]) {
          assert books[1..][i] == books[i + 1];
        }
      }
      WhereNone(books[1..], p);
    } else {
      assert books[0].id != books[k].id;
      WhereUniqueId(books[1..], k - 1);
      assert books[1..][k - 1] == books[k];
    }
  }

  /** With BookID a key, a loan joins at most one Books row: the one named BookName. */
  lemma JoinedRowsUnique(books: seq<Book>, l: Loan)
    requires BookIdsUnique(books)
    ensures JoinedRows(books, l) ==
      if HasBook(books, l.bookId) then [MyBook(BookName(books, l.bookId), l.borrowDate, l.dueDate)] else []
  {
    match FirstWhere(books, BookIdIs(l.bookId))
    case None =>
      WhereNone(books, BookIdIs(l.bookId));
    case Some(k) =>
      WhereUniqueId(books, k);
  }

  /** The loans listed under "my books": active, held by u, and of a book that exists. */
  function ListedFor(books: seq<Book>, u: int): Loan -> bool
  {
    (l: Loan) => l.userId == u && IsActive(l) && HasBook(books, l.bookId)
  }

  /** One (name, borrow date, due date) entry per loan, in order. */
  function Entries(books: seq<Book>, ls: seq<Loan>): (r: seq<MyBook>)
  {
    seq(|ls|, i requires 0 <= i < |ls| => MyBook(BookName(books, ls[i].bookId), ls[i].borrowDate, ls[i].dueDate))
  }

  lemma EntriesAppend(books: seq<Book>, xs: seq<Loan>, ys: seq<Loan>)
    ensures Entries(books, xs + ys) == Entries(books, xs) + Entries(books, ys)
  {
  }

  /**
   * "My books" lists, in table order, exactly the user's active loans whose
   * book exists, one entry each.
   */
  lemma {:induction false} MyBooksAreActiveLoansInOrder(books: seq<Book>, loans: seq<Loan>, u: int)
    requires BookIdsUnique(books)
    ensures GetMyBooks(books, loans, u) == Entries(books, Where(loans, ListedFor(books, u)))
  {
    if |loans| > 0 {
      var p := ListedFor(books, u);
      var l := loans[0];
      var head := if p(l) then [l] else [];
      var rest := Where(loans[1..], p);
      MyBooksAreActiveLoansInOrder(books, loans[1..], u);
      JoinedRowsUnique(books, l);
      assert Where(loans, p) == head + rest;
      EntriesAppend(books, head, rest);
      assert (if l.userId == u && IsActive(l) then JoinedRows(books, l) else []) == Entries(books, head);
    }
  }

  /** User names are unique in Users. */
  predicate UserNamesUnique(users: seq<User>)
  {
    forall i, j :: 0 <= i < |users| && 0 <= j < |users| && users[i].name == users[j].name ==> i == j
  }

  /**
   * With unique user names, login succeeds exactly when some user has both
   * that name and that password, and it returns that user's id.
   */
  lemma LoginIffCredentialsMatch(users: seq<User>, username: string, password: string)
    requires UserNamesUnique(users)
    ensures Login(users, username, password).Ok? <==>
      exists i :: 0 <= i < |users| && users[i].name == username && users[i].password == password
    ensures forall i :: 0 <= i < |users| && users[i].name == username && users[i].password == password ==>
              Login(users, username, password) == Ok(users[i].id)
  {
    var f := FirstWhere(users, UserNameIs(username));
    forall i | 0 <= i < |users| && users[i].name == username
      ensures f == Some(i)
    {
      assert UserNameIs(username)(users[i]);
    }
  }

  // ---------------------------------------------------------------------
  // Properties of the table updates
  // ---------------------------------------------------------------------

  /** A borrow that passed its guard keeps at most one active loan per (user, book). */
  lemma BorrowKeepsOneActive(loans: seq<Loan>, hid: int, u: int, b: int, today: int)
    requires AtMostOneActive(loans) && !HasActiveLoan(loans, u, b)
    ensures AtMostOneActive(loans + [NewLoan(hid, u, b, today)])
  {
    assert forall i :: 0 <= i < |loans| ==> !ActiveFor(u, b)(loans[i]);
  }

  /** Borrow checks only the same (user, book): another user's borrow never changes whether u may borrow b. */
  lemma OtherUsersDoNotBlock(loans: seq<Loan>, hid: int, v: int, u: int, b: int, today: int)
    requires v != u
    ensures HasActiveLoan(loans + [NewLoan(hid, v, b, today)], u, b) <==> HasActiveLoan(loans, u, b)
  {
    var h := loans + [NewLoan(hid, v, b, today)];
    if HasActiveLoan(h, u, b) {
      var i :| 0 <= i < |h| && ActiveFor(u, b)(h[i]);
      assert i < |loans| && h[i] == loans[i];
    }
    if HasActiveLoan(loans, u, b) {
      var i :| 0 <= i < |loans| && ActiveFor(u, b)(loans[i]);
      assert h[i] == loans[i];
    }
  }

  /** After a borrow of b the book counts one more active loan and is unavailable. */
  lemma BorrowMakesUnavailable(books: seq<Book>, loans: seq<Loan>, hid: int, u: int, b: int, today: int)
    requires HasBook(books, b)
    ensures ActiveCount(loans + [NewLoan(hid, u, b, today)], b) == ActiveCount(loans, b) + 1
    ensures CheckAvailability(books, loans + [NewLoan(hid, u, b, today)], b) == Ok(false)
  {
    CountAppend(loans, NewLoan(hid, u, b, today), ActiveOn(b));
  }

  /** With HistoryID a key, closing by the id of row k closes row k and nothing else. */
  lemma ClosedByIdIsPointUpdate(loans: seq<Loan>, k: nat, today: int)
    requires HistoryIdsUnique(loans) && k < |loans|
    ensures ClosedById(loans, loans[k].historyId, today) == loans[k := loans[k].(returnDate := Some(today))]
  {
    var c := ClosedById(loans, loans[k].historyId, today);
    forall j | 0 <= j < |loans| ensures c[j] == loans[k := loans[k].(returnDate := Some(today))][j] {
      if j != k {
        assert loans[j].historyId != loans[k].historyId;
      }
    }
  }

  /** Closing a loan keeps at most one active loan per (user, book). */
  lemma ReturnKeepsOneActive(loans: seq<Loan>, k: nat, today: int)
    requires AtMostOneActive(loans) && k < |loans|
    ensures AtMostOneActive(loans[k := loans[k].(returnDate := Some(today))])
  {
  }

  /** Closing an active loan of a book lowers that book's active-loan count by one. */
  lemma ReturnLowersActiveCount(loans: seq<Loan>, k: nat, today: int)
    requires k < |loans| && IsActive(loans[k])
    ensures ActiveCount(loans[k := loans[k].(returnDate := Some(today))], loans[k].bookId)
         == ActiveCount(loans, loans[k].bookId) - 1
  {
    CountUpdate(loans, k, loans[k].(returnDate := Some(today)), ActiveOn(loans[k].bookId));
  }

  /**
   * A borrow followed by a return of the same (user, book) closes exactly
   * the inserted row, and every book's active-loan count, hence its
   * availability, is what it was before the borrow.
   */
  lemma BorrowThenReturn(books: seq<Book>, loans: seq<Loan>, hid: int, u: int, b: int, t0: int, t1: int, c: int)
    requires !HasActiveLoan(loans, u, b)
    requires forall i :: 0 <= i < |loans| ==> loans[i].historyId != hid
    ensures FirstActiveLoan(loans + [NewLoan(hid, u, b, t0)], u, b) == Some(|loans|)
    ensures ClosedById(loans + [NewLoan(hid, u, b, t0)], hid, t1)
         == loans + [NewLoan(hid, u, b, t0).(returnDate := Some(t1))]
    ensures ActiveCount(ClosedById(loans + [NewLoan(hid, u, b, t0)], hid, t1), c) == ActiveCount(loans, c)
    ensures CheckAvailability(books, ClosedById(loans + [NewLoan(hid, u, b, t0)], hid, t1), c)
         == CheckAvailability(books, loans, c)
  {
    var h1 := loans + [NewLoan(hid, u, b, t0)];
    var f := FirstActiveLoan(h1, u, b);
    assert ActiveFor(u, b)(h1[|loans|]);
    assert forall j :: 0 <= j < |loans| ==> h1[j] == loans[j];
    var h2 := ClosedById(h1, hid, t1);
    var closed := NewLoan(hid, u, b, t0).(returnDate := Some(t1));
    assert h2 == loans + [closed] by {
      forall j | 0 <= j < |h2| ensures h2[j] == (loans + [closed])[j] {
        if j < |loans| { assert h1[j] == loans[j]; }
      }
    }
    CountAppend(loans, closed, ActiveOn(c));
  }

  /** A renewal leaves every row's activity, user and book unchanged, so the same row is matched first. */
  lemma RenewKeepsFirstMatch(loans: seq<Loan>, u: int, b: int, due: int)
    ensures FirstActiveLoan(RenewedTo(loans, u, b, due), u, b) == FirstActiveLoan(loans, u, b)
  {
    var h := RenewedTo(loans, u, b, due);
    assert forall j :: 0 <= j < |loans| ==> (ActiveFor(u, b)(h[j]) <==> ActiveFor(u, b)(loans[j]));
  }

  /** A renewal keeps at most one active loan per (user, book). */
  lemma RenewKeepsOneActive(loans: seq<Loan>, u: int, b: int, due: int)
    requires AtMostOneActive(loans)
    ensures AtMostOneActive(RenewedTo(loans, u, b, due))
  {
    var h := RenewedTo(loans, u, b, due);
    assert forall j :: 0 <= j < |loans| ==>
      IsActive(h[j]) == IsActive(loans[j]) && h[j].userId == loans[j].userId && h[j].bookId == loans[j].bookId;
  }

  /** Under the invariant a renewal moves the due date of the first match and of no other row. */
  lemma RenewedToIsPointUpdate(loans: seq<Loan>, u: int, b: int, due: int)
    requires AtMostOneActive(loans) && HasActiveLoan(loans, u, b)
    ensures var k := FirstActiveLoan(loans, u, b).value;
      RenewedTo(loans, u, b, due) == loans[k := loans[k].(dueDate := due)]
  {
    var k := FirstActiveLoan(loans, u, b).value;
    var h := RenewedTo(loans, u, b, due);
    forall j | 0 <= j < |loans| ensures h[j] == loans[k := loans[k].(dueDate := due)][j] {
      if j != k && ActiveFor(u, b)(loans[j]) {
        assert false;
      }
    }
  }

  /**
   * Renewing twice moves every active loan of (u, b) to the first match's
   * original due date plus twice RenewalDays, and changes nothing else.
   */
  lemma RenewTwice(loans: seq<Loan>, u: int, b: int)
    requires HasActiveLoan(loans, u, b)
    ensures var k := FirstActiveLoan(loans, u, b).value;
      var once := RenewedTo(loans, u, b, RenewedDue(loans, u, b));
      HasActiveLoan(once, u, b) &&
      var twice := RenewedTo(once, u, b, RenewedDue(once, u, b));
      |twice| == |loans| &&
      (forall j :: 0 <= j < |loans| && ActiveFor(u, b)(loans[j]) ==>
         twice[j] == loans[j].(dueDate := loans[k].dueDate + 2 * RenewalDays)) &&
      (forall j :: 0 <= j < |loans| && !ActiveFor(u, b)(loans[j]) ==> twice[j] == loans[j])
  {
    var k := FirstActiveLoan(loans, u, b).value;
    var once := RenewedTo(loans, u, b, RenewedDue(loans, u, b));
    RenewKeepsFirstMatch(loans, u, b, RenewedDue(loans, u, b));
    assert ActiveFor(u, b)(once[k]);
    assert once[k].dueDate == loans[k].dueDate + RenewalDays;
  }
}
