/**
  The library catalog as an in-memory state: the `books` table as a map from
  `book_id` to its row, the `borrow` table as a sequence of loan rows in
  insertion order, and the two AUTO_INCREMENT counters. Each data-access
  operation of the catalog is a pure transition that returns the branch it
  took together with the state after it.
 */
module Catalog {

  /** A calendar day, counted from some fixed origin; `date.today()` is passed in as one. */
  type Date = nat

  datatype Option<T> = None | Some(value: T)

  /** A row of `books`. */
  datatype Book = Book(title: string, author: string, available: bool)

  /** A row of `borrow`; `returnDate` is NULL while the loan is open. */
  datatype Loan = Loan(borrowId: int, bookId: int, borrowDate: Date, returnDate: Option<Date>) {
    predicate IsOpen() {
      returnDate.None?
    }
  }

  /**
    `nextBookId` and `nextLoanId` are the values AUTO_INCREMENT hands out next
    for `books.book_id` and `borrow.borrow_id`.
   */
  datatype State = State(books: map<int, Book>, loans: seq<Loan>, nextBookId: int, nextLoanId: int)

  /** Freshly created tables: no rows, both counters at 1. */
  const Empty := State(map[], [], 1, 1)

  /** The branch an operation took, and the state it leaves behind. */
  datatype Step<R> = Step(result: R, next: State)

  datatype AddResult = Added(bookId: int) | MissingField
  datatype BorrowResult = Borrowed | BorrowWithoutId | NotAvailable
  datatype ReturnResult = Returned | ReturnWithoutId | NotBorrowed

  /** Every book id lies in `[1, nextBookId)`, as AUTO_INCREMENT hands them out. */
  ghost predicate BookIdsBelowCounter(s: State) {
    forall id :: id in s.books ==> 1 <= id < s.nextBookId
  }

  /** Every book id and loan id was handed out by its counter, and loan ids increase along the table. */
  ghost predicate CountersAhead(s: State) {
    && 1 <= s.nextBookId
    && 1 <= s.nextLoanId
    && BookIdsBelowCounter(s)
    && (forall k :: 0 <= k < |s.loans| ==> 1 <= s.loans[k].borrowId < s.nextLoanId)
    && (forall i, j :: 0 <= i < j < |s.loans| ==> s.loans[i].borrowId < s.loans[j].borrowId)
  }

  /** The foreign key `borrow.book_id REFERENCES books(book_id)`. */
  ghost predicate LoansReferenceBooks(s: State) {
    forall k :: 0 <= k < |s.loans| ==> s.loans[k].bookId in s.books
  }

  /** The number of open loans of book `id`. */
  function OpenCount(loans: seq<Loan>, id: int): nat
  {
    if |loans| == 0 then 0
    else OpenCount(loans[..|loans| - 1], id) + (if loans[|loans| - 1].bookId == id && loans[|loans| - 1].IsOpen() then 1 else 0)
  }

  /** An available book has no open loan; a borrowed one has exactly one. */
  ghost predicate FlagsMatchLoans(s: State) {
    forall id :: id in s.books ==> OpenCount(s.loans, id) == (if s.books[id].available then 0 else 1)
  }

  /** The invariant every catalog operation preserves. */
  ghost predicate Valid(s: State) {
    CountersAhead(s) && LoansReferenceBooks(s) && FlagsMatchLoans(s)
  }

  /**
    Insert a book with the next id and the column default `available = TRUE`,
    provided both fields are non-empty strings (no trimming is done).
   */
  function AddBook(s: State, title: string, author: string): (r: Step<AddResult>)
    ensures r.result.Added? <==> title != [] && author != []
    ensures r.result.Added? ==>
      var id := r.result.bookId;
      && id == s.nextBookId
      && (CountersAhead(s) ==> id !in s.books)
      && r.next.books.Keys == s.books.Keys + {id}
      && r.next.books[id] == Book(title, author, true)
      && (forall b :: b in s.books && b != id ==> r.next.books[b] == s.books[b])
      && r.next.loans == s.loans
      && r.next.nextBookId == id + 1
      && r.next.nextLoanId == s.nextLoanId
    ensures !r.result.Added? ==> r.next == s
  {
    if title != [] && author != [] then
      var id := s.nextBookId;
      Step(Added(id), s.(books := s.books[id := Book(title, author, true)], nextBookId := id + 1))
    else
      Step(MissingField, s)
  }

  /**
    Borrow book `bookId` on day `today`: a zero id is rejected outright; an
    existing available book is marked unavailable and one open loan is
    appended; anything else (missing or already borrowed) changes nothing.
   */
  function BorrowBook(s: State, bookId: int, today: Date): (r: Step<BorrowResult>)
    ensures r.result == BorrowWithoutId <==> bookId == 0
    ensures r.result == Borrowed <==> bookId != 0 && bookId in s.books && s.books[bookId].available
    ensures r.result == Borrowed ==>
      && r.next.books.Keys == s.books.Keys
      && r.next.books[bookId] == s.books[bookId].(available := false)
      && (forall b :: b in s.books && b != bookId ==> r.next.books[b] == s.books[b])
      && |r.next.loans| == |s.loans| + 1
      && r.next.loans[..|s.loans|] == s.loans
      && r.next.loans[|s.loans|] == Loan(s.nextLoanId, bookId, today, None)
      && r.next.nextBookId == s.nextBookId
      && r.next.nextLoanId == s.nextLoanId + 1
    ensures r.result != Borrowed ==> r.next == s
  {
    if bookId == 0 then
      Step(BorrowWithoutId, s)
    else if bookId in s.books && s.books[bookId].available then
      var loan := Loan(s.nextLoanId, bookId, today, None);
      Step(Borrowed, s.(books := s.books[bookId := s.books[bookId].(available := false)],
                        loans := s.loans + [loan],
                        nextLoanId := s.nextLoanId + 1))
    else
      Step(NotAvailable, s)
  }

  /** The loan with its return date set to `today` when it is an open loan of `bookId`. */
  function CloseIfOpen(loan: Loan, bookId: int, today: Date): Loan {
    if loan.bookId == bookId && loan.IsOpen() then loan.(returnDate := Some(today)) else loan
  }

  /**
    The closing update of a return: every open loan of the book gets today as
    its return date; closed loans and other books' loans are left as they were.
   */
  function CloseOpenLoans(loans: seq<Loan>, bookId: int, today: Date): (r: seq<Loan>)
    ensures |r| == |loans|
    ensures forall k :: 0 <= k < |loans| && loans[k].bookId == bookId && loans[k].IsOpen() ==>
      r[k] == loans[k].(returnDate := Some(today))
    ensures forall k :: 0 <= k < |loans| && !(loans[k].bookId == bookId && loans[k].IsOpen()) ==>
      r[k] == loans[k]
  {
    if |loans| == 0 then []
    else CloseOpenLoans(loans[..|loans| - 1], bookId, today) + [CloseIfOpen(loans[|loans| - 1], bookId, today)]
  }

  /**
    Return book `bookId` on day `today`: a zero id is rejected outright; an
    existing unavailable book is marked available and its open loans are
    closed; anything else (missing or not borrowed) changes nothing.
   */
  function ReturnBook(s: State, bookId: int, today: Date): (r: Step<ReturnResult>)
    ensures r.result == ReturnWithoutId <==> bookId == 0
    ensures r.result == Returned <==> bookId != 0 && bookId in s.books && !s.books[bookId].available
    ensures r.result == Returned ==>
      && r.next.books.Keys == s.books.Keys
      && r.next.books[bookId] == s.books[bookId].(available := true)
      && (forall b :: b in s.books && b != bookId ==> r.next.books[b] == s.books[b])
      && |r.next.loans| == |s.loans|
      && (forall k :: 0 <= k < |s.loans| && s.loans[k].bookId == bookId && s.loans[k].IsOpen() ==>
            r.next.loans[k] == s.loans[k].(returnDate := Some(today)))
      && (forall k :: 0 <= k < |s.loans| && !(s.loans[k].bookId == bookId && s.loans[k].IsOpen()) ==>
            r.next.loans[k] == s.loans[k])
      && r.next.nextBookId == s.nextBookId
      && r.next.nextLoanId == s.nextLoanId
    ensures r.result != Returned ==> r.next == s
  {
    if bookId == 0 then
      Step(ReturnWithoutId, s)
    else if bookId in s.books && !s.books[bookId].available then
      Step(Returned, s.(books := s.books[bookId := s.books[bookId].(available := true)],
                        loans := CloseOpenLoans(s.loans, bookId, today)))
    else
      Step(NotBorrowed, s)
  }

  /** The label shown in the Status column for a book's availability flag. */
  function StatusLabel(available: bool): (r: string)
    ensures available <==> r == "Available"
    ensures !available <==> r == "Borrowed"
  {
    if available then "Available" else "Borrowed"
  }
}
