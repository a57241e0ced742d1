/**
  What the check-then-update sequences of the catalog guarantee without ever
  enforcing it: every loan names an existing book, and a book is marked
  unavailable exactly when it has one open loan (and has none otherwise).
 */
module Invariants {
  import opened Catalog

  // ---- Counting open loans ----

  lemma OpenCountAppend(loans: seq<Loan>, loan: Loan, id: int)
    ensures OpenCount(loans + [loan], id) == OpenCount(loans, id) + (if loan.bookId == id && loan.IsOpen() then 1 else 0)
  {
  }

  /** A book no loan refers to has no open loan. */
  lemma {:induction false} OpenCountUnreferenced(loans: seq<Loan>, id: int)
    requires forall k :: 0 <= k < |loans| ==> loans[k].bookId != id
    ensures OpenCount(loans, id) == 0
  {
    if |loans| > 0 {
      OpenCountUnreferenced(loans[..|loans| - 1], id);
    }
  }

  /** A count of zero means no loan of the book is open. */
  lemma {:induction false} OpenCountZero(loans: seq<Loan>, id: int)
    requires OpenCount(loans, id) == 0
    ensures forall k :: 0 <= k < |loans| ==> !(loans[k].bookId == id && loans[k].IsOpen())
  {
    if |loans| > 0 {
      OpenCountZero(loans[..|loans| - 1], id);
      assert forall k :: 0 <= k < |loans| - 1 ==> loans[..|loans| - 1][k] == loans[k];
    }
  }

  /** Closing a book's open loans leaves it with none and leaves every other book's count alone. */
  lemma {:induction false} OpenCountAfterClose(loans: seq<Loan>, bookId: int, today: Date, id: int)
    ensures OpenCount(CloseOpenLoans(loans, bookId, today), id) == if id == bookId then 0 else OpenCount(loans, id)
  {
    if |loans| > 0 {
      var init := loans[..|loans| - 1];
      var last := loans[|loans| - 1];
      OpenCountAfterClose(init, bookId, today, id);
      OpenCountAppend(CloseOpenLoans(init, bookId, today), CloseIfOpen(last, bookId, today), id);
    }
  }

  // ---- The invariant and its consequences ----

  /** The freshly created tables satisfy the invariant. */
  lemma EmptyValid()
    ensures Valid(Empty)
  {
  }

  /** The invariant read the other way round: unavailable iff exactly one open loan, and never two. */
  lemma FlagIffOneOpenLoan(s: State, id: int)
    requires Valid(s)
    requires id in s.books
    ensures !s.books[id].available <==> OpenCount(s.loans, id) == 1
    ensures OpenCount(s.loans, id) <= 1
  {
  }

  /**
    Under the invariant the Status column tells the loans apart: "Borrowed"
    exactly when the book has an open loan, "Available" exactly when it has none.
   */
  lemma StatusShowsOpenLoan(s: State, id: int)
    requires Valid(s)
    requires id in s.books
    ensures StatusLabel(s.books[id].available) == "Borrowed" <==> OpenCount(s.loans, id) == 1
    ensures StatusLabel(s.books[id].available) == "Available" <==> OpenCount(s.loans, id) == 0
  {
  }

  /** `add_book` keeps the invariant: the new book is available and nothing refers to it yet. */
  lemma {:induction false} AddBookPreservesValid(s: State, title: string, author: string)
    requires Valid(s)
    ensures Valid(AddBook(s, title, author).next)
  {
    var r := AddBook(s, title, author);
    if r.result.Added? {
      var id := r.result.bookId;
      var t := r.next;
      assert forall k :: 0 <= k < |s.loans| ==> s.loans[k].bookId != id;
      OpenCountUnreferenced(s.loans, id);
      forall b | b in t.books
        ensures OpenCount(t.loans, b) == (if t.books[b].available then 0 else 1)
      {
        if b != id {
          assert b in s.books;
        }
      }
    }
  }

  /** `borrow_book` keeps the invariant: the flag goes down exactly when one open loan is added. */
  lemma BorrowBookPreservesValid(s: State, bookId: int, today: Date)
    requires Valid(s)
    ensures Valid(BorrowBook(s, bookId, today).next)
  {
  }

  /** `return_book` keeps the invariant: the flag goes up and the book's one open loan is closed. */
  lemma {:induction false} ReturnBookPreservesValid(s: State, bookId: int, today: Date)
    requires Valid(s)
    ensures Valid(ReturnBook(s, bookId, today).next)
  {
    var r := ReturnBook(s, bookId, today);
    if r.result == Returned {
      var t := r.next;
      assert t.loans == CloseOpenLoans(s.loans, bookId, today);
      forall b | b in t.books
        ensures OpenCount(t.loans, b) == (if t.books[b].available then 0 else 1)
      {
        OpenCountAfterClose(s.loans, bookId, today, b);
      }
      assert forall k :: 0 <= k < |t.loans| ==> t.loans[k].borrowId == s.loans[k].borrowId && t.loans[k].bookId == s.loans[k].bookId;
    }
  }

  /** The weaker reading of the invariant: unavailable iff exactly one open loan. */
  ghost predicate FlagIffExactlyOne(s: State) {
    forall id :: id in s.books ==> (!s.books[id].available <==> OpenCount(s.loans, id) == 1)
  }

  /**
    The weaker reading is not kept by `borrow_book` on its own: an available
    book with two open loans satisfies it, and borrowing it leaves three.
   */
  lemma WeakInvariantNotPreserved()
    ensures var s := State(map[1 := Book("T", "A", true)], [Loan(1, 1, 0, None), Loan(2, 1, 0, None)], 2, 3);
      && FlagIffExactlyOne(s)
      && !FlagIffExactlyOne(BorrowBook(s, 1, 0).next)
  {
  }

  // ---- Repeated and combined operations ----

  /** A second borrow of the same book is refused and adds no loan. */
  lemma BorrowTwice(s: State, bookId: int, day1: Date, day2: Date)
    requires BorrowBook(s, bookId, day1).result == Borrowed
    ensures var s1 := BorrowBook(s, bookId, day1).next;
      && BorrowBook(s1, bookId, day2).result == NotAvailable
      && BorrowBook(s1, bookId, day2).next == s1
      && |s1.loans| == |s.loans| + 1
  {
  }

  /** A second return of the same book is refused and changes nothing. */
  lemma ReturnTwice(s: State, bookId: int, day1: Date, day2: Date)
    requires ReturnBook(s, bookId, day1).result == Returned
    ensures var s1 := ReturnBook(s, bookId, day1).next;
      && ReturnBook(s1, bookId, day2).result == NotBorrowed
      && ReturnBook(s1, bookId, day2).next == s1
  {
  }

  /**
    Borrowing and then returning a book restores the books table exactly and
    leaves one extra loan for it, closed, with its borrow date not after its
    return date; earlier loans are untouched.
   */
  lemma {:induction false} BorrowThenReturn(s: State, bookId: int, day1: Date, day2: Date)
    requires Valid(s)
    requires BorrowBook(s, bookId, day1).result == Borrowed
    requires day1 <= day2
    ensures var s1 := BorrowBook(s, bookId, day1).next;
      var r := ReturnBook(s1, bookId, day2);
      && r.result == Returned
      && r.next.books == s.books
      && |r.next.loans| == |s.loans| + 1
      && r.next.loans[..|s.loans|] == s.loans
      && r.next.loans[|s.loans|] == Loan(s.nextLoanId, bookId, day1, Some(day2))
      && r.next.loans[|s.loans|].borrowDate <= r.next.loans[|s.loans|].returnDate.value
  {
    var s1 := BorrowBook(s, bookId, day1).next;
    var r := ReturnBook(s1, bookId, day2);
    assert OpenCount(s.loans, bookId) == 0;
    OpenCountZero(s.loans, bookId);
    assert forall k :: 0 <= k < |s.loans| ==> s1.loans[k] == s.loans[k];
    assert r.next.books == s.books;
    assert r.next.loans[..|s.loans|] == s.loans;
  }

  // ---- Dates ----

  /** Every closed loan was returned no earlier than it was borrowed. */
  ghost predicate ReturnsNotBeforeBorrows(s: State) {
    forall k :: 0 <= k < |s.loans| && s.loans[k].returnDate.Some? ==> s.loans[k].borrowDate <= s.loans[k].returnDate.value
  }

  /** The clock has not gone back past any recorded borrow date. */
  ghost predicate ClockNotBehind(s: State, today: Date) {
    forall k :: 0 <= k < |s.loans| ==> s.loans[k].borrowDate <= today
  }

  /** With a clock that never runs backwards, borrowing and returning keep dates ordered. */
  lemma DatesStayOrdered(s: State, bookId: int, today: Date)
    requires ReturnsNotBeforeBorrows(s)
    requires ClockNotBehind(s, today)
    ensures ReturnsNotBeforeBorrows(BorrowBook(s, bookId, today).next)
    ensures ClockNotBehind(BorrowBook(s, bookId, today).next, today)
    ensures ReturnsNotBeforeBorrows(ReturnBook(s, bookId, today).next)
    ensures ClockNotBehind(ReturnBook(s, bookId, today).next, today)
  {
  }
}
