# Library catalog: a verified model of the borrow/return state machine

The repository is a small library-management front end over two MySQL
tables: `books` (id, title, author, availability flag defaulting to true)
and `borrow` (one row per loan, with a return date that stays NULL while
the loan is open). Its data-access functions add a book, borrow it, return
it, list all books and search by title or author.

This project models those functions as pure transitions on an in-memory
copy of the two tables:

- `Catalog` (catalog.dfy): the state — a map from `book_id` to the book row,
  the loan rows in insertion order, and the two AUTO_INCREMENT counters —
  and `AddBook`, `BorrowBook`, `ReturnBook`. Each returns the branch it took
  (`Added`, `MissingField`, `Borrowed`, `NotAvailable`, …) with the state
  after it. The current date is a parameter.
- `Text` (text.dfy): substring containment, the meaning given to
  `LIKE '%term%'`, proved equal to the position-based definition.
- `Queries` (queries.dfy): the listing and the search as a scan of `books`
  in ascending id order.
- `Invariants` (invariants.dfy): the invariant the check-then-update
  sequences keep without ever enforcing it. Every loan names an existing
  book. An available book has no open loan, and a borrowed book has exactly
  one. Each operation preserves it. Lemmas also cover repeated borrows and
  returns and the borrow-then-return round trip.

Notes on what the code does:
- `add_book` tests only that the strings are non-empty. It does no
  trimming, so `" "` is accepted as a title.
- `borrow_book` treats a missing book and an unavailable one alike.
  `return_book` treats a missing book and an available one alike. Each
  shows one message and changes nothing. There is no separate "not found"
  outcome.
- `return_book` closes *every* open loan of the book. Under the invariant
  there is exactly one.
- The id guard is Python truthiness on an integer: only `0` is rejected.
  Negative ids pass the guard and then match no row.

The invariant as "unavailable iff exactly one open loan" is not inductive
on its own. An available book with two open loans satisfies it, and one
borrow leaves it unavailable with three (`Invariants.WeakInvariantNotPreserved`).
The model therefore keeps the stronger form "open loans = 0 if available,
else 1". It implies the iff (`Invariants.FlagIffOneOpenLoan`) and is
preserved by every operation.

## Model

| member | source | states |
|---|---|---|
| `Catalog.AddBook` | app.py:60-69 | a book is inserted iff title and author are both non-empty; it gets the next AUTO_INCREMENT id, fresh when the counters are sound, with `available = true`; other books, loans and the loan counter are unchanged; otherwise nothing changes |
| `Catalog.BorrowBook` | app.py:71-86 | id 0 is rejected; the borrow succeeds iff the book exists and is available, and then only its flag goes to false and exactly one loan `(next id, book, today, NULL)` is appended after the unchanged old loans; in every other case the state is unchanged |
| `Catalog.CloseOpenLoans` | app.py:96 | the UPDATE keeps the table length, sets `return_date = today` on exactly the open loans of the book, and leaves every other row as it was |
| `Catalog.ReturnBook` | app.py:88-103 | id 0 is rejected; the return succeeds iff the book exists and is unavailable, and then its flag goes to true and every open loan of it is closed with today's date, all other rows untouched; otherwise the state is unchanged |
| `Catalog.StatusLabel` | app.py:55 | the Status column reads "Available" exactly when the flag is true and "Borrowed" exactly when it is false |
| `Text.ContainsIff` | app.py:109-110 | the sliding substring search holds iff the term occurs at some position of the column value |
| `Text.EmptyContained` | app.py:107 | an empty term matches every string, which is why the empty term is guarded before the query |
| `Queries.ScanFrom` | app.py:109-111 | scanning from a given id returns only selected books at or above it, with their current rows, every such selected book below the counter, in strictly ascending id order |
| `Queries.Select` | app.py:109-111 | the query returns exactly the books its filter selects, each with its current row, each once, in ascending id order |
| `Queries.DisplayBooks` | app.py:47-51 | the listing has one row per book, names every book, and carries each book's current row |
| `Queries.SearchBook` | app.py:105-121 | an empty term gives `EmptyTerm` and no query; a non-empty term gives exactly the books whose title or author contains it |
| `Queries.AddThenSearch` | app.py:62-64 | a book just added is found, with its title, author and `available = true`, by any non-empty term its title or author contains |
| `Invariants.OpenCountAppend` | app.py:79 | appending a loan raises a book's open-loan count by one exactly when the new loan is an open loan of that book |
| `Invariants.OpenCountAfterClose` | app.py:96 | after the closing UPDATE the returned book has no open loan and every other book keeps its count |
| `Invariants.EmptyValid` | app.py:26-42 | freshly created tables satisfy the invariant |
| `Invariants.FlagIffOneOpenLoan` | app.py:77-79 | under the invariant a book is unavailable iff it has exactly one open loan, and it never has two |
| `Invariants.StatusShowsOpenLoan` | app.py:55 | under the invariant the Status column reads "Borrowed" exactly when the book has an open loan and "Available" exactly when it has none |
| `Invariants.AddBookPreservesValid` | app.py:62-64 | adding a book keeps the counters, the foreign key and the flag/open-loan agreement |
| `Invariants.BorrowBookPreservesValid` | app.py:75-79 | borrowing keeps the counters, the foreign key and the flag/open-loan agreement |
| `Invariants.ReturnBookPreservesValid` | app.py:92-96 | returning keeps the counters, the foreign key and the flag/open-loan agreement |
| `Invariants.WeakInvariantNotPreserved` | app.py:77-79 | a concrete state satisfies "unavailable iff one open loan" while one borrow breaks it, so the stronger form is the one to keep |
| `Invariants.BorrowTwice` | app.py:77-83 | after a successful borrow a second borrow of the same book is refused and adds no loan |
| `Invariants.ReturnTwice` | app.py:94-100 | after a successful return a second return of the same book is refused and changes nothing |
| `Invariants.BorrowThenReturn` | app.py:78-96 | borrow then return with a non-decreasing date restores the books table exactly, keeps the old loans, and adds one closed loan whose borrow date is not after its return date |
| `Invariants.DatesStayOrdered` | app.py:79-96 | if the date never runs backwards, borrow and return keep every closed loan's return date on or after its borrow date |

## Left out

- The Streamlit pages, forms, messages and `st.experimental_rerun`. These are presentation only. The branch taken is returned as a result value instead.
- The MySQL connection, the credentials and the DDL execution in `setup_database`. The schema serves only as the shape of the state.
- pandas DataFrame rendering. Only the flag-to-status mapping is modelled (`Catalog.StatusLabel`).
- `LIKE` semantics beyond plain containment. `%` and `_` inside the term, and case-insensitive collation, depend on the database configuration and are not modelled.
- Result order. The SELECTs have no ORDER BY, so the database may return rows in any order. The model fixes ascending `book_id` order. Its contracts pin down which rows come back, not the database's order.
- Concurrency and transaction isolation. Each call is treated as atomic and sequential, so the unresolved race between two borrows is not modelled.
- The clock. `date.today()` is the `today` parameter, a day number.
- Database limits. The model does not cover the 32-bit `INT` bound on the AUTO_INCREMENT counters or the 255-character `VARCHAR` limit on title and author. Ids and strings are unbounded.
- Database errors raised mid-operation (a failed commit, a lost connection). The model assumes every statement succeeds.
