/**
  The read-only queries of the catalog: listing every book and searching by
  title or author. A query is a scan of the books table in ascending id
  order that keeps the rows its filter selects.
 */
module Queries {
  import opened Catalog
  import Text

  /** A result row: the id of a book together with its title, author and flag. */
  datatype Row = Row(bookId: int, book: Book)

  /** Either no filter at all, or "the title or the author contains the term". */
  datatype Filter = All | TitleOrAuthorLike(term: string)

  datatype SearchResult = EmptyTerm | Found(rows: seq<Row>)

  predicate Selects(f: Filter, b: Book) {
    match f
    case All => true
    case TitleOrAuthorLike(term) => Text.Contains(b.title, term) || Text.Contains(b.author, term)
  }

  /** The rows are exactly the selected books, with their current column values, in ascending id order. */
  ghost predicate ExactSelection(s: State, f: Filter, rows: seq<Row>) {
    && (forall k :: 0 <= k < |rows| ==>
          rows[k].bookId in s.books && rows[k].book == s.books[rows[k].bookId] && Selects(f, rows[k].book))
    && (forall id :: id in s.books && Selects(f, s.books[id]) ==> Row(id, s.books[id]) in rows)
    && (forall i, j :: 0 <= i < j < |rows| ==> rows[i].bookId < rows[j].bookId)
  }

  /** The selected books among the ids `from, from + 1, ..., nextBookId - 1`, in that order. */
  function ScanFrom(s: State, f: Filter, from: int): (rows: seq<Row>)
    ensures forall k :: 0 <= k < |rows| ==>
      && from <= rows[k].bookId
      && rows[k].bookId in s.books && rows[k].book == s.books[rows[k].bookId] && Selects(f, rows[k].book)
    ensures forall id :: id in s.books && from <= id < s.nextBookId && Selects(f, s.books[id]) ==>
      Row(id, s.books[id]) in rows
    ensures forall i, j :: 0 <= i < j < |rows| ==> rows[i].bookId < rows[j].bookId
    decreases s.nextBookId - from
  {
    if from >= s.nextBookId then []
    else
      var rest := ScanFrom(s, f, from + 1);
      if from in s.books && Selects(f, s.books[from]) then
        [Row(from, s.books[from])] + rest
      else
        rest
  }

  /** Reading the books table, with or without a filter: a scan of every id the counter has handed out. */
  function Select(s: State, f: Filter): (rows: seq<Row>)
    requires BookIdsBelowCounter(s)
    ensures ExactSelection(s, f, rows)
  {
    ScanFrom(s, f, 1)
  }

  /** `display_books`: every book, each once. */
  function DisplayBooks(s: State): (rows: seq<Row>)
    requires BookIdsBelowCounter(s)
    ensures |rows| == |s.books|
    ensures forall id :: id in s.books <==> exists k :: 0 <= k < |rows| && rows[k].bookId == id
    ensures forall k :: 0 <= k < |rows| ==> rows[k].book == s.books[rows[k].bookId]
  {
    var rows := Select(s, All);
    IdsOfSortedRows(rows, s.books.Keys);
    rows
  }

  /**
    `search_book`: an empty term is refused before any query runs; otherwise
    the books whose title or author contains the term.
   */
  function SearchBook(s: State, term: string): (r: SearchResult)
    requires BookIdsBelowCounter(s)
    ensures term == [] <==> r == EmptyTerm
    ensures r.Found? ==> ExactSelection(s, TitleOrAuthorLike(term), r.rows)
  {
    if term == [] then EmptyTerm else Found(Select(s, TitleOrAuthorLike(term)))
  }

  /**
    A book just added is found, as available, by any non-empty term that its
    title or author contains.
   */
  lemma AddThenSearch(s: State, title: string, author: string, term: string)
    requires CountersAhead(s)
    requires AddBook(s, title, author).result.Added?
    requires term != [] && (Text.Contains(title, term) || Text.Contains(author, term))
    ensures var r := AddBook(s, title, author);
      && BookIdsBelowCounter(r.next)
      && var q := SearchBook(r.next, term);
      && q.Found?
      && Row(r.result.bookId, Book(title, author, true)) in q.rows
  {
  }

  /** Rows with strictly increasing ids that carry exactly the ids in `ids` number `|ids|`. */
  lemma {:induction false} IdsOfSortedRows(rows: seq<Row>, ids: set<int>)
    requires forall i, j :: 0 <= i < j < |rows| ==> rows[i].bookId < rows[j].bookId
    requires forall id :: id in ids <==> exists k :: 0 <= k < |rows| && rows[k].bookId == id
    ensures |rows| == |ids|
  {
    if |rows| > 0 {
      var init := rows[..|rows| - 1];
      var last := rows[|rows| - 1].bookId;
      assert forall k :: 0 <= k < |init| ==> init[k] == rows[k];
      forall id
        ensures id in ids - {last} <==> exists k :: 0 <= k < |init| && init[k].bookId == id
      {
        if id in ids - {last} {
          var k :| 0 <= k < |rows| && rows[k].bookId == id;
          assert k < |init|;
        }
      }
      IdsOfSortedRows(init, ids - {last});
      assert last in ids;
    }
  }
}
