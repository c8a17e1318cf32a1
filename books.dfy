/** internal/data/books.go: the book record and the two read queries over
    the `books` table, which is given as a sequence of rows. */
module Books {
  import opened Errors
  import Ordering

  /** One row of `books`; times are seconds since an epoch. */
  datatype Book = Book(
    id: int,
    title: string,
    author: string,
    publishDate: int,
    isbn: string,
    description: string,
    coverImage: string,
    genres: seq<string>,
    pages: int,
    language: string,
    publisher: string,
    copiesTotal: int,
    copiesAvailable: int,
    version: int)

  /** `id` is the primary key of `books`. */
  ghost predicate UniqueIds(table: seq<Book>) {
    forall i, j :: 0 <= i < j < |table| ==> table[i].id != table[j].id
  }

  function Ids(table: seq<Book>): set<int> {
    set b | b in table :: b.id
  }

  function AvailableCopies(b: Book): int {
    b.copiesAvailable
  }

  /** The table as `ORDER BY copies_available DESC` returns it. */
  function ByAvailableDesc(table: seq<Book>): (ordered: seq<Book>)
    ensures multiset(ordered) == multiset(table)
    ensures |ordered| == |table|
    ensures forall i, j :: 0 <= i < j < |ordered| ==>
              ordered[i].copiesAvailable >= ordered[j].copiesAvailable
  {
    var r := Ordering.SortDesc(table, AvailableCopies);
    assert forall i, j :: 0 <= i < j < |r| ==> AvailableCopies(r[i]) >= AvailableCopies(r[j]);
    r
  }

  function Min(a: int, b: int): int {
    if a <= b then a else b
  }

  /** `LIMIT limit OFFSET offset`: the rows from position `offset` on, at
      most `limit` of them. */
  function Window(ordered: seq<Book>, limit: nat, offset: nat): (w: seq<Book>)
  {
    ordered[Min(offset, |ordered|)..Min(offset + limit, |ordered|)]
  }

  /** The window holds at most `limit` rows, exactly the rows at positions
      `offset`, `offset + 1`, ... of the ordering, and is empty once
      `offset` reaches the end of the table. */
  lemma WindowShape(ordered: seq<Book>, limit: nat, offset: nat)
    ensures |Window(ordered, limit, offset)| <= limit
    ensures |Window(ordered, limit, offset)| == Min(limit, if offset < |ordered| then |ordered| - offset else 0)
    ensures forall k :: 0 <= k < |Window(ordered, limit, offset)| ==>
              Window(ordered, limit, offset)[k] == ordered[offset + k]
    ensures offset >= |ordered| ==> Window(ordered, limit, offset) == []
  {
  }

  /** The window of an ordering keeps its available copies non-increasing. */
  lemma WindowNonIncreasing(table: seq<Book>, limit: nat, offset: nat)
    ensures var w := Window(ByAvailableDesc(table), limit, offset);
            forall i, j :: 0 <= i < j < |w| ==> w[i].copiesAvailable >= w[j].copiesAvailable
  {
    var ordered := ByAvailableDesc(table);
    var w := Window(ordered, limit, offset);
    WindowShape(ordered, limit, offset);
    forall i, j | 0 <= i < j < |w| ensures w[i].copiesAvailable >= w[j].copiesAvailable {
      assert w[i] == ordered[offset + i] && w[j] == ordered[offset + j];
    }
  }

  /** The columns GetBooks selects; pages, language, publisher and version
      are not selected and keep their zero values. */
  function ListColumns(b: Book): (r: Book)
    ensures r.id == b.id && r.copiesTotal == b.copiesTotal && r.copiesAvailable == b.copiesAvailable
    ensures r.pages == 0 && r.language == "" && r.publisher == "" && r.version == 0
  {
    b.(pages := 0, language := "", publisher := "", version := 0)
  }

  function Listed(rows: seq<Book>): (r: seq<Book>)
    ensures |r| == |rows|
    ensures forall k :: 0 <= k < |rows| ==> r[k] == ListColumns(rows[k])
  {
    seq(|rows|, k requires 0 <= k < |rows| => ListColumns(rows[k]))
  }

  const NegativeOffset := Other("pq: OFFSET must not be negative")
  const NegativeLimit := Other("pq: LIMIT must not be negative")

  /** Whether the statement itself fails: by the fault, or because the
      store refuses a negative OFFSET or LIMIT (checked in that order). */
  function StatementError(limit: int, offset: int, fault: Fault): Option<Error> {
    if fault.QueryFails? then Some(fault.cause)
    else if offset < 0 then Some(NegativeOffset)
    else if limit < 0 then Some(NegativeLimit)
    else None
  }

  /** GetBooks: the page of `limit` books starting at `offset` in
      descending order of available copies. Any failure of the statement,
      of a row scan or of the final iteration check returns that error and
      no list. */
  method GetBooks(table: seq<Book>, limit: int, offset: int, fault: Fault) returns (r: Result<seq<Book>>)
    ensures StatementError(limit, offset, fault).Some? ==> r == Err(StatementError(limit, offset, fault).value)
    ensures StatementError(limit, offset, fault).None? ==>
              var rows := Window(ByAvailableDesc(table), limit, offset);
              if fault.ScanFails? && fault.row < |rows| then r == Err(fault.cause)
              else if fault.IterationFails? then r == Err(fault.cause)
              else r == Ok(Listed(rows))
  {
    var failure := StatementError(limit, offset, fault);
    if failure.Some? {
      return Err(failure.value);
    }
    var rows := Window(ByAvailableDesc(table), limit, offset);
    var books: seq<Book> := [];
    var i := 0;
    while i < |rows|
      invariant 0 <= i <= |rows|
      invariant |books| == i
      invariant forall k :: 0 <= k < i ==> books[k] == ListColumns(rows[k])
      invariant fault.ScanFails? ==> fault.row >= i
    {
      if fault.ScanFails? && fault.row == i {
        return Err(fault.cause);
      }
      books := books + [ListColumns(rows[i])];
      i := i + 1;
    }
    if fault.IterationFails? {
      return Err(fault.cause);
    }
    assert books == Listed(rows);
    return Ok(books);
  }

  /** What GetBooks returns when nothing fails: at most `limit` books, in
      non-increasing order of available copies, none once `offset` is past
      the end of the table. */
  lemma GetBooksPage(table: seq<Book>, limit: nat, offset: nat)
    ensures var page := Listed(Window(ByAvailableDesc(table), limit, offset));
            && |page| <= limit
            && (forall i, j :: 0 <= i < j < |page| ==> page[i].copiesAvailable >= page[j].copiesAvailable)
            && (offset >= |table| ==> page == [])
  {
    WindowShape(ByAvailableDesc(table), limit, offset);
    WindowNonIncreasing(table, limit, offset);
  }

  /** The first row with the given id, if any. */
  function FindById(table: seq<Book>, id: int): (r: Option<Book>)
    ensures r.Some? <==> id in Ids(table)
    ensures r.Some? ==> r.value in table && r.value.id == id
  {
    if table == [] then None
    else if table[0].id == id then Some(table[0])
    else
      assert forall b :: b in table[1..] ==> b in table;
      assert table == [table[0]] + table[1..];
      FindById(table[1..], id)
  }

  /** GetBookByID: on success the whole row with that id, copy counts and
      version included; "no rows" becomes ErrRecordNotFound and any other
      error is returned as it is. `fault` is an error the store reports
      instead of answering. */
  function GetBookByID(table: seq<Book>, id: int, fault: Option<Error>): (r: Result<Book>)
    ensures fault.None? ==> (r.Ok? <==> id in Ids(table))
    ensures fault.None? && r.Err? ==> r.error == ErrRecordNotFound
    ensures r.Ok? ==> r.value in table && r.value.id == id
    ensures fault.Some? && fault.value == ErrNoRows ==> r == Err(ErrRecordNotFound)
    ensures fault.Some? && fault.value != ErrNoRows ==> r == Err(fault.value)
  {
    var scanErr := if fault.Some? then fault
                   else if FindById(table, id).None? then Some(ErrNoRows)
                   else None;
    if scanErr.Some? then Err(NotFoundIfNoRows(scanErr.value))
    else Ok(FindById(table, id).value)
  }

  /** With the primary key in place the row found is the only one with
      that id. */
  lemma GetBookByIDUnique(table: seq<Book>, id: int, k: nat)
    requires UniqueIds(table)
    requires k < |table| && table[k].id == id
    ensures GetBookByID(table, id, None) == Ok(table[k])
  {
    var r := GetBookByID(table, id, None);
    var j :| 0 <= j < |table| && table[j] == r.value;
    assert j == k;
  }
}
