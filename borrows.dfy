/** internal/data/borrows.go: borrow records and the three per-member read
    queries over the `borrow_records` table joined with `books`. Both
    tables are given as sequences of rows. */
module Borrows {
  import opened Errors
  import Ordering
  import Books

  /** One row of `borrow_records`; a null `returned_at` marks an active
      loan. Times are seconds since an epoch. */
  datatype BorrowRecord = BorrowRecord(
    id: int,
    userID: int,
    bookID: int,
    borrowedAt: int,
    returnedAt: Option<int>,
    dueAt: Option<int>)

  /** A current loan as CurrentByUser reports it, with the book's summary. */
  datatype BorrowedBook = BorrowedBook(
    borrowID: int,
    borrowedAt: int,
    dueAt: int,
    bookID: int,
    title: string,
    author: string,
    coverImage: string)

  /** `WHERE user_id = u`. */
  function RecordsOf(records: seq<BorrowRecord>, u: int): (r: seq<BorrowRecord>)
    ensures forall x :: x in r ==> x in records && x.userID == u
    ensures forall x :: x in records && x.userID == u ==> x in r
  {
    if records == [] then []
    else (if records[0].userID == u then [records[0]] else []) + RecordsOf(records[1..], u)
  }

  /** `WHERE user_id = u AND returned_at IS NULL`. */
  function ActiveOf(records: seq<BorrowRecord>, u: int): (r: seq<BorrowRecord>)
    ensures forall x :: x in r ==> x in records && x.userID == u && x.returnedAt.None?
    ensures forall x :: x in records && x.userID == u && x.returnedAt.None? ==> x in r
  {
    if records == [] then []
    else (if records[0].userID == u && records[0].returnedAt.None? then [records[0]] else [])
         + ActiveOf(records[1..], u)
  }

  /** The user's records that have been returned. */
  function ReturnedOf(records: seq<BorrowRecord>, u: int): seq<BorrowRecord> {
    if records == [] then []
    else (if records[0].userID == u && records[0].returnedAt.Some? then [records[0]] else [])
         + ReturnedOf(records[1..], u)
  }

  /** Every record of the user is either active or returned, so the total
      count is the active count plus the returned count. */
  lemma {:induction false} ActivePlusReturned(records: seq<BorrowRecord>, u: int)
    ensures |RecordsOf(records, u)| == |ActiveOf(records, u)| + |ReturnedOf(records, u)|
  {
    if records != [] {
      ActivePlusReturned(records[1..], u);
    }
  }

  /** A borrow record paired with a book it joins with. */
  datatype JoinedRow = JoinedRow(record: BorrowRecord, book: Books.Book)

  /** The books a record joins with: `INNER JOIN books b ON b.id = br.book_id`. */
  function Partners(r: BorrowRecord, books: seq<Books.Book>): (rows: seq<JoinedRow>)
    ensures forall row :: row in rows ==> row.record == r && row.book in books && row.book.id == r.bookID
    ensures forall b :: b in books && b.id == r.bookID ==> JoinedRow(r, b) in rows
  {
    if books == [] then []
    else
      var rows := (if books[0].id == r.bookID then [JoinedRow(r, books[0])] else []) + Partners(r, books[1..]);
      assert forall b :: b in books ==> b == books[0] || b in books[1..];
      rows
  }

  /** The inner join of the records with the books. */
  function Joined(records: seq<BorrowRecord>, books: seq<Books.Book>): (rows: seq<JoinedRow>)
    ensures forall row :: row in rows ==> row.record in records && row.book in books && row.book.id == row.record.bookID
    ensures forall x, b :: x in records && b in books && b.id == x.bookID ==> JoinedRow(x, b) in rows
  {
    if records == [] then []
    else
      var rows := Partners(records[0], books) + Joined(records[1..], books);
      assert forall row :: row in rows ==> row.record in records by {
        assert forall x :: x in records[1..] ==> x in records;
      }
      assert forall x :: x in records ==> x == records[0] || x in records[1..];
      rows
  }

  function BorrowedAtOf(row: JoinedRow): int {
    row.record.borrowedAt
  }

  /** The rows CurrentByUser's statement produces: the user's active loans
      joined with their books, `ORDER BY br.borrowed_at DESC`. */
  function CurrentRows(records: seq<BorrowRecord>, books: seq<Books.Book>, u: int): (rows: seq<JoinedRow>)
    ensures forall row :: row in rows ==>
              row.record in records && row.record.userID == u && row.record.returnedAt.None?
              && row.book in books && row.book.id == row.record.bookID
    ensures forall i, j :: 0 <= i < j < |rows| ==> rows[i].record.borrowedAt >= rows[j].record.borrowedAt
    ensures multiset(rows) == multiset(Joined(ActiveOf(records, u), books))
  {
    var joined := Joined(ActiveOf(records, u), books);
    var rows := Ordering.SortDesc(joined, BorrowedAtOf);
    Ordering.SortDescMembers(joined, BorrowedAtOf);
    assert forall i, j :: 0 <= i < j < |rows| ==> BorrowedAtOf(rows[i]) >= BorrowedAtOf(rows[j]);
    rows
  }

  /** Every active loan of the user whose book exists is listed, with
      that book. */
  lemma CurrentRowsListsEveryLoan(records: seq<BorrowRecord>, books: seq<Books.Book>, u: int,
                                  x: BorrowRecord, b: Books.Book)
    requires x in records && x.userID == u && x.returnedAt.None?
    requires b in books && b.id == x.bookID
    ensures JoinedRow(x, b) in CurrentRows(records, books, u)
  {
    var joined := Joined(ActiveOf(records, u), books);
    assert JoinedRow(x, b) in joined;
    assert JoinedRow(x, b) in multiset(joined);
  }

  /** The error Scan reports when a selected `due_at` is NULL: the column
      is scanned into a non-nullable time. */
  const NullDueAt := Other("sql: Scan error on column index 2, name \"due_at\": unsupported Scan, storing driver.Value type <nil> into type *time.Time")

  /** The summary one joined row scans into. */
  function Summary(row: JoinedRow): BorrowedBook
    requires row.record.dueAt.Some?
  {
    BorrowedBook(row.record.id, row.record.borrowedAt, row.record.dueAt.value,
                 row.book.id, row.book.title, row.book.author, row.book.coverImage)
  }

  /** No row before position `n` has a NULL `due_at`. */
  predicate DueAtKnownBefore(rows: seq<JoinedRow>, n: nat)
    requires n <= |rows|
  {
    forall k :: 0 <= k < n ==> rows[k].record.dueAt.Some?
  }

  /** CurrentByUser: the user's active loans of existing books, most recent
      first, as summaries. A failing statement, a failing scan (including a
      NULL `due_at`) or a failing iteration check returns the error and no
      list. */
  method CurrentByUser(records: seq<BorrowRecord>, books: seq<Books.Book>, u: int, fault: Fault)
    returns (r: Result<seq<BorrowedBook>>)
    ensures fault.QueryFails? ==> r == Err(fault.cause)
    ensures fault.IterationFails? && r.Err? ==> r.error == fault.cause || r.error == NullDueAt
    ensures fault.IterationFails? && (forall row :: row in CurrentRows(records, books, u) ==> row.record.dueAt.Some?) ==>
              r == Err(fault.cause)
    ensures r.Ok? <==>
              && !fault.QueryFails? && !fault.IterationFails?
              && (fault.ScanFails? ==> fault.row >= |CurrentRows(records, books, u)|)
              && forall row :: row in CurrentRows(records, books, u) ==> row.record.dueAt.Some?
    ensures r.Ok? ==>
              var rows := CurrentRows(records, books, u);
              && |r.value| == |rows|
              && forall k :: 0 <= k < |rows| ==> rows[k].record.dueAt.Some? && r.value[k] == Summary(rows[k])
    ensures var rows := CurrentRows(records, books, u);
            fault.ScanFails? && fault.row < |rows| && DueAtKnownBefore(rows, fault.row) ==> r == Err(fault.cause)
    ensures var rows := CurrentRows(records, books, u);
            forall j :: 0 <= j < |rows| && rows[j].record.dueAt.None? && DueAtKnownBefore(rows, j) ==>
              (!fault.QueryFails? && !(fault.ScanFails? && fault.row <= j) ==> r == Err(NullDueAt))
  {
    if fault.QueryFails? {
      return Err(fault.cause);
    }
    var rows := CurrentRows(records, books, u);
    var borrows: seq<BorrowedBook> := [];
    var i := 0;
    while i < |rows|
      invariant 0 <= i <= |rows|
      invariant |borrows| == i
      invariant forall k :: 0 <= k < i ==> rows[k].record.dueAt.Some? && borrows[k] == Summary(rows[k])
      invariant fault.ScanFails? ==> fault.row >= i
    {
      if fault.ScanFails? && fault.row == i {
        return Err(fault.cause);
      }
      if rows[i].record.dueAt.None? {
        return Err(NullDueAt);
      }
      borrows := borrows + [Summary(rows[i])];
      i := i + 1;
    }
    if fault.IterationFails? {
      return Err(fault.cause);
    }
    return Ok(borrows);
  }

  /** Positions of the user's records in the table. */
  ghost function PositionsOf(records: seq<BorrowRecord>, u: int): set<int> {
    set k | 0 <= k < |records| && records[k].userID == u
  }

  /** Positions of the user's active records in the table. */
  ghost function ActivePositionsOf(records: seq<BorrowRecord>, u: int): set<int> {
    set k | 0 <= k < |records| && records[k].userID == u && records[k].returnedAt.None?
  }

  lemma {:induction false} ActiveOfAppend(a: seq<BorrowRecord>, b: seq<BorrowRecord>, u: int)
    ensures ActiveOf(a + b, u) == ActiveOf(a, u) + ActiveOf(b, u)
    decreases |a|
  {
    if a == [] {
      assert a + b == b;
    } else {
      assert (a + b)[0] == a[0] && (a + b)[1..] == a[1..] + b;
      ActiveOfAppend(a[1..], b, u);
    }
  }

  lemma {:induction false} RecordsOfAppend(a: seq<BorrowRecord>, b: seq<BorrowRecord>, u: int)
    ensures RecordsOf(a + b, u) == RecordsOf(a, u) + RecordsOf(b, u)
    decreases |a|
  {
    if a == [] {
      assert a + b == b;
    } else {
      assert (a + b)[0] == a[0] && (a + b)[1..] == a[1..] + b;
      RecordsOfAppend(a[1..], b, u);
    }
  }

  /** The active positions of a table are those of all but its last row,
      plus the last one when it is an active record of the user. */
  lemma ActivePositionsSnoc(records: seq<BorrowRecord>, u: int)
    requires records != []
    ensures var n := |records| - 1;
            ActivePositionsOf(records, u)
            == ActivePositionsOf(records[..n], u)
               + (if records[n].userID == u && records[n].returnedAt.None? then {n} else {})
  {
    var n := |records| - 1;
    var init := records[..n];
    var before := ActivePositionsOf(init, u);
    var last: set<int> := if records[n].userID == u && records[n].returnedAt.None? then {n} else {};
    var all := ActivePositionsOf(records, u);
    forall k | k in all ensures k in before + last {
      if k < n { assert records[k] == init[k]; }
    }
    forall k | k in before + last ensures k in all {
      if k < n { assert records[k] == init[k]; }
    }
  }

  /** The same for the positions of all the user's records. */
  lemma PositionsSnoc(records: seq<BorrowRecord>, u: int)
    requires records != []
    ensures var n := |records| - 1;
            PositionsOf(records, u)
            == PositionsOf(records[..n], u) + (if records[n].userID == u then {n} else {})
  {
    var n := |records| - 1;
    var init := records[..n];
    var before := PositionsOf(init, u);
    var last: set<int> := if records[n].userID == u then {n} else {};
    var all := PositionsOf(records, u);
    forall k | k in all ensures k in before + last {
      if k < n { assert records[k] == init[k]; }
    }
    forall k | k in before + last ensures k in all {
      if k < n { assert records[k] == init[k]; }
    }
  }

  /** ActiveOf keeps exactly one entry per active record of the user. */
  lemma {:induction false} ActiveOfSize(records: seq<BorrowRecord>, u: int)
    ensures |ActiveOf(records, u)| == |ActivePositionsOf(records, u)|
    decreases |records|
  {
    if records == [] {
      assert ActivePositionsOf(records, u) == {};
    } else {
      var n := |records| - 1;
      var init := records[..n];
      assert records == init + [records[n]];
      ActiveOfAppend(init, [records[n]], u);
      ActiveOfSize(init, u);
      ActivePositionsSnoc(records, u);
      assert n !in ActivePositionsOf(init, u);
      assert |ActiveOf([records[n]], u)| == if records[n].userID == u && records[n].returnedAt.None? then 1 else 0;
    }
  }

  /** RecordsOf keeps exactly one entry per record of the user. */
  lemma {:induction false} RecordsOfSize(records: seq<BorrowRecord>, u: int)
    ensures |RecordsOf(records, u)| == |PositionsOf(records, u)|
    decreases |records|
  {
    if records == [] {
      assert PositionsOf(records, u) == {};
    } else {
      var n := |records| - 1;
      var init := records[..n];
      assert records == init + [records[n]];
      RecordsOfAppend(init, [records[n]], u);
      RecordsOfSize(init, u);
      PositionsSnoc(records, u);
      assert n !in PositionsOf(init, u);
      assert |RecordsOf([records[n]], u)| == if records[n].userID == u then 1 else 0;
    }
  }

  /** ActiveCountByUser: how many of the user's records have a null
      `returned_at`. When the store fails the count stays 0 and the error
      is returned. */
  function ActiveCountByUser(records: seq<BorrowRecord>, u: int, fault: Option<Error>): (r: (int, Option<Error>))
    ensures fault.None? ==> r.1.None? && r.0 == |ActivePositionsOf(records, u)|
    ensures fault.Some? ==> r == (0, fault)
  {
    ActiveOfSize(records, u);
    if fault.Some? then (0, fault) else (|ActiveOf(records, u)|, None)
  }

  /** TotalCountByUser: how many records the user has, returned or not. */
  function TotalCountByUser(records: seq<BorrowRecord>, u: int, fault: Option<Error>): (r: (int, Option<Error>))
    ensures fault.None? ==> r.1.None? && r.0 == |PositionsOf(records, u)|
    ensures fault.Some? ==> r == (0, fault)
  {
    RecordsOfSize(records, u);
    if fault.Some? then (0, fault) else (|RecordsOf(records, u)|, None)
  }

  /** The total count exceeds the active count by exactly the number of
      the user's returned records; in particular active <= total. */
  lemma ActiveAtMostTotal(records: seq<BorrowRecord>, u: int)
    ensures ActiveCountByUser(records, u, None).0 + |ReturnedOf(records, u)| == TotalCountByUser(records, u, None).0
    ensures ActiveCountByUser(records, u, None).0 <= TotalCountByUser(records, u, None).0
  {
    ActivePlusReturned(records, u);
  }

  /** With unique book ids a record has at most one join partner, and
      exactly one when its book exists. */
  lemma {:induction false} PartnersCount(r: BorrowRecord, books: seq<Books.Book>)
    requires Books.UniqueIds(books)
    ensures |Partners(r, books)| <= 1
    ensures |Partners(r, books)| == 1 <==> r.bookID in Books.Ids(books)
  {
    if books != [] {
      assert Books.UniqueIds(books[1..]) by {
        forall i, j | 0 <= i < j < |books[1..]| ensures books[1..][i].id != books[1..][j].id {
          assert books[1..][i] == books[i + 1] && books[1..][j] == books[j + 1];
        }
      }
      PartnersCount(r, books[1..]);
      assert books == [books[0]] + books[1..];
      assert Books.Ids(books) == {books[0].id} + Books.Ids(books[1..]);
    }
  }

  /** The join yields at most one row per record, and one per record when
      every referenced book exists. */
  lemma {:induction false} JoinedCount(records: seq<BorrowRecord>, books: seq<Books.Book>)
    requires Books.UniqueIds(books)
    ensures |Joined(records, books)| <= |records|
    ensures (forall x :: x in records ==> x.bookID in Books.Ids(books)) ==> |Joined(records, books)| == |records|
  {
    if records != [] {
      PartnersCount(records[0], books);
      JoinedCount(records[1..], books);
      assert forall x :: x in records[1..] ==> x in records;
    }
  }

  /** CurrentByUser lists no more loans than ActiveCountByUser counts, and
      exactly as many when every active loan's book exists. */
  lemma CurrentAtMostActive(records: seq<BorrowRecord>, books: seq<Books.Book>, u: int)
    requires Books.UniqueIds(books)
    ensures |CurrentRows(records, books, u)| <= ActiveCountByUser(records, u, None).0
    ensures (forall x :: x in ActiveOf(records, u) ==> x.bookID in Books.Ids(books)) ==>
              |CurrentRows(records, books, u)| == ActiveCountByUser(records, u, None).0
  {
    JoinedCount(ActiveOf(records, u), books);
  }
}
