/** The catalogue handlers of cmd/web/handlers.go: the home page and the
    paged book-card fragment over GetBooks, and the dashboard's create and
    update of a book. The store's insert and update of a book are not part
    of this model: each is given by the error it reports. */
module Catalog {
  import opened Errors
  import opened Responses
  import opened Strconv
  import opened Books
  import Genres
  import Validation

  /** Books per page on the home page and in the fragment. */
  const PageSize := 4

  /** home: the first page of the catalogue (page 1, limit 4, offset 0).
      Any failure of the query is a 500 with no books; otherwise the page
      shows the four books with the most available copies. */
  method Home(table: seq<Book>, fault: Fault) returns (response: Response, books: seq<Book>)
    ensures var rows := Window(ByAvailableDesc(table), PageSize, 0);
            var fails := fault.QueryFails? || fault.IterationFails? || (fault.ScanFails? && fault.row < |rows|);
            && (fails ==> response == ServerError(fault.cause) && books == [])
            && (!fails ==> response == Render(200, "home.html") && books == Listed(rows))
    ensures |books| <= PageSize
  {
    var page := 1;
    var limit := PageSize;
    var offset := (page - 1) * limit;
    var r := GetBooks(table, limit, offset, fault);
    WindowShape(ByAvailableDesc(table), PageSize, 0);
    if r.Err? {
      return ServerError(r.error), [];
    }
    return Render(200, "home.html"), r.value;
  }

  /** The page booksFragment serves for the `page` query value: 1 when the
      value is missing, not a number or below 1; the parsed value
      otherwise, which for a value beyond int64 is its largest value (the
      parse error is ignored). */
  function RequestedPage(query: string): (page: int)
    ensures 1 <= page <= MaxInt64
    ensures query == "" || Atoi(query).err == ErrSyntax ==> page == 1
    ensures query != "" && Atoi(query).value < 1 ==> page == 1
    ensures query != "" && Atoi(query).value >= 1 ==> page == Atoi(query).value
  {
    if query == "" then 1
    else if Atoi(query).value < 1 then 1
    else Atoi(query).value
  }

  /** `(page - 1) * limit` as Go computes it with 64-bit `int`s. */
  function OffsetAsWritten(page: int): (offset: int)
    ensures IsInt64(offset)
  {
    Wrap64(Wrap64(page - 1) * PageSize)
  }

  /** The largest page whose offset fits in an int64. */
  const MaxPage := MaxInt64 / PageSize + 1

  /** The offset of a page, with pages past the last representable one
      served as that one (whose offset is past the end of any table). */
  function PageOffset(page: int): (offset: int)
    requires 1 <= page <= MaxInt64
    ensures 0 <= offset <= MaxInt64 && offset % PageSize == 0
    ensures page <= MaxPage ==> offset == (page - 1) * PageSize
  {
    var p := if page > MaxPage then MaxPage else page;
    (p - 1) * PageSize
  }

  /** Wherever the multiplication does not overflow, the corrected offset
      is the one the handler computes. */
  lemma PageOffsetAgrees(page: int)
    requires 1 <= page <= MaxPage
    ensures PageOffset(page) == OffsetAsWritten(page)
  {
    assert IsInt64(page - 1);
    assert IsInt64((page - 1) * PageSize);
  }

  /** The overflow: `page=3000000000000000000` parses, is at least 1 and is
      kept, but `(page - 1) * 4` wraps to a negative offset, which the store
      rejects, so the request is answered with a 500 instead of an empty
      page; `page=4611686018427387905` wraps to offset 0, so the first page
      is served again. */
  lemma OffsetWrapsNegative()
    ensures RequestedPage(FormatInt(3000000000000000000)) == 3000000000000000000
    ensures OffsetAsWritten(3000000000000000000) == -6446744073709551620
    ensures StatementError(PageSize, OffsetAsWritten(3000000000000000000), NoFault) == Some(NegativeOffset)
    ensures RequestedPage(FormatInt(4611686018427387905)) == 4611686018427387905
    ensures OffsetAsWritten(4611686018427387905) == 0
  {
    ParseFormatRoundTrip(3000000000000000000);
    ParseFormatRoundTrip(4611686018427387905);
    assert Wrap64(3000000000000000000 - 1) == 2999999999999999999;
    Wrap64Of(11999999999999999996, 1);
    OffsetWrapsToEarlierPage(4611686018427387905);
  }

  const TwoTo61 := 0x2000_0000_0000_0000
  const TwoTo62 := 0x4000_0000_0000_0000

  /** Pages 2^62 + 1 up to 2^62 + 2^61 wrap to a non-negative offset: the
      offset of the page 2^62 earlier, so books already shown are served
      again instead of an empty page. */
  lemma OffsetWrapsToEarlierPage(page: int)
    requires TwoTo62 < page <= TwoTo62 + TwoTo61
    ensures 1 <= page - TwoTo62 <= MaxPage
    ensures OffsetAsWritten(page) == PageOffset(page - TwoTo62)
  {
    assert Wrap64(page - 1) == page - 1;
    Wrap64Of((page - 1) * PageSize, 1);
  }

  /** What the fragment answers when GetBooks is asked for the page at
      `offset`: a 500 carrying the failure, or the listed window. */
  predicate FragmentAnswer(table: seq<Book>, offset: nat, fault: Fault, response: Response, books: seq<Book>) {
    var rows := Window(ByAvailableDesc(table), PageSize, offset);
    var fails := fault.QueryFails? || fault.IterationFails? || (fault.ScanFails? && fault.row < |rows|);
    && (fails ==> response == ServerError(fault.cause) && books == [])
    && (!fails ==> response == Fragment("book_cards.html") && books == Listed(rows))
  }

  /** booksFragment as written: the offset is `(page - 1) * 4` in 64-bit
      arithmetic. Up to MaxPage the cards are the window of the ordering at
      the requested page; past it the offset wraps, and either the store
      refuses the negative offset (a 500) or an earlier page is served. */
  method BooksFragment(table: seq<Book>, query: string, fault: Fault) returns (response: Response, books: seq<Book>)
    ensures var offset := OffsetAsWritten(RequestedPage(query));
            offset < 0 ==> books == [] && response == ServerError(if fault.QueryFails? then fault.cause else NegativeOffset)
    ensures var offset := OffsetAsWritten(RequestedPage(query));
            offset >= 0 ==> FragmentAnswer(table, offset, fault, response, books)
    ensures RequestedPage(query) <= MaxPage ==> FragmentAnswer(table, PageOffset(RequestedPage(query)), fault, response, books)
    ensures TwoTo62 < RequestedPage(query) <= TwoTo62 + TwoTo61 ==>
              FragmentAnswer(table, PageOffset(RequestedPage(query) - TwoTo62), fault, response, books)
  {
    var page := 1;
    var limit := PageSize;
    if query != "" {
      page := Atoi(query).value;
      if page < 1 {
        page := 1;
      }
    }
    assert page == RequestedPage(query);
    var offset := Wrap64(Wrap64(page - 1) * limit);
    assert offset == OffsetAsWritten(page);
    if page <= MaxPage {
      PageOffsetAgrees(page);
    }
    if TwoTo62 < page <= TwoTo62 + TwoTo61 {
      OffsetWrapsToEarlierPage(page);
    }
    var r := GetBooks(table, limit, offset, fault);
    if r.Err? {
      return ServerError(r.error), [];
    }
    return Fragment("book_cards.html"), r.value;
  }

  /** booksFragment with the offset computed without overflow: pages past
      the last representable one are past the end of any table, so a store
      that does not fail always yields the fragment. */
  method BooksFragmentCorrected(table: seq<Book>, query: string, fault: Fault) returns (response: Response, books: seq<Book>)
    ensures FragmentAnswer(table, PageOffset(RequestedPage(query)), fault, response, books)
    ensures fault.NoFault? ==> response == Fragment("book_cards.html")
  {
    var page := RequestedPage(query);
    var r := GetBooks(table, PageSize, PageOffset(page), fault);
    if r.Err? {
      return ServerError(r.error), [];
    }
    return Fragment("book_cards.html"), r.value;
  }

  /** The home page is the fragment's first page, whether the fragment is
      asked for without a page or for page 1, 0 or a non-number. */
  lemma HomeIsFirstPage(query: string)
    requires query == "" || query == "1" || query == "0" || Atoi(query).err == ErrSyntax
    ensures PageOffset(RequestedPage(query)) == 0
  {
    assert ParseInt("1") == IntResult(1, Nil);
    assert ParseInt("0") == IntResult(0, Nil);
  }

  /** Successive pages are successive windows of the ordering: page k and
      page k + 1 together are the eight books from page k's offset on. */
  lemma ConsecutivePages(ordered: seq<Book>, page: int)
    requires 1 <= page < MaxPage
    ensures Window(ordered, PageSize, PageOffset(page)) + Window(ordered, PageSize, PageOffset(page + 1))
            == Window(ordered, 2 * PageSize, PageOffset(page))
  {
    var o := PageOffset(page);
    assert PageOffset(page + 1) == o + PageSize;
    var lo := Min(o, |ordered|);
    var mid := Min(o + PageSize, |ordered|);
    var hi := Min(o + 2 * PageSize, |ordered|);
    assert ordered[lo..mid] + ordered[mid..hi] == ordered[lo..hi];
  }

  /** The orders `ORDER BY copies_available DESC` allows: a permutation of
      the table with non-increasing available copies. Books with equal
      counts may come in any order, and each request runs its own
      statement, which may pick a different one. */
  predicate IsDescOrdering(table: seq<Book>, ordered: seq<Book>) {
    && multiset(ordered) == multiset(table)
    && forall i, j :: 0 <= i < j < |ordered| ==> ordered[i].copiesAvailable >= ordered[j].copiesAvailable
  }

  /** A book with one available copy. */
  function OneCopy(id: int): Book {
    Book(id, "", "", 0, "", "", "", [], 0, "", "", 1, 1, 0)
  }

  /** Five books with one copy each; page 1 and page 2 are asked for in two
      requests, and the store orders the ties differently for each. */
  function TiedTable(): seq<Book> {
    [OneCopy(1), OneCopy(2), OneCopy(3), OneCopy(4), OneCopy(5)]
  }

  function OrderOfFirstRequest(): seq<Book> {
    TiedTable()
  }

  function OrderOfSecondRequest(): seq<Book> {
    [OneCopy(2), OneCopy(3), OneCopy(4), OneCopy(5), OneCopy(1)]
  }

  /** Both orders are ones the statement may return. */
  lemma TiedOrdersAllowed()
    ensures IsDescOrdering(TiedTable(), OrderOfFirstRequest())
    ensures IsDescOrdering(TiedTable(), OrderOfSecondRequest())
  {
    var t := TiedTable();
    assert forall b :: b in t ==> b.copiesAvailable == 1;
    assert OrderOfSecondRequest() == t[1..] + t[..1];
    RotationKeepsBooks(t);
    TiesAllowAnyOrder(t, t, 1);
    TiesAllowAnyOrder(t, OrderOfSecondRequest(), 1);
  }

  /** When every book has the same count, every permutation is allowed. */
  lemma TiesAllowAnyOrder(table: seq<Book>, ordered: seq<Book>, count: int)
    requires multiset(ordered) == multiset(table)
    requires forall b :: b in table ==> b.copiesAvailable == count
    ensures IsDescOrdering(table, ordered)
  {
    forall k | 0 <= k < |ordered| ensures ordered[k].copiesAvailable == count {
      assert ordered[k] in multiset(table);
    }
  }

  lemma RotationKeepsBooks(t: seq<Book>)
    requires t != []
    ensures multiset(t[1..] + t[..1]) == multiset(t)
  {
    assert t == t[..1] + t[1..];
  }

  /** With ties, pages served by separate requests can overlap and skip
      books: both orders are allowed, yet book 1 is on page 1 and again on
      page 2, and book 5 is on neither. */
  lemma TiesLetPagesOverlap()
    ensures IsDescOrdering(TiedTable(), OrderOfFirstRequest())
    ensures IsDescOrdering(TiedTable(), OrderOfSecondRequest())
    ensures OneCopy(1) in Window(OrderOfFirstRequest(), PageSize, PageOffset(1))
    ensures OneCopy(1) in Window(OrderOfSecondRequest(), PageSize, PageOffset(2))
    ensures OneCopy(5) in TiedTable()
    ensures OneCopy(5) !in Window(OrderOfFirstRequest(), PageSize, PageOffset(1)) + Window(OrderOfSecondRequest(), PageSize, PageOffset(2))
  {
    TiedOrdersAllowed();
    var t := TiedTable();
    var second := OrderOfSecondRequest();
    assert PageOffset(1) == 0 && PageOffset(2) == 4;
    assert Window(t, PageSize, 0) == t[..4];
    assert Window(second, PageSize, 4) == [OneCopy(1)];
    assert OneCopy(5) != OneCopy(1) && OneCopy(5) !in t[..4];
  }

  /** `ORDER BY copies_available DESC, id`: fewer available copies later,
      equal counts by increasing id. */
  predicate Precedes(x: Book, y: Book) {
    x.copiesAvailable > y.copiesAvailable || (x.copiesAvailable == y.copiesAvailable && x.id < y.id)
  }

  predicate StrictlyOrdered(s: seq<Book>) {
    forall i, j :: 0 <= i < j < |s| ==> Precedes(s[i], s[j])
  }

  /** The orders the tie-broken statement allows. */
  predicate IsTotalOrdering(table: seq<Book>, ordered: seq<Book>) {
    multiset(ordered) == multiset(table) && StrictlyOrdered(ordered)
  }

  /** Breaking ties by id leaves the store a single order to return. */
  lemma {:induction false} TotalOrderingUnique(a: seq<Book>, b: seq<Book>)
    requires multiset(a) == multiset(b)
    requires StrictlyOrdered(a) && StrictlyOrdered(b)
    ensures a == b
    decreases |a|
  {
    if a == [] {
      assert |b| == |multiset(b)|;
    } else {
      SameFirstBook(a, b);
      assert a == [a[0]] + a[1..];
      assert b == [b[0]] + b[1..];
      assert multiset(a[1..]) == multiset(a) - multiset{a[0]};
      assert multiset(b[1..]) == multiset(b) - multiset{b[0]};
      TotalOrderingUnique(a[1..], b[1..]);
    }
  }

  lemma SameFirstBook(a: seq<Book>, b: seq<Book>)
    requires multiset(a) == multiset(b) && a != []
    requires StrictlyOrdered(a) && StrictlyOrdered(b)
    ensures b != [] && a[0] == b[0]
  {
    assert a[0] in multiset(b);
    var j :| 0 <= j < |b| && b[j] == a[0];
    assert b[0] in multiset(a);
    var i :| 0 <= i < |a| && a[i] == b[0];
    assert j == 0 || Precedes(b[0], a[0]);
    assert i == 0 || Precedes(a[0], b[0]);
  }

  /** With ties broken by id, pages k and k + 1 served by two separate
      requests are still eight consecutive books of one order: nothing is
      shown twice and nothing is skipped. The tie-broken order is also one
      `ORDER BY copies_available DESC` allows. */
  lemma PagesAcrossRequests(table: seq<Book>, first: seq<Book>, second: seq<Book>, page: int)
    requires IsTotalOrdering(table, first) && IsTotalOrdering(table, second)
    requires 1 <= page < MaxPage
    ensures IsDescOrdering(table, first)
    ensures Window(first, PageSize, PageOffset(page)) + Window(second, PageSize, PageOffset(page + 1))
            == Window(first, 2 * PageSize, PageOffset(page))
  {
    TotalOrderingUnique(first, second);
    ConsecutivePages(first, page);
  }

  /** The raw values of the book form, as FormValue returns them (the
      empty string for a missing field). The date field is read through a
      parameter standing for its parsing. */
  datatype BookForm = BookForm(
    title: string,
    author: string,
    isbn: string,
    description: string,
    coverImage: string,
    genres: string,
    pages: string,
    language: string,
    publisher: string,
    publishDate: string,
    copiesTotal: string,
    copiesAvailable: string)

  /** createBook's checks: title, author and ISBN provided and at least one
      copy (a copy count that is not a number reads as 0). */
  predicate NewBookAccepted(form: BookForm) {
    Validation.NotBlank(form.title) && Validation.NotBlank(form.author)
    && Validation.NotBlank(form.isbn) && Atoi(form.copiesTotal).value >= 1
  }

  /** The date a book form gives: `parsedDate` is what parsing the
      publish_date field as YYYY-MM-DD gave, `fallback` what is used when it
      does not parse. */
  function PublishDate(parsedDate: Option<int>, fallback: int): int {
    if parsedDate.Some? then parsedDate.value else fallback
  }

  /** The book createBook inserts with the genres parsed from the form:
      every copy available, the id and version left for the store. */
  function NewBook(form: BookForm, genres: seq<string>, parsedDate: Option<int>, now: int): (b: Book)
    ensures b.copiesAvailable == b.copiesTotal == Atoi(form.copiesTotal).value
    ensures b.genres == genres
    ensures b.publishDate == PublishDate(parsedDate, now)
    ensures b.id == 0 && b.version == 0
  {
    Book(0, form.title, form.author, PublishDate(parsedDate, now), form.isbn, form.description,
         form.coverImage, genres, Atoi(form.pages).value, form.language,
         form.publisher, Atoi(form.copiesTotal).value, Atoi(form.copiesTotal).value, 0)
  }

  const InvalidBookForm := "Please fill in all required fields correctly."

  /** createBook: `parseFails` says whether the form could not be read,
      `parsedDate`/`now` stand for the date parsing and the clock, and
      `insertErr` is what the store's insert reports. A book is inserted
      exactly when the form is readable and passes the checks, and every
      book inserted starts with 1 <= available copies == total copies. */
  method CreateBook(form: BookForm, parseFails: bool, parsedDate: Option<int>, now: int,
                    insertErr: Option<Error>) returns (h: Handled<Book>)
    ensures parseFails ==> h == Handled(BadRequest, None)
    ensures h.call.Some? <==> !parseFails && NewBookAccepted(form)
    ensures !parseFails && !NewBookAccepted(form) ==> h.response == SeeOther("/dashboard", FlashError(InvalidBookForm))
    ensures h.call.Some? ==> h.call.value == NewBook(form, Genres.TrimmedFields(form.genres), parsedDate, now)
    ensures h.call.Some? ==> 1 <= h.call.value.copiesAvailable == h.call.value.copiesTotal
    ensures h.call.Some? && insertErr.Some? ==> h.response == ServerError(insertErr.value)
    ensures h.call.Some? && insertErr.None? ==> h.response == SeeOther("/dashboard", Info("Book added successfully."))
  {
    if parseFails {
      return Handled(BadRequest, None);
    }
    var copiesTotal := Atoi(form.copiesTotal).value;
    var v := new Validation.Validator();
    v.Check(Validation.NotBlank(form.title), "title", "must be provided");
    v.Check(Validation.NotBlank(form.author), "author", "must be provided");
    v.Check(Validation.NotBlank(form.isbn), "isbn", "must be provided");
    v.Check(copiesTotal >= 1, "copies_total", "must be at least 1");
    assert v.Valid() <==> v.errors.Keys == {};
    if !v.Valid() {
      return Handled(SeeOther("/dashboard", FlashError(InvalidBookForm)), None);
    }
    var genres := Genres.ParseGenres(form.genres);
    var book := NewBook(form, genres, parsedDate, now);
    if insertErr.Some? {
      return Handled(ServerError(insertErr.value), Some(book));
    }
    return Handled(SeeOther("/dashboard", Info("Book added successfully.")), Some(book));
  }

  /** The book updateBook writes back: every edited field taken from the
      form as it is (numbers that do not parse read as 0, a date that does
      not parse keeps the old one), the id and version kept. Nothing
      relates the new copy counts to each other. */
  function EditedBook(existing: Book, form: BookForm, parsedDate: Option<int>): (b: Book)
    ensures b.id == existing.id && b.version == existing.version
    ensures b.copiesTotal == Atoi(form.copiesTotal).value && b.copiesAvailable == Atoi(form.copiesAvailable).value
    ensures b.genres == Genres.TrimmedFields(form.genres)
    ensures b.publishDate == PublishDate(parsedDate, existing.publishDate)
  {
    existing.(title := form.title, author := form.author, isbn := form.isbn,
              description := form.description, coverImage := form.coverImage,
              genres := Genres.TrimmedFields(form.genres), pages := Atoi(form.pages).value,
              language := form.language, publisher := form.publisher,
              publishDate := PublishDate(parsedDate, existing.publishDate),
              copiesTotal := Atoi(form.copiesTotal).value,
              copiesAvailable := Atoi(form.copiesAvailable).value)
  }

  /** An edit can leave more copies available than exist, and a total that
      is not a number clears the total: the copy invariant createBook
      establishes does not survive updateBook. */
  lemma EditCanBreakCopies(existing: Book, form: BookForm, parsedDate: Option<int>)
    ensures form.copiesTotal == "1" && form.copiesAvailable == "2" ==>
              EditedBook(existing, form, parsedDate).copiesAvailable > EditedBook(existing, form, parsedDate).copiesTotal
    ensures form.copiesTotal == "many" ==> EditedBook(existing, form, parsedDate).copiesTotal == 0
  {
    assert ParseInt("1") == IntResult(1, Nil) && ParseInt("2") == IntResult(2, Nil);
    assert ParseInt("many").err == ErrSyntax by {
      assert !IsDigit('m');
    }
  }

  /** The path id updateBook accepts: it parses (Atoi) and is at least 1. */
  predicate ValidEditId(idParam: string) {
    Atoi(idParam).err == Nil && Atoi(idParam).value >= 1
  }

  /** updateBook: the edit is written back exactly when the id is
      acceptable, the form is readable and the book is found; a bad id or a
      missing book is a 404, an unreadable form a 400, and a failing lookup
      or update a 500 (a 404 when the update finds no such book). */
  method UpdateBook(idParam: string, form: BookForm, parseFails: bool, table: seq<Book>,
                    lookupFault: Option<Error>, parsedDate: Option<int>, updateErr: Option<Error>)
    returns (h: Handled<Book>)
    ensures !ValidEditId(idParam) ==> h == Handled(NotFound, None)
    ensures ValidEditId(idParam) && parseFails ==> h == Handled(BadRequest, None)
    ensures ValidEditId(idParam) && !parseFails ==>
              match GetBookByID(table, Atoi(idParam).value, lookupFault)
              case Err(e) => h == Handled(if e == ErrRecordNotFound then NotFound else ServerError(e), None)
              case Ok(existing) => h.call == Some(EditedBook(existing, form, parsedDate))
    ensures h.call.Some? ==>
              match updateErr
              case None => h.response == SeeOther("/dashboard", Info("Book updated successfully."))
              case Some(e) => h.response == if e == ErrRecordNotFound then NotFound else ServerError(e)
    ensures h.call.Some? ==> h.call.value.id == Atoi(idParam).value
  {
    var id := Atoi(idParam);
    if id.err != Nil || id.value < 1 {
      return Handled(NotFound, None);
    }
    if parseFails {
      return Handled(BadRequest, None);
    }
    var found := GetBookByID(table, id.value, lookupFault);
    if found.Err? {
      if found.error == ErrRecordNotFound {
        return Handled(NotFound, None);
      }
      return Handled(ServerError(found.error), None);
    }
    var book := found.value;
    var pages := Atoi(form.pages).value;
    var copiesTotal := Atoi(form.copiesTotal).value;
    var copiesAvailable := Atoi(form.copiesAvailable).value;
    var publishDate := if parsedDate.Some? then parsedDate.value else book.publishDate;
    var genres := Genres.ParseGenres(form.genres);
    book := book.(title := form.title, author := form.author, isbn := form.isbn,
                  description := form.description, coverImage := form.coverImage,
                  genres := genres, pages := pages, language := form.language,
                  publisher := form.publisher, publishDate := publishDate,
                  copiesTotal := copiesTotal, copiesAvailable := copiesAvailable);
    if updateErr.Some? {
      if updateErr.value == ErrRecordNotFound {
        return Handled(NotFound, Some(book));
      }
      return Handled(ServerError(updateErr.value), Some(book));
    }
    return Handled(SeeOther("/dashboard", Info("Book updated successfully.")), Some(book));
  }
}
