/** The borrow and return handlers of cmd/web/handlers.go: their guards on
    the request and how the outcome of the lending operation becomes a
    response. The lending operations themselves (Books.BorrowBook and
    Books.ReturnBook of the data package) are not part of this model: each
    is a parameter giving the error it reports for a request. */
module Lending {
  import opened Errors
  import opened Responses
  import opened Strconv

  /** The page of one book, `/books/{id}`. */
  function BookPath(id: int): string {
    "/books/" + FormatInt(id)
  }

  /** The redirect target names the book: reading the id back from the
      path gives the same id. */
  lemma BookPathNamesBook(id: int)
    requires IsInt64(id)
    ensures |BookPath(id)| > 7 && BookPath(id)[..7] == "/books/"
    ensures ParseInt(BookPath(id)[7..]) == IntResult(id, Nil)
  {
    assert BookPath(id)[7..] == FormatInt(id);
    ParseFormatRoundTrip(id);
  }

  /** A request to lend book `bookID` to `userID` for `days` days. */
  datatype BorrowRequest = BorrowRequest(userID: int, bookID: int, days: int)

  /** A `{id}` path segment is acceptable when it parses as an int64 that
      is at least 1. */
  predicate ValidPathId(idParam: string) {
    ParseInt(idParam).err == Nil && ParseInt(idParam).value >= 1
  }

  /** The loan length is acceptable: it parses and lies in 1..60. */
  predicate ValidDays(daysParam: string) {
    Atoi(daysParam).err == Nil && 1 <= Atoi(daysParam).value <= 60
  }

  /** How borrowBook answers the lending operation's outcome for book
      `bookID`: success and the two refusals the user can act on return to
      the book's page with a flash (informational only on success); a
      missing book or user is a 404; anything else is a 500 carrying the
      error. */
  function BorrowResponse(bookID: int, outcome: Option<Error>): (r: Response)
    ensures r.SeeOther? <==>
              outcome.None? || outcome == Some(ErrAlreadyBorrowed) || outcome == Some(ErrNoAvailableCopies)
    ensures r.SeeOther? ==> r.location == BookPath(bookID) && !r.flash.NoFlash?
    ensures r.SeeOther? ==> (r.flash.Info? <==> outcome.None?)
    ensures r == NotFound <==> outcome == Some(ErrRecordNotFound)
    ensures r.ServerError? <==>
              outcome.Some? && outcome.value !in {ErrAlreadyBorrowed, ErrNoAvailableCopies, ErrRecordNotFound}
    ensures r.ServerError? ==> r.cause == outcome.value
    ensures outcome.None? ==> r == SeeOther(BookPath(bookID), Info("Book borrowed successfully."))
    ensures outcome == Some(ErrAlreadyBorrowed) ==>
              r == SeeOther(BookPath(bookID), FlashError("You already borrowed this book."))
    ensures outcome == Some(ErrNoAvailableCopies) ==>
              r == SeeOther(BookPath(bookID), FlashError("No available copies right now."))
  {
    match outcome
    case None => SeeOther(BookPath(bookID), Info("Book borrowed successfully."))
    case Some(e) =>
      if e == ErrAlreadyBorrowed then SeeOther(BookPath(bookID), FlashError("You already borrowed this book."))
      else if e == ErrNoAvailableCopies then SeeOther(BookPath(bookID), FlashError("No available copies right now."))
      else if e == ErrRecordNotFound then NotFound
      else ServerError(e)
  }

  /** borrowBook: `idParam` is the `{id}` path segment, `daysParam` the
      `days` form value, `userID` the session's authenticated user and
      `lend` the lending operation. Lending is attempted exactly when both
      inputs are acceptable, and then with exactly those values; a bad id
      is a 404 and a bad loan length sends the user back to the book's page
      with an error, neither touching the store. */
  function BorrowBook(idParam: string, daysParam: string, userID: int,
                      lend: BorrowRequest -> Option<Error>): (h: Handled<BorrowRequest>)
    ensures h.call.Some? <==> ValidPathId(idParam) && ValidDays(daysParam)
    ensures h.call.Some? ==>
              && h.call.value == BorrowRequest(userID, ParseInt(idParam).value, Atoi(daysParam).value)
              && h.response == BorrowResponse(h.call.value.bookID, lend(h.call.value))
    ensures !ValidPathId(idParam) ==> h.response == NotFound
    ensures ValidPathId(idParam) && !ValidDays(daysParam) ==>
              h.response == SeeOther(BookPath(ParseInt(idParam).value), FlashError("Invalid borrow duration."))
  {
    var id := ParseInt(idParam);
    if id.err != Nil || id.value < 1 then Handled(NotFound, None)
    else
      var days := Atoi(daysParam);
      if days.err != Nil || days.value < 1 || days.value > 60 then
        Handled(SeeOther(BookPath(id.value), FlashError("Invalid borrow duration.")), None)
      else
        var request := BorrowRequest(userID, id.value, days.value);
        Handled(BorrowResponse(id.value, lend(request)), Some(request))
  }

  /** A request written the way the book page writes it (the id and the
      loan length in decimal) reaches the lending operation unchanged. */
  lemma WellFormedBorrowIsAttempted(id: int, days: int, userID: int,
                                    lend: BorrowRequest -> Option<Error>)
    requires 1 <= id <= MaxInt64 && 1 <= days <= 60
    ensures BorrowBook(FormatInt(id), FormatInt(days), userID, lend).call == Some(BorrowRequest(userID, id, days))
  {
    ParseFormatRoundTrip(id);
    ParseFormatRoundTrip(days);
  }

  /** Every redirect borrowBook answers with leads back to the page of the
      book that was asked for. */
  lemma BorrowRedirectsToBook(idParam: string, daysParam: string, userID: int,
                              lend: BorrowRequest -> Option<Error>)
    ensures var h := BorrowBook(idParam, daysParam, userID, lend);
            h.response.SeeOther? ==>
              ParseInt(h.response.location[7..]) == ParseInt(idParam) && h.response.location[..7] == "/books/"
  {
    var h := BorrowBook(idParam, daysParam, userID, lend);
    if h.response.SeeOther? {
      BookPathNamesBook(ParseInt(idParam).value);
    }
  }

  /** A request to give back book `bookID` borrowed by `userID`. */
  datatype ReturnRequest = ReturnRequest(userID: int, bookID: int)

  /** returnBook: the return is attempted exactly when the path id is
      acceptable. A missing loan or book is a 404, any other error a 500,
      and success sends the user to their profile with a confirmation. */
  function ReturnBook(idParam: string, userID: int, giveBack: ReturnRequest -> Option<Error>): (h: Handled<ReturnRequest>)
    ensures h.call.Some? <==> ValidPathId(idParam)
    ensures h.call.Some? ==> h.call.value == ReturnRequest(userID, ParseInt(idParam).value)
    ensures h.response == NotFound <==>
              !ValidPathId(idParam) || giveBack(h.call.value) == Some(ErrRecordNotFound)
    ensures h.response.ServerError? <==>
              h.call.Some? && giveBack(h.call.value).Some? && giveBack(h.call.value) != Some(ErrRecordNotFound)
    ensures h.response.ServerError? ==> Some(h.response.cause) == giveBack(h.call.value)
    ensures h.response.SeeOther? <==> h.call.Some? && giveBack(h.call.value).None?
    ensures h.response.SeeOther? ==> h.response == SeeOther("/profile", Info("Book returned successfully."))
  {
    var id := ParseInt(idParam);
    if id.err != Nil || id.value < 1 then Handled(NotFound, None)
    else
      var request := ReturnRequest(userID, id.value);
      match giveBack(request)
      case None => Handled(SeeOther("/profile", Info("Book returned successfully.")), Some(request))
      case Some(e) =>
        if e == ErrRecordNotFound then Handled(NotFound, Some(request))
        else Handled(ServerError(e), Some(request))
  }
}
