# LibraryMS lending core, modelled in Dafny

LibraryMS is a small library web application. Members browse a catalogue,
borrow a book for 1 to 60 days and give it back. Administrators add, edit and
delete books and members. This project models the request-level rules of its
web handlers and the read queries of its data package, and proves what they
promise.

- **Web handlers** (`cmd/web/handlers.go`):
  - the comma-separated genre field (`splitAndTrim` and the genre loops of createBook/updateBook);
  - the home page and the paged book-card fragment;
  - the borrow and return handlers: their guards and how the lending outcome becomes a response;
  - createBook, where every new book starts with 1 ≤ available copies = total copies;
  - updateBook, which keeps no such invariant;
  - the signup form checks;
  - the guard that stops an administrator from deleting their own account.

  Most handlers are a function or method returning a `Handled` value. It holds the
  response (page, fragment, 303 redirect with flash, 400, 404 or 500) and the
  store operation the handler invoked, if it invoked one. So "the store is
  not touched" is stated as `call == None`. Catalog.Home, Catalog.BooksFragment
  and Catalog.BooksFragmentCorrected invoke no store operation that changes
  anything: they return the response together with the listed books.
- **Books** (`internal/data/books.go`):
  - GetBooks: the `ORDER BY copies_available DESC LIMIT OFFSET` window, built by a scan loop;
  - GetBookByID: a lookup with not-found translation.
- **Borrow records** (`internal/data/borrows.go`):
  - CurrentByUser: the inner join, the active and user filter, the ordering, and the scan loop;
  - ActiveCountByUser and TotalCountByUser, and how the three relate.
- **Users** (`internal/data/users.go`):
  - the password value, with its `Set` and `Matches`;
  - the insert and the two lookups, with their error translation;
  - the email and password checks.

Tables are sequences of rows. Each read operation takes the table as input,
so no read changes it. Store failures are explicit parameters:
- a `Fault` for multi-row queries: the statement fails, the scan of row `k` fails, or the final iteration check fails;
- an `Option<Error>` for single-row statements.

Several collaborators are parameters too:
- what bcrypt returns when hashing and comparing;
- whether an address matches the email pattern;
- what parsing a publish date gives, and the clock;
- the session's user id;
- the outcomes of store operations whose code is not part of this model.

Go's `strconv.ParseInt(s, 10, 64)` and `Atoi` are modelled exactly. They
accept an optional sign. On overflow they clamp to the int64 bounds and
report a range error; on a syntax error they give 0. Go's `int` arithmetic
is modelled with 64-bit wrap-around. Strings are sequences of code points,
and `len` is their UTF-8 length (`Strings.ByteLen`).

The validator package is not part of this model. `Validation.Validator` is
the behaviour the handlers rely on:
- a failed `Check` marks its field with a message, and a field keeps its first message;
- a form is valid when no field is marked;
- `NotBlank` means something other than white space remains after trimming.

## Model

| member | source | states |
|---|---|---|
| Strings.TrimSpace | cmd/web/handlers.go:691 | the result has no white space at either end and is no longer than the input; it is empty exactly when the input is all white space |
| Strings.TrimSpaceIsSlice | cmd/web/handlers.go:691 | trimming keeps one contiguous piece of the input and removes only white space before and after it |
| Strings.TrimSpaceIdempotent | cmd/web/handlers.go:691 | trimming twice is trimming once |
| Strings.Split | cmd/web/handlers.go:690 | splitting at a character gives one more piece than there are separators, and no piece contains the separator |
| Strings.JoinSplit | cmd/web/handlers.go:690 | joining the pieces of a split with the separator gives back the input |
| Strings.SplitJoin | cmd/web/handlers.go:690 | splitting a join of separator-free pieces gives back the pieces |
| Strings.ByteLen | cmd/web/handlers.go:139-140 | the UTF-8 length of a string is between one and four bytes per character |
| Strconv.Wrap64 | cmd/web/handlers.go:403 | 64-bit wrap-around: the result lies in int64 range, is congruent to the exact value modulo 2^64, and equals it when that value is in range |
| Strconv.Wrap64Of | cmd/web/handlers.go:403 | when the exact value minus a multiple of 2^64 is in int64 range, that is the value Go computes |
| Strconv.ParseInt | cmd/web/handlers.go:320 | the parsed value always lies in int64 range; it is 0 on a syntax error and an int64 bound on a range error |
| Strconv.ParseFormatRoundTrip | cmd/web/handlers.go:331 | parsing the decimal form of any int64 gives that int64 back without error |
| Ordering.SortDesc | internal/data/books.go:37 | descending order: a permutation of the rows whose keys never increase |
| Validation.Validator.constructor | cmd/web/handlers.go:135 | a new validator has no marked field |
| Validation.Validator.AddError | cmd/web/handlers.go:175 | the field becomes marked, and a field already marked keeps its message |
| Validation.Validator.Check | cmd/web/handlers.go:138-140 | a failed check marks its field (keeping any earlier message); a passed check changes nothing |
| Validation.Record | cmd/web/handlers.go:138-140 | after a field's checks, the field is marked exactly when one of them failed, with the message of the first that failed unless the field was already marked; every earlier entry keeps its message |
| Books.ByAvailableDesc | internal/data/books.go:37 | `ORDER BY copies_available DESC` gives a permutation of the table with non-increasing available copies |
| Books.WindowShape | internal/data/books.go:38 | `LIMIT OFFSET` gives at most `limit` rows: exactly the rows from position `offset` on, or none once `offset` is past the end |
| Books.WindowNonIncreasing | internal/data/books.go:37-38 | a window of the ordering keeps the available copies non-increasing |
| Books.ListColumns | internal/data/books.go:35 | a listed book keeps its id and copy counts; the columns not selected (pages, language, publisher, version) are zero |
| Books.GetBooks | internal/data/books.go:33-68 | the scan loop returns the selected columns of the ordered window; a failing statement (including a negative OFFSET or LIMIT), row scan or iteration check returns that error and no list |
| Books.GetBooksPage | internal/data/books.go:37-38 | without failures a page has at most `limit` books, in non-increasing order of available copies, and none once `offset` is past the end of the table |
| Books.FindById | internal/data/books.go:74 | the lookup finds a row exactly when the id occurs in the table, and the row it finds has that id |
| Books.GetBookByID | internal/data/books.go:70-107 | without a fault it succeeds exactly when the id exists, returning that whole row; "no rows" becomes ErrRecordNotFound and any other error is passed through unchanged |
| Books.GetBookByIDUnique | internal/data/books.go:74 | with `id` as primary key, the row returned is the only row with that id |
| Borrows.RecordsOf | internal/data/borrows.go:103 | `WHERE user_id = u` keeps exactly the user's records |
| Borrows.ActiveOf | internal/data/borrows.go:90-91 | `user_id = u AND returned_at IS NULL` keeps exactly the user's active records |
| Borrows.ActivePlusReturned | internal/data/borrows.go:84-107 | every record of the user is either active or returned |
| Borrows.Partners | internal/data/borrows.go:44 | the rows are exactly the pairs of the record with a book of the table whose id is the record's book_id |
| Borrows.Joined | internal/data/borrows.go:43-44 | the inner join holds exactly the pairs of a record and a book whose id is the record's book_id |
| Borrows.CurrentRows | internal/data/borrows.go:33-48 | the rows are the join of the user's active records with their books, each row as often as in the join, most recent first |
| Borrows.CurrentRowsListsEveryLoan | internal/data/borrows.go:43-48 | every active loan of the user whose book exists is listed with that book |
| Borrows.CurrentByUser | internal/data/borrows.go:32-82 | the scan loop returns one summary per current row, in the same order; a failing statement returns its error, and so does a failing iteration check when every current row has a due_at; the first failure in row order decides between a failing scan of row k and a NULL due_at |
| Borrows.ActiveOfSize | internal/data/borrows.go:87-92 | the filtered sequence has one entry per active record of the user in the table |
| Borrows.RecordsOfSize | internal/data/borrows.go:100-104 | the filtered sequence has one entry per record of the user in the table |
| Borrows.ActiveCountByUser | internal/data/borrows.go:84-95 | the count is the number of the user's records with a null returned_at; on a store error the count is 0 and the error is returned |
| Borrows.TotalCountByUser | internal/data/borrows.go:97-107 | the count is the number of the user's records, returned or not; on a store error the count is 0 and the error is returned |
| Borrows.ActiveAtMostTotal | internal/data/borrows.go:84-107 | total = active + returned, so the active count never exceeds the total count |
| Borrows.PartnersCount | internal/data/borrows.go:44 | with unique book ids a record joins with at most one book, and with exactly one when its book exists |
| Borrows.JoinedCount | internal/data/borrows.go:43-44 | the join yields at most one row per record, and exactly one per record when every referenced book exists |
| Borrows.CurrentAtMostActive | internal/data/borrows.go:43-92 | CurrentByUser lists at most as many loans as ActiveCountByUser counts, and exactly as many when every active loan's book exists |
| Users.Password.constructor | internal/data/users.go:28-31 | a new password has no plaintext and an empty hash |
| Users.Password.Set | internal/data/users.go:33-42 | when hashing fails, the error is returned and nothing changes; on success the plaintext and the new hash are both stored |
| Users.Password.Matches | internal/data/users.go:44-55 | true with no error exactly when the comparison succeeds; false with no error on a hash mismatch; false with the error on any other comparison failure |
| Users.Insert | internal/data/users.go:61-80 | exactly the `users_email_key` violation becomes ErrDuplicateEmail; other errors pass through unchanged; success returns no error |
| Users.FindUser | internal/data/users.go:118-121 | the row found satisfies the lookup's WHERE clause; no row is found only when no row satisfies it |
| Users.GetByEmail | internal/data/users.go:82-111 | without a fault it succeeds exactly when a user has that email, returning that row without the columns not selected; "no rows" becomes ErrRecordNotFound and other errors pass through |
| Users.Get | internal/data/users.go:113-146 | an id below 1 is ErrRecordNotFound whatever the store holds or reports; otherwise the same lookup and error translation as GetByEmail, by id, without avatar_url |
| Users.EmailMessage | internal/data/users.go:148-151 | the address has a message exactly when it is empty or does not match the pattern: "must be provided" for the empty one, otherwise "must be a valid email address" |
| Users.ValidateEmail | internal/data/users.go:148-151 | "email" is marked exactly when the address is empty or does not match the pattern, with EmailMessage's message when it was not marked before; earlier entries keep theirs |
| Users.PasswordMessage | internal/data/users.go:153-157 | the password has a message exactly when its UTF-8 length is outside 8..72 bytes: "must be provided" when empty, "must be at least 8 bytes long" when shorter, "must not be more than 72 bytes long" when longer |
| Users.ValidatePasswordPlaintext | internal/data/users.go:153-157 | "password" is marked exactly when the UTF-8 length is outside 8..72 bytes (so the emptiness check adds nothing to the fields), with PasswordMessage's message when it was not marked before; earlier entries keep theirs |
| Genres.Trims | cmd/web/handlers.go:691 | each piece is replaced by its trimmed form |
| Genres.NonEmpty | cmd/web/handlers.go:692-694 | only non-empty strings are kept |
| Genres.SplitAndTrim | cmd/web/handlers.go:688-697 | the loop returns exactly the non-empty trimmed pieces between commas |
| Genres.PositionsValues | cmd/web/handlers.go:692-694 | the k-th kept string is the string at the k-th recorded position |
| Genres.PositionsIncrease | cmd/web/handlers.go:692-694 | the recorded positions increase, so the order is kept |
| Genres.PositionsComplete | cmd/web/handlers.go:692-694 | no non-empty string is dropped |
| Genres.SplitAndTrimOrder | cmd/web/handlers.go:688-697 | the genres are the trimmed pieces in their original order; only blank pieces are dropped |
| Genres.CleanGenres | cmd/web/handlers.go:688-697 | every genre is non-empty, has no white space at its ends and contains no comma |
| Genres.KeepTrimmedOfClean | cmd/web/handlers.go:691-694 | pieces that are already trimmed and non-empty come through unchanged |
| Genres.NonEmptyOfNonEmpty | cmd/web/handlers.go:692-694 | filtering a list with no empty string changes nothing |
| Genres.JoinThenSplitAndTrim | cmd/web/handlers.go:688-697 | a list of clean genres written with commas parses back to the same list |
| Genres.SplitAndTrimIdempotent | cmd/web/handlers.go:688-697 | parsing, writing back with commas and parsing again gives the same genres |
| Genres.ParseGenres | cmd/web/handlers.go:474-482 | the genre loop yields exactly splitAndTrim's result: the emptiness guard and the non-empty filter remove nothing |
| Genres.EmptyFieldNoGenres | cmd/web/handlers.go:476 | an empty genres field stands for no genres |
| Lending.BookPathNamesBook | cmd/web/handlers.go:331 | the `/books/{id}` redirect names the book: parsing its id segment gives back the id |
| Lending.BorrowResponse | cmd/web/handlers.go:335-355 | success, ErrAlreadyBorrowed and ErrNoAvailableCopies redirect to the book's page with the flash "Book borrowed successfully.", "You already borrowed this book." or "No available copies right now." respectively; ErrRecordNotFound gives 404; anything else gives 500 with that error |
| Lending.BorrowBook | cmd/web/handlers.go:319-356 | lending is attempted exactly when the id is an int64 ≥ 1 and the loan length parses and lies in 1..60, and then with exactly those values; a bad id is 404 and a bad length an error flash back to the book's page, both without touching the store |
| Lending.WellFormedBorrowIsAttempted | cmd/web/handlers.go:320-335 | a request carrying a valid id and length in decimal reaches the lending operation unchanged |
| Lending.BorrowRedirectsToBook | cmd/web/handlers.go:331-355 | every redirect borrowBook answers with leads back to the page of the book that was asked for |
| Lending.ReturnBook | cmd/web/handlers.go:358-380 | the return is attempted exactly for a valid id; ErrRecordNotFound is 404, any other error 500, success a redirect to /profile with an informational flash |
| Members.DeleteMember | cmd/web/handlers.go:656-685 | deletion is attempted exactly for a valid id that is not the current user's, so the current account is never deleted; self-deletion flashes an error and redirects to /dashboard; store outcomes map to 404, 500 carrying the delete error, or success |
| Members.OwnAccountIsKept | cmd/web/handlers.go:664-670 | a request to delete one's own account, by the path that names it, is refused and nothing is deleted |
| Catalog.Home | cmd/web/handlers.go:15-29 | the home page shows the window at page 1, limit 4, offset 0: at most four books, most available copies first; any query failure is a 500 carrying the failure's error, with no books |
| Catalog.RequestedPage | cmd/web/handlers.go:394-402 | the page is always ≥ 1: 1 when missing, non-numeric or below 1; otherwise the parsed value, clamped to MaxInt64 on overflow |
| Catalog.OffsetAsWritten | cmd/web/handlers.go:403 | the offset as Go computes it always lies in int64 range |
| Catalog.PageOffset | cmd/web/handlers.go:403 | the corrected offset is non-negative, fits in int64 and is a multiple of 4; it is (page-1)*4 whenever that fits |
| Catalog.PageOffsetAgrees | cmd/web/handlers.go:403 | where the multiplication does not overflow, the corrected offset equals the source's |
| Catalog.OffsetWrapsNegative | cmd/web/handlers.go:397-409 | page=3000000000000000000 is kept as the page, but its offset wraps to a negative number that the store rejects; page=4611686018427387905 is kept and wraps to offset 0 |
| Catalog.OffsetWrapsToEarlierPage | cmd/web/handlers.go:403 | pages 2^62+1 to 2^62+2^61 wrap to the offset of the page 2^62 earlier, so books already shown are served again |
| Catalog.BooksFragment | cmd/web/handlers.go:393-414 | up to MaxPage the cards are the ordered window at the requested page; past it a wrapped negative offset is a 500 and pages 2^62+1 to 2^62+2^61 serve the page 2^62 earlier |
| Catalog.BooksFragmentCorrected | cmd/web/handlers.go:393-414 | with the offset clamped instead of wrapped, the cards are the ordered window at the requested page, and a store that does not fail always yields the fragment |
| Catalog.HomeIsFirstPage | cmd/web/handlers.go:15-18 | the home page is the fragment's page for a missing, "1", "0" or non-numeric page value |
| Catalog.ConsecutivePages | cmd/web/handlers.go:403 | within one ordering of the table, pages k and k+1 together are the eight books from page k's offset on |
| Catalog.TiedOrdersAllowed | internal/data/books.go:37 | the two orders of five books with equal counts are both orders `ORDER BY copies_available DESC` allows |
| Catalog.TiesAllowAnyOrder | internal/data/books.go:37 | when every book has the same available count, every permutation of the table is an allowed order |
| Catalog.TiesLetPagesOverlap | internal/data/books.go:37-38 | with two allowed orders for the two requests, one book is on page 1 and on page 2 while another is on neither |
| Catalog.TotalOrderingUnique | internal/data/books.go:37 | ordering by available copies and then id leaves exactly one order of a table |
| Catalog.PagesAcrossRequests | internal/data/books.go:37-38 | with ties broken by id, pages k and k+1 served by separate requests are consecutive books of one allowed order, so none repeats and none is skipped |
| Catalog.NewBook | cmd/web/handlers.go:484-497 | a created book has available copies equal to total copies, the given genres, the parsed publish date or the current time, and no id or version yet |
| Catalog.CreateBook | cmd/web/handlers.go:433-507 | a book is inserted exactly when the form is readable and passes its checks, and every inserted book has 1 ≤ available = total copies; a failed check flashes an error and redirects to /dashboard; an insert error is 500 |
| Catalog.EditedBook | cmd/web/handlers.go:535-566 | an edit keeps the book's id and version, takes both copy counts from the form independently, and keeps the old date when the new one does not parse |
| Catalog.EditCanBreakCopies | cmd/web/handlers.go:535-566 | an edit can leave more copies available than exist, and a non-numeric total clears the total to 0 |
| Catalog.UpdateBook | cmd/web/handlers.go:509-581 | the edit is written back exactly when the id is valid, the form readable and the book found; a bad id or missing book is 404, an unreadable form 400, other lookup or update failures 500 |
| Signup.SignupErrorFields | cmd/web/handlers.go:138-150 | each field is marked exactly when its rule fails; the confirmation is marked only when the password itself is accepted and differs |
| Signup.SignupAccepted | cmd/web/handlers.go:138-152 | a form passes exactly when: the name is non-blank and 3..500 bytes; the email is non-empty and matches; the password is 8..72 bytes; the confirmation repeats it |
| Signup.PasswordRules | cmd/web/handlers.go:143-150 | an accepted password is never empty; when the password is rejected, the confirmation does not affect the outcome |
| Signup.NewUser | cmd/web/handlers.go:160-163 | the inserted user carries the form's name, the form's email and the new hash |
| Signup.NameMessage | cmd/web/handlers.go:138-140 | the name has a message exactly when it is rejected: "must be provided" when blank, "must be more than 3 bytes long" when shorter than 3 bytes, "must not be more than 500 bytes long" when longer than 500 |
| Signup.CheckName | cmd/web/handlers.go:138-140 | "name" is marked exactly when the name is blank or its UTF-8 length is outside 3..500 bytes, with NameMessage's message when it was not marked before; every earlier entry keeps its message |
| Signup.MarkedFields | cmd/web/handlers.go:138-143 | after the name, email and password checks, each of the three fields is marked exactly when it has a message, and shows that message |
| Signup.ConfirmationField | cmd/web/handlers.go:144-150 | the confirmation is marked, with "passwords do not match", exactly when the password has no message and the two entries differ; the other fields keep their messages |
| Signup.SignupErrorsFields | cmd/web/handlers.go:138-150 | the fields the signup page marks are exactly SignupErrorFields |
| Signup.SignupErrorsMessages | cmd/web/handlers.go:138-150 | each marked field shows the message of its first failing check, and the confirmation shows "passwords do not match" |
| Signup.CheckSignupForm | cmd/web/handlers.go:138-150 | the checks run in the handler's order leave exactly SignupErrors: the fields of SignupErrorFields, each with its first failing check's message |
| Signup.SignupPost | cmd/web/handlers.go:123-185 | a user is inserted exactly when the form is readable, passes its checks and the password hashes; see the line after this table for how each outcome is answered |

Some functions and predicates have no row of their own. They are the
specification helpers behind the rows that cite them:
- Strconv.Atoi, Strconv.FormatInt and Strings.Join;
- Books.Window and Books.StatementError;
- Validation.NotBlank and Signup.SignupErrors;
- Lending.ValidPathId and Lending.ValidDays.

Outcomes of Signup.SignupPost:
- invalid form: 422 with the errors of SignupErrors, that is, the marked fields and their messages;
- hashing failure: 500;
- ErrDuplicateEmail: 422 with the email marked;
- other insert error: 500;
- success: redirect to /login.

## Left out

- The lending transaction is not part of this model: its row lock, the uniqueness of active loans, the counter and version updates, and the due date. `Books.BorrowBook` and `Books.ReturnBook` are called at cmd/web/handlers.go:335 and :367, but their code is not in any modelled file. The handlers take them as parameters that give the error for a request.
- The other store operations the handlers call are not modelled. `Books.Insert`, `Books.Update` and `Users.Delete` are given only by the error they report.
- The validator package and the handlers' `notFound`, `badRequest`, `serverError`, flash and render helpers are not part of this model. Their visible effect is the `Response` value. The validator follows the behaviour described above.
- `ErrRecordNotFound` is a sentinel value here. Its declaration is not part of this model. Error wrapping is not modelled, so `errors.Is` and `==` on errors coincide.
- Some collaborators are parameters:
  - bcrypt's hashing and comparison;
  - the email regular expression;
  - `time.Parse` of the publish date and `time.Now`;
  - the session's authenticated user id;
  - `ParseForm` failures.
- Context timeouts, connection handling and concurrency between requests are not modelled.
- The `ORDER BY` clauses do not fix the order of rows with equal keys. The model breaks ties with a stable insertion sort, and the contracts of Books.GetBooks, Catalog.Home and Catalog.BooksFragment pin that one order. Borrows.CurrentRows and Borrows.CurrentByUser sort the current loans by `borrowed_at DESC` (internal/data/borrows.go:47) with the same stable sort, so their contracts also pin one order of loans borrowed at the same time. The store may pick a different order for each statement. With ties, pages fetched by separate requests may then overlap or skip books: Catalog.TiesLetPagesOverlap shows this. Non-increasing keys, the permutation and the window shape hold for any tie order.
- Catalog.UpdateBook does not keep 0 ≤ available ≤ total, and the model does not claim it: Catalog.EditCanBreakCopies exhibits the failure. Nothing in the code increments `Version`, so optimistic concurrency is not modelled.
- The other handlers are not modelled: profile, dashboard, login, logout, search, displayBook, updateMember and deleteBook.
- The HTTP routing, templates, middleware and browser scripts are not modelled either.
- Times are integers (seconds). Genres are a sequence of strings. The Postgres array encoding is not modelled.
- Strings.IsSpace lists the white space of unicode.IsSpace by code point. Invalid UTF-8 is not representable: a string is a sequence of code points.

## Findings

| source | as written | input that shows it | evidently intended | confidence | as-written member | corrected member |
|---|---|---|---|---|---|---|
| cmd/web/handlers.go:403 | `offset := (page - 1) * limit` in 64-bit `int`, where any page ≥ 1 from Atoi is kept, up to MaxInt64 | `GET` of the fragment with `page=3000000000000000000`: the offset wraps to -6446744073709551620, the store rejects the negative OFFSET, and the answer is 500 (a page beyond int64 is clamped to MaxInt64, whose offset wraps to -8); `page=4611686018427387905` wraps to offset 0 and serves page 1 again, as every page from 2^62+1 to 2^62+2^61 serves the page 2^62 earlier | a very large page gives an empty fragment: the offset stays non-negative and a multiple of 4 | high; not executed | Catalog.OffsetWrapsNegative | Catalog.BooksFragmentCorrected |
| internal/data/books.go:37 | `ORDER BY copies_available DESC` leaves the order of books with equal counts open, and each page of the infinite scroll (ui/static/js/home.js:9-10) is a separate statement | five books with one copy each: page 1 served in the order 1,2,3,4,5 and page 2 in the order 2,3,4,5,1 shows book 1 twice and book 5 never | a tie-breaker such as `ORDER BY copies_available DESC, id`, so successive pages neither repeat nor skip books | medium; not executed | Catalog.TiesLetPagesOverlap | Catalog.PagesAcrossRequests |
