# Storyflow library — a verified model of the catalog and the three handlers

This project models, in Dafny, the decision logic of the Storyflow book library:

- **The catalog page** (`src/pages/Index.tsx`, module `Catalog`): the sample
  books, the genre list `ALL_GENRES`, the combined search/genre/bookmark filter,
  the per-genre card counts, the bookmarks view and the bookmark toggle.
- **The books endpoint** (`backend/books/index.py`, module `BooksApi`): one book
  by id, the public list without the book text, and adding a book.
- **The reviews endpoint** (`backend/reviews/index.py`, module `ReviewsApi`):
  the list query built clause by clause, submitting a review for moderation, and
  setting a review's status.
- **The admin endpoint** (`backend/admin/index.py`, module `AdminApi`): password
  login that opens a 24-hour session, the bearer-token gate, the review and book
  listings, and soft deletion.

Each handler is a function from the request and the database to the response
and the new database; the reviews and admin handlers also take the clock, and
the admin handler the token a login would issue. The database is three in-memory tables (module
`Tables`):

- Rows are kept in insertion order, so `ORDER BY created_at DESC` lists them in
  reverse.
- The counters `nextBookId` and `nextReviewId` stand for the SERIAL ids.
- Every handler is proved to keep ids unique and below the next id (`Valid`).

A JSON body is a map to `Value` (null, string or integer). The module `Values`
gives the Python behaviour the handlers rely on:

- truthiness;
- `dict.get` with a default;
- `str.strip()` over Python's whitespace set;
- `str.replace(pat, '')`;
- how PostgreSQL casts a text parameter to an integer column.

The clock is the parameter `now` (seconds). It serves both for `datetime.now()`
and for the database's `CURRENT_TIMESTAMP`. The token `secrets.token_urlsafe(32)`
would draw is the parameter `freshToken`. JavaScript's `toLowerCase` is the
parameter `lower`, so the catalog results hold for any lowering function.

The front end and the handlers expect more than the handlers check, and the
model follows the handlers:

- The review form offers ratings of 1 to 5 stars
  (src/components/ReviewForm.tsx:107-116). The review handler stores any rating
  its integer column accepts (backend/reviews/index.py:92-96).
- The admin panel knows the states pending, approved and rejected
  (src/pages/Admin.tsx:301-305). The PUT handler stores any non-empty status
  string (backend/reviews/index.py:113-130).
- The public book list and GET-by-id do not look at `deleted_at`
  (backend/books/index.py:29-68). A book the admin deletes stays publicly
  visible.

## Model

| member | source | states |
|---|---|---|
| Seqs.Distinct | src/pages/Index.tsx:87 | `Array.from(new Set(xs))`: never longer than its input; its meaning is stated by the two rows below |
| Catalog.DistinctGenresSpec | src/pages/Index.tsx:87 | the genre list has no duplicates, holds the genre of every book and only such genres, in order of first appearance |
| Catalog.AllGenresValue | src/pages/Index.tsx:20-87 | for the sample books, ALL_GENRES is exactly Классика, Фантастика, Фэнтези, Драма, Приключения |
| Seqs.DistinctSpec | src/pages/Index.tsx:87 | `Array.from(new Set(xs))` keeps every value once and invents none |
| Seqs.DistinctFirstAppearance | src/pages/Index.tsx:87 | the set keeps insertion order: values come out in order of their first occurrence |
| Seqs.Filter | src/pages/Index.tsx:107-117 | `Array.prototype.filter`: never longer than its input, and every kept element passes the test |
| Catalog.FilteredBooks | src/pages/Index.tsx:107-117 | `filteredBooks`: no more books than the list, each passing the search, genre and bookmark tests (the converse is Catalog.FilteredMember) |
| Catalog.FilteredIsOrderedSelection | src/pages/Index.tsx:107-117 | the filtered list is an order-preserving subsequence of the list; a passing book keeps its multiplicity and a failing one is absent |
| Catalog.FilteredMember | src/pages/Index.tsx:107-117 | a book is shown iff it is in the list and passes the search, the genre and the bookmark tests |
| Catalog.FilterIdentity | src/pages/Index.tsx:108-114 | with no query, no genre and a tab other than bookmarks, every book is shown in order |
| Catalog.SearchMatchIff | src/pages/Index.tsx:108-111 | the text test holds iff the query is empty or the lowered query occurs at some position of the lowered title, author or description |
| Values.Includes | src/pages/Index.tsx:109-111 | `String.prototype.includes`: the empty needle is always included; a needle longer than the text never is |
| Values.IncludesIff | src/pages/Index.tsx:109-111 | `includes` holds iff the needle occurs at some index of the haystack |
| Catalog.GenreSelection | src/pages/Index.tsx:113 | with a genre selected, every shown book has that genre, and every book of that genre passing the other tests is shown |
| Catalog.NoBookmarksShowsNothing | src/pages/Index.tsx:114-116 | on the bookmarks tab with no bookmarks nothing is shown, whatever the query and genre |
| Catalog.SampleGenreExample | src/pages/Index.tsx:107-117 | selecting Фантастика on the sample list shows exactly "1984" |
| Catalog.GenreCardMatchesCatalog | src/pages/Index.tsx:211-218 | after clicking a genre card, which keeps the search text, the catalog shows exactly the card's books that match the search; with an empty search, exactly the books the card counted |
| Catalog.GenreCountsCoverBooks | src/pages/Index.tsx:211-213 | the genre-card counts over ALL_GENRES add up to the number of books |
| Catalog.BookmarkedBooksAsFilter | src/pages/Index.tsx:251 | the bookmarks view lists exactly the bookmarked books in list order; the catalog filter on the bookmarks tab is that view further filtered by the search and the genre, and equals it when neither is set |
| Catalog.ToggleBookmark | src/pages/Index.tsx:95-105 | the id is in the new set iff it was not in the old one; all other ids are unchanged |
| Catalog.ToggleTwice | src/pages/Index.tsx:95-105 | toggling the same id twice gives back the original set |
| Catalog.ToggleOthersUnchanged | src/pages/Index.tsx:96-104 | toggling one id never changes another id's membership |
| Values.StrippedField | backend/books/index.py:73-79 | `body.get(key, '').strip()`: an absent key gives "", a string gives its stripped text, anything else fails |
| Values.Strip | backend/books/index.py:73-79 | `str.strip()`: never longer than its input, and a non-empty result neither starts nor ends with whitespace |
| Values.StripEmptyIff | backend/reviews/index.py:66-70 | a field strips to empty iff it is all whitespace |
| Values.StripIsInnerSlice | backend/books/index.py:73-79 | the stripped text is a slice of the input with only whitespace cut from both ends |
| Values.StripIdempotent | backend/books/index.py:73-79 | stripping twice is stripping once |
| Values.ParseIntText | backend/reviews/index.py:127-130 | integer text written from an integer casts back to the same integer |
| BooksApi.Handle | backend/books/index.py:9-120 | OPTIONS is a 200 with an empty body; methods other than OPTIONS, GET and POST get 405; only POST changes the tables, and only the books table |
| BooksApi.Listing | backend/books/index.py:57 | the public list has one summary per book, the newest book first |
| BooksApi.Read | backend/books/index.py:29-68 | with an id: 200 with a book of that id iff one exists, else 404; without: all books newest first without the text |
| BooksApi.ListingKeepsDeleted | backend/books/index.py:57-68 | a soft-deleted book is still in the public list |
| BooksApi.StoredGenre | backend/books/index.py:95 | the stored genre is never empty: the stripped genre if non-empty, else "Без жанра" |
| BooksApi.StrippedBook | backend/books/index.py:73-79 | the six text fields read and stripped; fails exactly when one of them is present with a value that is not a string |
| BooksApi.Add | backend/books/index.py:70-109 | 400 iff title, author or text is empty after stripping; then nothing is stored; 201 adds exactly one row with the next id and returns that id |
| BooksApi.AddStoresStripped | backend/books/index.py:73-96 | title, author, text, description and cover URL are each stored as the strip of what was sent, or empty when absent; a blank or missing genre is stored as "Без жанра"; the row gets the next id and no deletion stamp |
| BooksApi.AddPreservesValid | backend/books/index.py:92-98 | adding a book keeps book ids unique and below the next id |
| BooksApi.HandlePreservesValid | backend/books/index.py:9-120 | every request keeps the tables valid |
| ReviewsApi.Handle | backend/reviews/index.py:9-152 | OPTIONS is a 200 with an empty body; methods other than OPTIONS, GET, POST and PUT get 405; GET changes nothing; books and sessions are never touched |
| ReviewsApi.ListDefaultsToApproved | backend/reviews/index.py:33 | with no status parameter the list filters on 'approved' |
| ReviewsApi.Clauses | backend/reviews/index.py:31-44 | status first; a type clause iff `type` is truthy; a book clause iff `book_id` is truthy; the type clause never after the book clause |
| ReviewsApi.BuildListQuery | backend/reviews/index.py:35-46 | the appended query is the clause text plus the ordering; it ends with `ORDER BY created_at DESC`; its `%s` count equals the parameter count |
| ReviewsApi.ListQueryText | backend/reviews/index.py:35-46 | the query text spelled out: status clause, then the type clause, then the book clause |
| ReviewsApi.QueryTextPlaceholders | backend/reviews/index.py:35-44 | each clause adds exactly one `%s` |
| ReviewsApi.ListQueryPlaceholders | backend/reviews/index.py:35-48 | the finished query has one `%s` per bound parameter |
| ReviewsApi.ClausesMeanSelected | backend/reviews/index.py:35-49 | a row satisfies every clause of the built query iff it has the requested status, type and book |
| ReviewsApi.List | backend/reviews/index.py:29-59 | 200 with exactly the selected reviews, newest first; an uncastable `book_id` fails |
| ReviewsApi.Submit | backend/reviews/index.py:61-109 | name and text are stripped; a falsy type or empty name or text is a 400; then an unknown type is a 400; 201 exactly when name and text are non-blank, the type is 'book' or 'app' and book id and rating fit their integer columns; then one review is added and 201 returns its id |
| ReviewsApi.SubmitStoresPending | backend/reviews/index.py:61-96 | the stored review has the next id, status 'pending', the type sent, the stripped name and text, and the book id and rating as sent, with no range check on the rating |
| ReviewsApi.RequiredBeforeKind | backend/reviews/index.py:70-90 | a falsy type or a blank or missing name or text is answered "fill in name and text" with no change, whatever the type value: the required-field check runs before the type check |
| ReviewsApi.BlankReviewRefused | backend/reviews/index.py:66-79 | a whitespace-only review is refused as empty and stores nothing |
| ReviewsApi.Restatus | backend/reviews/index.py:127-130 | the review with that id gets the new status and update time; every other row is unchanged |
| ReviewsApi.SetStatus | backend/reviews/index.py:111-141 | a falsy id or status is a 400; otherwise the status is set to exactly the value sent and 200 is returned |
| ReviewsApi.AnyStatusStored | backend/reviews/index.py:127-141 | any non-empty status string is stored verbatim: there is no whitelist |
| ReviewsApi.SubmitPreservesValid | backend/reviews/index.py:92-98 | submission keeps review ids unique and below the next id |
| ReviewsApi.SetStatusPreservesValid | backend/reviews/index.py:127-130 | a status update keeps every id |
| ReviewsApi.HandlePreservesValid | backend/reviews/index.py:9-152 | every request keeps the tables valid |
| AdminApi.Login | backend/admin/index.py:34-69 | the right password adds one session expiring 24 hours later and returns its token; any other password is a 401 and adds nothing |
| AdminApi.WrongPasswordChangesNothing | backend/admin/index.py:60-69 | a failed login leaves every table as it was |
| AdminApi.BearerToken | backend/admin/index.py:71-72 | the `Authorization` header with `Bearer ` removed; no header gives the empty token |
| AdminApi.HasLiveSession | backend/admin/index.py:86-90 | the session lookup: some stored session carries the token and expires after now |
| AdminApi.Authorized | backend/admin/index.py:71-100 | a request passes the gate only with a non-empty token that has a live session; without an `Authorization` header it never passes |
| AdminApi.BearerHeaderGivesToken | backend/admin/index.py:71-72 | `Authorization: Bearer <t>` yields `t` for a url-safe token |
| AdminApi.BareTokenAccepted | backend/admin/index.py:71-72 | a url-safe token sent without the prefix is accepted unchanged |
| Values.RemoveAll | backend/admin/index.py:72 | `str.replace(pat, '')`: the result is never longer than the input (occurrences found left to right, without overlap) |
| Values.RemoveAllAbsent | backend/admin/index.py:72 | `replace` leaves text without the pattern unchanged |
| Values.RemoveAllLeading | backend/admin/index.py:72 | a leading occurrence is dropped and the scan resumes after it |
| AdminApi.MissingHeaderRefused | backend/admin/index.py:71-83 | with no Authorization header a non-login request is a 401 and changes nothing |
| AdminApi.Handle | backend/admin/index.py:14-190 | OPTIONS needs no token; login is served before the gate; every other request without a live session is a 401 with no change; then GET lists, DELETE removes and other methods get 405 |
| AdminApi.LoginOpensSessionFor24Hours | backend/admin/index.py:41-100 | after a login, the issued token passes the gate before 24 hours and fails from then on |
| AdminApi.OtherPostIsNotAllowed | backend/admin/index.py:181-190 | an authenticated POST whose action is not 'login' gets 405 |
| AdminApi.BookTitle | backend/admin/index.py:106-111 | the joined title is the title of a book with the review's book id, and present when such a book exists |
| AdminApi.Listing | backend/admin/index.py:102-136 | 'reviews' gives every review newest first with its book title; 'books' gives every book newest first; any other action gives no response |
| AdminApi.RejectReview | backend/admin/index.py:154-155 | only the review with that id changes, and only its status, to 'rejected' |
| AdminApi.MarkBookDeleted | backend/admin/index.py:156-157 | only the book with that id changes, and only its deletion stamp |
| AdminApi.Remove | backend/admin/index.py:138-179 | a falsy type or id is a 400; 'review' rejects and 'book' stamps the row; another type is a 400; a 400 changes nothing |
| AdminApi.RemoveKeepsRows | backend/admin/index.py:154-157 | soft deletion keeps every row and every id |
| AdminApi.DeletedBookStillListed | backend/admin/index.py:156-157 | deleting a book sets only its deletion stamp, and the book stays in the public list of the books endpoint |
| AdminApi.HandlePreservesValid | backend/admin/index.py:14-190 | every admin request keeps the tables valid |

## Left out

- Database faults are not modelled: connection failures, constraint violations and other `except Exception` paths. The 500 response is kept only for faults the request itself causes:
  - `.strip()` on a value that is not a string;
  - text the database cannot cast to an integer column.
- JSON decoding is not modelled. A malformed body, and body values other than null, strings and integers, are out of scope.
- The CORS headers, the content type and `isBase64Encoded` are constant plumbing and are not kept.
- `secrets.token_urlsafe` is the parameter `freshToken`. Its randomness and uniqueness are assumptions of the lemmas (`UrlSafe`, no existing session with that token), not something proved.
- The clock is one parameter `now`, read by both `datetime.now()` and `CURRENT_TIMESTAMP`. Clock skew and time zones are not modelled.
- Values.ParseInt: the cast accepts only an optional sign and decimal digits. Surrounding blanks, which PostgreSQL would accept, are refused. The int4 range is not checked.
- A `queryStringParameters` or `headers` that is JSON null is modelled as an empty map. Such a null would raise where the handlers read these maps: backend/books/index.py:30, backend/admin/index.py:71 (headers) and backend/admin/index.py:103.
- An `httpMethod` key present with the value null is not modelled: `Event.httpMethod` is None only when the key is absent, which reads as GET. With a null value, `event.get('httpMethod', 'GET')` gives None and each handler answers 405 (backend/books/index.py:9, backend/reviews/index.py:9, backend/admin/index.py:14).
- Rows inserted with equal `created_at` stamps keep insertion order in the model. PostgreSQL leaves their order open.
- Catalog.MatchesSearch: Unicode case mapping is not modelled. `toLowerCase` is the parameter `lower`.
- The `isBookmarked` flags passed to the book cards are rendering only. So are the tab switching and the result counters.
- src/pages/Admin.tsx and the components are `fetch` calls and rendering. They are not part of this model.
- Handlers that write in place (INSERT and UPDATE) are modelled as functions returning the new tables. Concurrent requests and transaction isolation are not modelled.
