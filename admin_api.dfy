/**
 * The admin endpoint (backend/admin/index.py): password login that opens a
 * 24-hour session, a bearer-token gate, listings of all reviews and all books,
 * and soft deletion of a review or a book.
 *
 * The clock is the parameter `now` (seconds), used both for `datetime.now()` and
 * for the database's CURRENT_TIMESTAMP; the token `secrets.token_urlsafe(32)`
 * would draw is the parameter `freshToken`.
 */
module AdminApi {
  import opened Values
  import opened Seqs
  import opened Tables
  import opened Http
  import BooksApi

  const AdminPassword := "1Arbuz1"
  /** `timedelta(hours=24)` in seconds. */
  const SessionLifetime := 24 * 60 * 60
  const BearerPrefix := "Bearer "

  const LoginOk := "Успешный вход"
  const WrongPassword := "Неверный пароль"
  const AuthRequired := "Требуется авторизация"
  const SessionExpired := "Сессия истекла"
  const FillTypeAndId := "Необходимо указать тип и ID элемента"
  const WrongItemType := "Неверный тип элемента"
  const ItemDeleted := "Элемент удалён"
  const Rejected := "rejected"

  // ---------------------------------------------------------------------------
  // Authentication

  /** A POST whose body asks to log in; it is answered before the token gate. */
  predicate IsLogin(e: Event) {
    MethodOf(e) == "POST" && Get(e.body, "action") == Str("login")
  }

  /** The `Authorization` header with every `'Bearer '` removed (Python `str.replace`). */
  function BearerToken(headers: map<string, string>): (token: string)
    ensures "Authorization" !in headers ==> token == ""
    ensures "Authorization" in headers ==> |token| <= |headers["Authorization"]|
  {
    RemoveAll(if "Authorization" in headers then headers["Authorization"] else "", BearerPrefix)
  }

  /** A session with this token that has not yet expired. */
  predicate HasLiveSession(sessions: seq<Session>, token: string, now: int) {
    exists k :: 0 <= k < |sessions| && sessions[k].token == token && sessions[k].expiresAt > now
  }

  /** The gate: a non-empty bearer token with a live session; no header never passes. */
  predicate Authorized(e: Event, sessions: seq<Session>, now: int)
    ensures Authorized(e, sessions, now) ==> "Authorization" in e.headers
  {
    var token := BearerToken(e.headers);
    token != "" && HasLiveSession(sessions, token, now)
  }

  /**
   * Login: the right password opens a session that expires 24 hours from now and
   * returns its token; any other password is a 401 and opens nothing.
   */
  function Login(body: map<string, Value>, db: Db, now: int, freshToken: string): (out: (Response, Db))
    ensures Get(body, "password") == Str(AdminPassword) ==>
      out.0 == Response(200, LoggedIn(freshToken, LoginOk)) &&
      out.1 == db.(sessions := db.sessions + [Session(freshToken, now + SessionLifetime)])
    ensures Get(body, "password") != Str(AdminPassword) ==>
      out == (Response(401, Error(WrongPassword)), db)
  {
    if Get(body, "password") == Str(AdminPassword) then
      (Response(200, LoggedIn(freshToken, LoginOk)),
       db.(sessions := db.sessions + [Session(freshToken, now + SessionLifetime)]))
    else (Response(401, Error(WrongPassword)), db)
  }

  // ---------------------------------------------------------------------------
  // GET listings

  /** The title of the book a review points at, as `LEFT JOIN books` finds it. */
  function BookTitle(books: seq<BookRow>, bookId: Option<int>): (t: Option<string>)
    ensures bookId.None? ==> t.None?
    ensures t.Some? ==> exists k :: 0 <= k < |books| && books[k].id == bookId.value && books[k].title == t.value
    ensures bookId.Some? && (exists k :: 0 <= k < |books| && books[k].id == bookId.value) ==> t.Some?
  {
    if bookId.None? then None
    else match FindBook(books, bookId.value)
      case Some(b) => Some(b.title)
      case None => None
  }

  /**
   * `action=reviews`: every review whatever its status, newest first, each with
   * its book's title; `action=books`: every book, soft-deleted ones included,
   * newest first. Any other action ends the handler without a response.
   */
  function Listing(q: map<string, string>, db: Db): (r: Option<Response>)
    ensures ("action" !in q || q["action"] !in {"reviews", "books"}) <==> r.None?
    ensures "action" in q && q["action"] == "books" ==> r == Some(Response(200, AllBooks(Reverse(db.books))))
    ensures "action" in q && q["action"] == "reviews" ==>
      r.Some? && r.value.statusCode == 200 && r.value.body.ReviewsWithTitles? &&
      |r.value.body.rows| == |db.reviews| &&
      forall k :: 0 <= k < |db.reviews| ==>
        r.value.body.rows[k] == (db.reviews[|db.reviews| - 1 - k], BookTitle(db.books, db.reviews[|db.reviews| - 1 - k].bookId))
  {
    if "action" in q && q["action"] == "reviews" then
      var newest := Reverse(db.reviews);
      Some(Response(200, ReviewsWithTitles(seq(|newest|, k requires 0 <= k < |newest| =>
        (newest[k], BookTitle(db.books, newest[k].bookId))))))
    else if "action" in q && q["action"] == "books" then
      Some(Response(200, AllBooks(Reverse(db.books))))
    else None
  }

  // ---------------------------------------------------------------------------
  // DELETE: soft deletion

  /** `UPDATE reviews SET status = 'rejected' WHERE id = %s`. */
  function RejectReview(reviews: seq<ReviewRow>, id: int): (r: seq<ReviewRow>)
    ensures |r| == |reviews|
    ensures forall k :: 0 <= k < |reviews| ==>
      r[k] == if reviews[k].id == id then reviews[k].(status := Rejected) else reviews[k]
  {
    UpdateReview(reviews, id, (x: ReviewRow) => x.(status := Rejected))
  }

  /** `UPDATE books SET deleted_at = CURRENT_TIMESTAMP WHERE id = %s`. */
  function MarkBookDeleted(books: seq<BookRow>, id: int, now: int): (r: seq<BookRow>)
    ensures |r| == |books|
    ensures forall k :: 0 <= k < |books| ==>
      r[k] == if books[k].id == id then books[k].(deletedAt := Some(now)) else books[k]
  {
    UpdateBook(books, id, (x: BookRow) => x.(deletedAt := Some(now)))
  }

  /**
   * DELETE: a falsy type or id is a 400; type 'review' marks the review rejected,
   * type 'book' stamps the book deleted — both keep the row; any other type is a
   * 400. An id that is not an integer makes the update fail.
   */
  function Remove(body: map<string, Value>, db: Db, now: int): (out: (Response, Db))
    ensures !Truthy(Get(body, "type")) || !Truthy(Get(body, "id")) ==>
      out == (Response(400, Error(FillTypeAndId)), db)
    ensures (Truthy(Get(body, "type")) && Truthy(Get(body, "id")) &&
             Get(body, "type") != Str("review") && Get(body, "type") != Str("book")) ==>
      out == (Response(400, Error(WrongItemType)), db)
    ensures out.0.statusCode != 200 ==> out.1 == db
    ensures out.0.statusCode == 200 ==>
      out.0.body == Message(ItemDeleted) && IdOf(Get(body, "id")).Some? &&
      (Get(body, "type") == Str("review") ==>
        out.1 == db.(reviews := RejectReview(db.reviews, IdOf(Get(body, "id")).value))) &&
      (Get(body, "type") == Str("book") ==>
        out.1 == db.(books := MarkBookDeleted(db.books, IdOf(Get(body, "id")).value, now)))
    ensures (Truthy(Get(body, "id")) && IdOf(Get(body, "id")).Some? &&
             (Get(body, "type") == Str("review") || Get(body, "type") == Str("book"))) ==>
      out.0.statusCode == 200
  {
    var kind := Get(body, "type");
    var id := Get(body, "id");
    if !Truthy(kind) || !Truthy(id) then (Response(400, Error(FillTypeAndId)), db)
    else if kind == Str("review") then
      match IdOf(id)
      case None => (Fault, db)
      case Some(n) => (Response(200, Message(ItemDeleted)), db.(reviews := RejectReview(db.reviews, n)))
    else if kind == Str("book") then
      match IdOf(id)
      case None => (Fault, db)
      case Some(n) => (Response(200, Message(ItemDeleted)), db.(books := MarkBookDeleted(db.books, n, now)))
    else (Response(400, Error(WrongItemType)), db)
  }

  // ---------------------------------------------------------------------------
  // The handler

  /**
   * OPTIONS is answered at once; a login POST is answered before any token is
   * looked at; every other request must carry a token with a live session, and
   * only then is GET or DELETE served — anything else is a 405. An unmatched GET
   * action returns nothing (None).
   */
  function Handle(e: Event, db: Db, now: int, freshToken: string): (out: (Option<Response>, Db))
    ensures MethodOf(e) == "OPTIONS" ==> out == (Some(Preflight), db)
    ensures IsLogin(e) ==> out.0.Some? && (out.0.value, out.1) == Login(e.body, db, now, freshToken)
    ensures MethodOf(e) != "OPTIONS" && !IsLogin(e) && BearerToken(e.headers) == "" ==>
      out == (Some(Response(401, Error(AuthRequired))), db)
    ensures MethodOf(e) != "OPTIONS" && !IsLogin(e) && !Authorized(e, db.sessions, now) ==>
      out.0.Some? && out.0.value.statusCode == 401 && out.1 == db
    ensures MethodOf(e) != "OPTIONS" && !IsLogin(e) && Authorized(e, db.sessions, now) ==>
      (MethodOf(e) == "GET" ==> out == (Listing(e.queryStringParameters, db), db)) &&
      (MethodOf(e) == "DELETE" ==> out.0.Some? && (out.0.value, out.1) == Remove(e.body, db, now)) &&
      (MethodOf(e) !in {"GET", "DELETE"} ==> out == (Some(Response(405, Error(MethodNotAllowed))), db))
    ensures out.1.nextBookId == db.nextBookId && out.1.nextReviewId == db.nextReviewId
  {
    var verb := MethodOf(e);
    if verb == "OPTIONS" then (Some(Preflight), db)
    else if IsLogin(e) then
      var (response, db') := Login(e.body, db, now, freshToken);
      (Some(response), db')
    else if BearerToken(e.headers) == "" then (Some(Response(401, Error(AuthRequired))), db)
    else if !HasLiveSession(db.sessions, BearerToken(e.headers), now) then (Some(Response(401, Error(SessionExpired))), db)
    else if verb == "GET" then (Listing(e.queryStringParameters, db), db)
    else if verb == "DELETE" then
      var (response, db') := Remove(e.body, db, now);
      (Some(response), db')
    else (Some(Response(405, Error(MethodNotAllowed))), db)
  }

  // ---------------------------------------------------------------------------
  // Properties across requests

  /** `token_urlsafe` draws from letters, digits, '-' and '_': never a space. */
  predicate UrlSafe(token: string) {
    token != "" && ' ' !in token
  }

  /** Sending the issued token as `Bearer <token>` hands the gate exactly that token. */
  lemma BearerHeaderGivesToken(token: string)
    requires UrlSafe(token)
    ensures BearerToken(map["Authorization" := BearerPrefix + token]) == token
  {
    RemoveAllLeading(BearerPrefix, token);
    NotIncludedWithoutChar(token, BearerPrefix, 6);
    RemoveAllAbsent(token, BearerPrefix);
  }

  /** The bare token, without the `Bearer ` prefix, is accepted too. */
  lemma BareTokenAccepted(token: string)
    requires UrlSafe(token)
    ensures BearerToken(map["Authorization" := token]) == token
  {
    NotIncludedWithoutChar(token, BearerPrefix, 6);
    RemoveAllAbsent(token, BearerPrefix);
  }

  /** No header at all is refused before any session is looked up. */
  lemma MissingHeaderRefused(e: Event, db: Db, now: int, freshToken: string)
    requires MethodOf(e) != "OPTIONS" && !IsLogin(e) && "Authorization" !in e.headers
    ensures Handle(e, db, now, freshToken) == (Some(Response(401, Error(AuthRequired))), db)
  {
  }

  /**
   * A successful login, then any admin request that presents the issued token
   * within 24 hours, passes the gate; from the moment of expiry on, the same
   * request is refused (when no other session carries that token).
   */
  lemma LoginOpensSessionFor24Hours(db: Db, now: int, freshToken: string, later: Event, t: int)
    requires UrlSafe(freshToken)
    requires later.headers == map["Authorization" := BearerPrefix + freshToken]
    requires forall k :: 0 <= k < |db.sessions| ==> db.sessions[k].token != freshToken
    ensures var login := Event(Some("POST"), map[], map[],
                               map["action" := Str("login"), "password" := Str(AdminPassword)]);
      var db' := Handle(login, db, now, freshToken).1;
      (t < now + SessionLifetime ==> Authorized(later, db'.sessions, t)) &&
      (t >= now + SessionLifetime ==> !Authorized(later, db'.sessions, t))
  {
    var login := Event(Some("POST"), map[], map[],
                       map["action" := Str("login"), "password" := Str(AdminPassword)]);
    assert Get(login.body, "action") == Str("login");
    assert Get(login.body, "password") == Str(AdminPassword);
    var db' := Handle(login, db, now, freshToken).1;
    assert db'.sessions == db.sessions + [Session(freshToken, now + SessionLifetime)];
    BearerHeaderGivesToken(freshToken);
    if t < now + SessionLifetime {
      assert db'.sessions[|db.sessions|].token == freshToken;
    }
  }

  /** A wrong password leaves every table as it was. */
  lemma WrongPasswordChangesNothing(e: Event, db: Db, now: int, freshToken: string)
    requires IsLogin(e) && Get(e.body, "password") != Str(AdminPassword)
    ensures Handle(e, db, now, freshToken) == (Some(Response(401, Error(WrongPassword))), db)
  {
  }

  /** A POST with any other action is not a login: it must pass the gate and then gets 405. */
  lemma OtherPostIsNotAllowed(e: Event, db: Db, now: int, freshToken: string)
    requires MethodOf(e) == "POST" && Get(e.body, "action") != Str("login")
    requires Authorized(e, db.sessions, now)
    ensures Handle(e, db, now, freshToken) == (Some(Response(405, Error(MethodNotAllowed))), db)
  {
  }

  /** Soft deletion keeps every row: the tables keep their length and every id. */
  lemma RemoveKeepsRows(body: map<string, Value>, db: Db, now: int)
    ensures var db' := Remove(body, db, now).1;
      |db'.books| == |db.books| && |db'.reviews| == |db.reviews| &&
      (forall k :: 0 <= k < |db.books| ==> db'.books[k].id == db.books[k].id) &&
      (forall k :: 0 <= k < |db.reviews| ==> db'.reviews[k].id == db.reviews[k].id)
  {
  }

  /**
   * Deleting a book only stamps its `deleted_at`; the public list of the books
   * endpoint does not look at the stamp, so the book is still served there.
   */
  lemma DeletedBookStillListed(db: Db, now: int, id: int, k: nat)
    requires k < |db.books| && db.books[k].id == id && id != 0
    ensures var db' := Remove(map["type" := Str("book"), "id" := Int(id)], db, now).1;
      db'.books[k].deletedAt == Some(now) && db'.books[k].(deletedAt := None) == db.books[k].(deletedAt := None) &&
      Summary(db'.books[k]) in BooksApi.Read(map[], db'.books).body.summaries
  {
    var body := map["type" := Str("book"), "id" := Int(id)];
    assert Get(body, "type") == Str("book") && Get(body, "id") == Int(id);
    var db' := Remove(body, db, now).1;
    assert db'.books[k] in db'.books;
    BooksApi.ListingKeepsDeleted(db'.books, db'.books[k]);
  }

  /** Every handler call keeps ids unique and below the next id. */
  lemma HandlePreservesValid(e: Event, db: Db, now: int, freshToken: string)
    requires Valid(db)
    ensures Valid(Handle(e, db, now, freshToken).1)
  {
    if MethodOf(e) == "OPTIONS" || IsLogin(e) || !Authorized(e, db.sessions, now) || MethodOf(e) != "DELETE" {
      assert Handle(e, db, now, freshToken).1.books == db.books;
      assert Handle(e, db, now, freshToken).1.reviews == db.reviews;
    } else {
      RemoveKeepsRows(e.body, db, now);
      SameIdsKeepValid(db, Remove(e.body, db, now).1);
    }
  }
}
