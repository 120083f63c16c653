/**
 * The reviews endpoint (backend/reviews/index.py): list reviews by status, type
 * and book; submit a review for moderation; set a review's status.
 */
module ReviewsApi {
  import opened Values
  import opened Seqs
  import opened Tables
  import opened Http

  const Approved := "approved"
  const Pending := "pending"
  const FillNameAndText := "Необходимо заполнить имя и текст отзыва"
  const WrongKind := "Неверный тип отзыва"
  const SentToModeration := "Отзыв отправлен на модерацию"
  const FillIdAndStatus := "Необходимо указать ID отзыва и новый статус"
  const StatusUpdated := "Статус отзыва обновлён"

  /** The handler: OPTIONS, GET, POST and PUT are served, every other method gets 405. */
  function Handle(e: Event, db: Db, now: int): (out: (Response, Db))
    ensures MethodOf(e) == "OPTIONS" ==> out == (Preflight, db)
    ensures MethodOf(e) == "GET" ==> out == (List(e.queryStringParameters, db.reviews), db)
    ensures MethodOf(e) == "POST" ==> out == Submit(e.body, db)
    ensures MethodOf(e) == "PUT" ==> out == SetStatus(e.body, db, now)
    ensures MethodOf(e) !in {"OPTIONS", "GET", "POST", "PUT"} ==>
      out == (Response(405, Error(MethodNotAllowed)), db)
    ensures MethodOf(e) !in {"POST", "PUT"} ==> out.1 == db
    ensures out.1.books == db.books && out.1.sessions == db.sessions && out.1.nextBookId == db.nextBookId
  {
    var verb := MethodOf(e);
    if verb == "OPTIONS" then (Preflight, db)
    else if verb == "GET" then (List(e.queryStringParameters, db.reviews), db)
    else if verb == "POST" then Submit(e.body, db)
    else if verb == "PUT" then SetStatus(e.body, db, now)
    else (Response(405, Error(MethodNotAllowed)), db)
  }

  // ---------------------------------------------------------------------------
  // GET: the query string is built clause by clause

  const Slot := "%s"
  const StatusStem := "SELECT * FROM reviews WHERE status = "
  const TypeStem := " AND type = "
  const BookIdStem := " AND book_id = "
  const SelectByStatus := StatusStem + Slot
  const AndType := TypeStem + Slot
  const AndBookId := BookIdStem + Slot
  const NewestFirst := " ORDER BY created_at DESC"

  /** `params.get('status', 'approved')`: only an absent parameter defaults. */
  function StatusParam(q: map<string, string>): string {
    if "status" in q then q["status"] else Approved
  }

  predicate HasType(q: map<string, string>) {
    "type" in q && q["type"] != ""
  }

  predicate HasBookId(q: map<string, string>) {
    "book_id" in q && q["book_id"] != ""
  }

  /** One `WHERE` condition of the list query together with the value bound to its `%s`. */
  datatype Clause = StatusIs(status: string) | KindIs(kind: string) | BookIs(bookId: string)

  function ClauseText(c: Clause): string {
    match c
    case StatusIs(_) => SelectByStatus
    case KindIs(_) => AndType
    case BookIs(_) => AndBookId
  }

  function ClauseParam(c: Clause): string {
    match c
    case StatusIs(s) => s
    case KindIs(k) => k
    case BookIs(b) => b
  }

  /** The conditions the parameters ask for, in the order the query states them. */
  function Clauses(q: map<string, string>): (cs: seq<Clause>)
    ensures |cs| >= 1 && cs[0] == StatusIs(StatusParam(q))
    ensures forall k :: 1 <= k < |cs| ==> !cs[k].StatusIs?
    ensures KindIs(if "type" in q then q["type"] else "") in cs <==> HasType(q)
    ensures BookIs(if "book_id" in q then q["book_id"] else "") in cs <==> HasBookId(q)
    ensures forall i, j :: 0 <= i < j < |cs| ==> !(cs[i].BookIs? && cs[j].KindIs?)
    ensures forall i, j :: 0 <= i < j < |cs| ==> cs[i] != cs[j]
  {
    [StatusIs(StatusParam(q))]
    + (if HasType(q) then [KindIs(q["type"])] else [])
    + (if HasBookId(q) then [BookIs(q["book_id"])] else [])
  }

  /** The query text of a list of clauses, each appended after the ones before. */
  function QueryText(cs: seq<Clause>): string {
    if cs == [] then "" else QueryText(cs[..|cs| - 1]) + ClauseText(cs[|cs| - 1])
  }

  function QueryParams(cs: seq<Clause>): (ps: seq<string>)
    ensures |ps| == |cs|
    ensures forall k :: 0 <= k < |cs| ==> ps[k] == ClauseParam(cs[k])
  {
    seq(|cs|, k requires 0 <= k < |cs| => ClauseParam(cs[k]))
  }

  /** The number of `%s` placeholders in a query string. */
  function Placeholders(s: string): nat {
    if |s| < 2 then 0
    else (if s[0] == '%' && s[1] == 's' then 1 else 0) + Placeholders(s[1..])
  }

  lemma {:induction false} PlaceholdersWithoutPercent(s: string)
    requires '%' !in s
    ensures Placeholders(s) == 0
  {
    if |s| >= 2 {
      assert s[0] != '%';
      PlaceholdersWithoutPercent(s[1..]);
    }
  }

  /** Counting is additive across a join that cannot split a `%s`. */
  lemma {:induction false} PlaceholdersAppend(a: string, b: string)
    requires a == [] || a[|a| - 1] != '%'
    ensures Placeholders(a + b) == Placeholders(a) + Placeholders(b)
  {
    if a == [] {
      assert a + b == b;
    } else if |a| == 1 {
      assert (a + b)[1..] == b;
    } else {
      assert (a + b)[1..] == a[1..] + b;
      PlaceholdersAppend(a[1..], b);
    }
  }

  /** A stem without '%' followed by the slot carries exactly one placeholder, at its very end. */
  lemma StemThenSlot(stem: string)
    requires '%' !in stem
    ensures Placeholders(stem + Slot) == 1
    ensures (stem + Slot)[|stem + Slot| - 1] == 's'
  {
    PlaceholdersWithoutPercent(stem);
    PlaceholdersAppend(stem, Slot);
  }

  lemma StatusStemHasNoPercent()
    ensures '%' !in StatusStem
  {
  }

  lemma TypeStemHasNoPercent()
    ensures '%' !in TypeStem
  {
  }

  lemma BookIdStemHasNoPercent()
    ensures '%' !in BookIdStem
  {
  }

  /** A clause's text carries exactly one placeholder, at its very end. */
  lemma ClauseTextPlaceholders(c: Clause)
    ensures Placeholders(ClauseText(c)) == 1
    ensures ClauseText(c)[|ClauseText(c)| - 1] == 's'
  {
    match c
    case StatusIs(_) =>
      StatusStemHasNoPercent();
      StemThenSlot(StatusStem);
    case KindIs(_) =>
      TypeStemHasNoPercent();
      StemThenSlot(TypeStem);
    case BookIs(_) =>
      BookIdStemHasNoPercent();
      StemThenSlot(BookIdStem);
  }

  lemma {:induction false} QueryTextPlaceholders(cs: seq<Clause>)
    ensures Placeholders(QueryText(cs)) == |cs|
    ensures QueryText(cs) == [] || QueryText(cs)[|QueryText(cs)| - 1] == 's'
  {
    if cs != [] {
      var init := cs[..|cs| - 1];
      QueryTextPlaceholders(init);
      ClauseTextPlaceholders(cs[|cs| - 1]);
      PlaceholdersAppend(QueryText(init), ClauseText(cs[|cs| - 1]));
    }
  }

  lemma QueryTextSnoc(cs: seq<Clause>, c: Clause)
    ensures QueryText(cs + [c]) == QueryText(cs) + ClauseText(c)
  {
    assert (cs + [c])[..|cs|] == cs;
  }

  /** The finished query carries one `%s` per clause. */
  lemma ListQueryPlaceholders(cs: seq<Clause>)
    ensures Placeholders(QueryText(cs) + NewestFirst) == |cs|
  {
    QueryTextPlaceholders(cs);
    PlaceholdersAppend(QueryText(cs), NewestFirst);
    NewestFirstHasNoSlot();
  }

  lemma NewestFirstHasNoSlot()
    ensures Placeholders(NewestFirst) == 0
  {
    assert '%' !in NewestFirst;
    PlaceholdersWithoutPercent(NewestFirst);
  }

  /**
   * Builds the list query the way the handler does, by appending to the text and
   * to the parameter list: one `%s` for every bound value, and the ordering last.
   */
  method BuildListQuery(q: map<string, string>) returns (query: string, queryParams: seq<string>)
    ensures query == QueryText(Clauses(q)) + NewestFirst
    ensures queryParams == QueryParams(Clauses(q))
    ensures Placeholders(query) == |queryParams|
    ensures |query| >= |NewestFirst| && query[|query| - |NewestFirst|..] == NewestFirst
    ensures queryParams[0] == StatusParam(q)
  {
    ghost var cs: seq<Clause> := [StatusIs(StatusParam(q))];
    QueryTextSnoc([], cs[0]);
    assert [] + cs == cs;
    query := SelectByStatus;
    queryParams := [StatusParam(q)];
    assert query == QueryText(cs);
    if HasType(q) {
      QueryTextSnoc(cs, KindIs(q["type"]));
      cs := cs + [KindIs(q["type"])];
      query := query + AndType;
      queryParams := queryParams + [q["type"]];
    }
    assert query == QueryText(cs);
    if HasBookId(q) {
      QueryTextSnoc(cs, BookIs(q["book_id"]));
      cs := cs + [BookIs(q["book_id"])];
      query := query + AndBookId;
      queryParams := queryParams + [q["book_id"]];
    }
    assert query == QueryText(cs);
    assert queryParams == QueryParams(cs);
    assert cs == Clauses(q);
    ListQueryPlaceholders(cs);
    query := query + NewestFirst;
  }

  /** The query text spelled out: the status condition, then the type, then the book. */
  lemma ListQueryText(q: map<string, string>)
    ensures QueryText(Clauses(q)) ==
      SelectByStatus + (if HasType(q) then AndType else "") + (if HasBookId(q) then AndBookId else "")
  {
    var head := [StatusIs(StatusParam(q))];
    QueryTextSnoc([], head[0]);
    assert [] + head == head;
    var withType := if HasType(q) then head + [KindIs(q["type"])] else head;
    var typeText := if HasType(q) then AndType else "";
    if HasType(q) {
      QueryTextSnoc(head, KindIs(q["type"]));
    }
    assert QueryText(withType) == SelectByStatus + typeText;
    if HasBookId(q) {
      QueryTextSnoc(withType, BookIs(q["book_id"]));
      assert Clauses(q) == withType + [BookIs(q["book_id"])];
    } else {
      assert Clauses(q) == withType;
    }
  }

  /** What a clause demands of a row, with its value cast the way the column type casts it. */
  predicate Holds(c: Clause, r: ReviewRow) {
    match c
    case StatusIs(s) => r.status == s
    case KindIs(k) => r.kind == k
    case BookIs(b) => ParseInt(b).Some? && r.bookId == ParseInt(b)
  }

  /** The rows the parameters select, stated directly on the parameters. */
  predicate Selected(q: map<string, string>, r: ReviewRow) {
    r.status == StatusParam(q) &&
    (HasType(q) ==> r.kind == q["type"]) &&
    (HasBookId(q) ==> ParseInt(q["book_id"]).Some? && r.bookId == ParseInt(q["book_id"]))
  }

  /** The built query selects exactly the rows `Selected` describes: every clause must hold. */
  lemma ClausesMeanSelected(q: map<string, string>, r: ReviewRow)
    ensures Selected(q, r) <==> forall k :: 0 <= k < |Clauses(q)| ==> Holds(Clauses(q)[k], r)
  {
    var cs := Clauses(q);
    if HasType(q) {
      assert cs[1] == KindIs(q["type"]);
    }
    if HasBookId(q) {
      assert cs[|cs| - 1] == BookIs(q["book_id"]);
    }
  }

  /** With no `status` parameter, only approved reviews are listed. */
  lemma ListDefaultsToApproved(q: map<string, string>)
    requires "status" !in q
    ensures Clauses(q)[0] == StatusIs(Approved)
  {
  }

  /** A `book_id` the integer column cannot compare with makes the query fail. */
  predicate BadBookId(q: map<string, string>) {
    HasBookId(q) && ParseInt(q["book_id"]).None?
  }

  /**
   * GET: the selected reviews, newest first. Only an uncastable `book_id` makes
   * the query fail.
   */
  function List(q: map<string, string>, reviews: seq<ReviewRow>): (r: Response)
    ensures BadBookId(q) ==> r == Fault
    ensures !BadBookId(q) ==> r.statusCode == 200 && r.body.Reviews?
    ensures !BadBookId(q) ==> forall x :: x in r.body.reviews <==> x in reviews && Selected(q, x)
    ensures !BadBookId(q) ==> IsSubsequence(Reverse(r.body.reviews), reviews)
  {
    if BadBookId(q) then Fault
    else
      var picked := Filter(reviews, (x: ReviewRow) => Selected(q, x));
      FilterIsSubsequence(reviews, (x: ReviewRow) => Selected(q, x));
      ReverseTwice(picked);
      forall x ensures x in Reverse(picked) <==> x in reviews && Selected(q, x) {
        ReverseMember(picked, x);
        FilterMember(reviews, (x: ReviewRow) => Selected(q, x), x);
      }
      Response(200, Reviews(Reverse(picked)))
  }

  // ---------------------------------------------------------------------------
  // POST

  /** The row a successful submission inserts: always `pending`, the rating stored as given. */
  function NewReview(id: int, kind: string, bookId: Option<int>, name: string, rating: Option<int>, content: string): ReviewRow {
    ReviewRow(id, kind, bookId, name, rating, content, Pending, None)
  }

  predicate KnownKind(v: Value) {
    v == Str("book") || v == Str("app")
  }

  /**
   * POST: `author_name` and `content` are stripped (failing on a non-string);
   * a falsy type, or an empty name or text after stripping, is a 400; then a type
   * other than 'book' or 'app' is a 400; otherwise one `pending` review is added
   * and its id returned with 201. `book_id` and `rating` go to their integer
   * columns unchecked, so only text that is not an integer makes the insert fail.
   */
  function Submit(body: map<string, Value>, db: Db): (out: (Response, Db))
    ensures out.0.statusCode != 201 ==> out.1 == db
    ensures StrippedField(body, "author_name").None? || StrippedField(body, "content").None? ==> out.0 == Fault
    ensures out.0.statusCode == 400 <==>
      StrippedField(body, "author_name").Some? && StrippedField(body, "content").Some? &&
      (!Truthy(Get(body, "type")) || StrippedField(body, "author_name").value == "" ||
       StrippedField(body, "content").value == "" || !KnownKind(Get(body, "type")))
    ensures out.0.statusCode == 400 ==>
      out.0.body == Error(if !Truthy(Get(body, "type")) || StrippedField(body, "author_name").value == "" ||
                             StrippedField(body, "content").value == "" then FillNameAndText else WrongKind)
    ensures out.0.statusCode == 201 <==>
      StrippedField(body, "author_name").Some? && StrippedField(body, "content").Some? &&
      StrippedField(body, "author_name").value != "" && StrippedField(body, "content").value != "" &&
      KnownKind(Get(body, "type")) &&
      IntColumn(Get(body, "book_id")).Some? && IntColumn(Get(body, "rating")).Some?
    ensures out.0.statusCode == 201 ==>
      out.0.body == Created(db.nextReviewId, SentToModeration) &&
      out.1 == db.(reviews := db.reviews + [NewReview(db.nextReviewId, Get(body, "type").s,
                                                      IntColumn(Get(body, "book_id")).value,
                                                      StrippedField(body, "author_name").value,
                                                      IntColumn(Get(body, "rating")).value,
                                                      StrippedField(body, "content").value)],
                   nextReviewId := db.nextReviewId + 1)
    ensures out.0.statusCode in {201, 400} || out.0 == Fault
  {
    var kind := Get(body, "type");
    var name := StrippedField(body, "author_name");
    var content := StrippedField(body, "content");
    var bookId := IntColumn(Get(body, "book_id"));
    var rating := IntColumn(Get(body, "rating"));
    if name.None? || content.None? then (Fault, db)
    else if !Truthy(kind) || name.value == "" || content.value == "" then (Response(400, Error(FillNameAndText)), db)
    else if !KnownKind(kind) then (Response(400, Error(WrongKind)), db)
    else if bookId.None? || rating.None? then (Fault, db)
    else
      var row := NewReview(db.nextReviewId, kind.s, bookId.value, name.value, rating.value, content.value);
      (Response(201, Created(row.id, SentToModeration)),
       db.(reviews := db.reviews + [row], nextReviewId := db.nextReviewId + 1))
  }

  /**
   * The required-field check runs before the type check: a missing or blank name
   * or text, or a falsy type, reads as a missing field whatever the type says.
   */
  lemma RequiredBeforeKind(body: map<string, Value>, db: Db)
    requires StrippedField(body, "author_name").Some? && StrippedField(body, "content").Some?
    requires !Truthy(Get(body, "type")) || StrippedField(body, "author_name").value == "" ||
             StrippedField(body, "content").value == ""
    ensures Submit(body, db) == (Response(400, Error(FillNameAndText)), db)
  {
  }

  /**
   * A stored review is what was sent: the type, the stripped name and text, the
   * book id and the rating as given (no range check), always `pending`, with the
   * next id and no update time.
   */
  lemma SubmitStoresPending(body: map<string, Value>, db: Db)
    requires Get(body, "author_name").Str? && Strip(Get(body, "author_name").s) != ""
    requires Get(body, "content").Str? && Strip(Get(body, "content").s) != ""
    requires KnownKind(Get(body, "type"))
    requires IntColumn(Get(body, "book_id")).Some? && IntColumn(Get(body, "rating")).Some?
    ensures Submit(body, db).0 == Response(201, Created(db.nextReviewId, SentToModeration))
    ensures |Submit(body, db).1.reviews| == |db.reviews| + 1
    ensures var row := Submit(body, db).1.reviews[|db.reviews|];
      row.id == db.nextReviewId && row.status == Pending && row.updatedAt.None? &&
      Str(row.kind) == Get(body, "type") &&
      row.authorName == Strip(Get(body, "author_name").s) && row.content == Strip(Get(body, "content").s) &&
      Some(row.bookId) == IntColumn(Get(body, "book_id")) && Some(row.rating) == IntColumn(Get(body, "rating")) &&
      (Get(body, "rating").Int? ==> row.rating == Some(Get(body, "rating").i))
  {
  }

  /** A review made only of whitespace is refused like an empty one. */
  lemma BlankReviewRefused(body: map<string, Value>, db: Db, text: string)
    requires Get(body, "content") == Str(text) && AllSpace(text)
    requires StrippedField(body, "author_name").Some?
    ensures Submit(body, db) == (Response(400, Error(FillNameAndText)), db)
  {
    StripEmptyIff(text);
  }

  // ---------------------------------------------------------------------------
  // PUT

  /** The review with `id` gets `status` and the update time; every other row is left as it was. */
  function Restatus(reviews: seq<ReviewRow>, id: int, status: string, now: int): (r: seq<ReviewRow>)
    ensures |r| == |reviews|
    ensures forall k :: 0 <= k < |reviews| && reviews[k].id != id ==> r[k] == reviews[k]
    ensures forall k :: 0 <= k < |reviews| && reviews[k].id == id ==>
      r[k] == reviews[k].(status := status, updatedAt := Some(now))
  {
    UpdateReview(reviews, id, (x: ReviewRow) => x.(status := status, updatedAt := Some(now)))
  }

  /**
   * PUT: a falsy id or status is a 400. Otherwise the status is set to exactly
   * the value given (there is no list of allowed statuses) and 200 is returned,
   * whether or not a review has that id. An id that is not an integer makes the
   * update fail.
   */
  function SetStatus(body: map<string, Value>, db: Db, now: int): (out: (Response, Db))
    ensures !Truthy(Get(body, "id")) || !Truthy(Get(body, "status")) ==>
      out == (Response(400, Error(FillIdAndStatus)), db)
    ensures Truthy(Get(body, "id")) && Truthy(Get(body, "status")) ==>
      (IdOf(Get(body, "id")).None? ==> out == (Fault, db)) &&
      (IdOf(Get(body, "id")).Some? ==>
        out.0 == Response(200, Message(StatusUpdated)) &&
        out.1 == db.(reviews := Restatus(db.reviews, IdOf(Get(body, "id")).value,
                                         TextColumn(Get(body, "status")).value, now)))
  {
    var id := Get(body, "id");
    var status := Get(body, "status");
    if !Truthy(id) || !Truthy(status) then (Response(400, Error(FillIdAndStatus)), db)
    else
      match IdOf(id)
      case None => (Fault, db)
      case Some(n) => (Response(200, Message(StatusUpdated)), db.(reviews := Restatus(db.reviews, n, TextColumn(status).value, now)))
  }

  /** Any status string is accepted and stored verbatim. */
  lemma AnyStatusStored(db: Db, id: int, status: string, now: int, k: nat)
    requires id != 0 && status != "" && k < |db.reviews| && db.reviews[k].id == id
    ensures var out := SetStatus(map["id" := Int(id), "status" := Str(status)], db, now);
      out.0.statusCode == 200 && out.1.reviews[k].status == status
  {
    var body := map["id" := Int(id), "status" := Str(status)];
    assert Get(body, "id") == Int(id) && Get(body, "status") == Str(status);
  }

  lemma SubmitPreservesValid(body: map<string, Value>, db: Db)
    requires Valid(db)
    ensures Valid(Submit(body, db).1)
  {
    if Submit(body, db).0.statusCode == 201 {
      AppendReviewKeepsValid(db, NewReview(db.nextReviewId, Get(body, "type").s,
                                           IntColumn(Get(body, "book_id")).value,
                                           StrippedField(body, "author_name").value,
                                           IntColumn(Get(body, "rating")).value,
                                           StrippedField(body, "content").value));
    }
  }

  lemma SetStatusPreservesValid(body: map<string, Value>, db: Db, now: int)
    requires Valid(db)
    ensures Valid(SetStatus(body, db, now).1)
  {
    var out := SetStatus(body, db, now).1;
    assert forall k :: 0 <= k < |db.reviews| ==> out.reviews[k].id == db.reviews[k].id;
    SameIdsKeepValid(db, out);
  }

  /** Every handler call keeps ids unique and below the next id. */
  lemma HandlePreservesValid(e: Event, db: Db, now: int)
    requires Valid(db)
    ensures Valid(Handle(e, db, now).1)
  {
    var verb := MethodOf(e);
    if verb == "POST" {
      SubmitPreservesValid(e.body, db);
    } else if verb == "PUT" {
      SetStatusPreservesValid(e.body, db, now);
    }
  }
}
