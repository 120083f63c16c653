/**
 * The books endpoint (backend/books/index.py): read one book, list the catalogue,
 * add a book.
 */
module BooksApi {
  import opened Values
  import opened Seqs
  import opened Tables
  import opened Http

  const NoGenre := "Без жанра"
  const BookNotFound := "Книга не найдена"
  const FillRequired := "Необходимо заполнить название, автора и текст книги"
  const BookAdded := "Книга успешно добавлена"

  /** The handler: OPTIONS, GET and POST are served, every other method gets 405. */
  function Handle(e: Event, db: Db): (out: (Response, Db))
    ensures MethodOf(e) == "OPTIONS" ==> out == (Preflight, db)
    ensures MethodOf(e) == "GET" ==> out == (Read(e.queryStringParameters, db.books), db)
    ensures MethodOf(e) == "POST" ==> out == Add(e.body, db)
    ensures MethodOf(e) !in {"OPTIONS", "GET", "POST"} ==>
      out == (Response(405, Error(MethodNotAllowed)), db)
    ensures MethodOf(e) != "POST" ==> out.1 == db
    ensures out.1.reviews == db.reviews && out.1.sessions == db.sessions
  {
    var verb := MethodOf(e);
    if verb == "OPTIONS" then (Preflight, db)
    else if verb == "GET" then (Read(e.queryStringParameters, db.books), db)
    else if verb == "POST" then Add(e.body, db)
    else (Response(405, Error(MethodNotAllowed)), db)
  }

  // ---------------------------------------------------------------------------
  // GET

  /** A truthy `id` query parameter: present and not empty. */
  predicate AsksForOne(q: map<string, string>) {
    "id" in q && q["id"] != ""
  }

  /** The public list: newest first, every column but `content` (and the deletion stamp). */
  function Listing(books: seq<BookRow>): (r: seq<BookSummary>)
    ensures |r| == |books|
    ensures forall k :: 0 <= k < |books| ==> r[k] == Summary(books[|books| - 1 - k])
  {
    var newest := Reverse(books);
    seq(|newest|, k requires 0 <= k < |newest| => Summary(newest[k]))
  }

  /**
   * GET: with an `id`, the book with that id (200) or 404; without one, the list
   * of all books without their text. An `id` the database cannot read as an
   * integer makes the query fail (500).
   */
  function Read(q: map<string, string>, books: seq<BookRow>): (r: Response)
    ensures AsksForOne(q) && ParseInt(q["id"]).Some? ==>
      var id := ParseInt(q["id"]).value;
      (r.statusCode == 200 <==> exists k :: 0 <= k < |books| && books[k].id == id) &&
      (r.statusCode == 200 ==> r.body.OneBook? && r.body.book in books && r.body.book.id == id) &&
      (r.statusCode != 200 ==> r == Response(404, Error(BookNotFound)))
    ensures AsksForOne(q) && ParseInt(q["id"]).None? ==> r == Fault
    ensures !AsksForOne(q) ==> (
      r.statusCode == 200 && r.body.BookSummaries? &&
      |r.body.summaries| == |books| &&
      forall k :: 0 <= k < |books| ==> r.body.summaries[k] == Summary(books[|books| - 1 - k]))
  {
    if AsksForOne(q) then
      match ParseInt(q["id"])
      case None => Fault
      case Some(id) =>
        match FindBook(books, id)
        case Some(b) => Response(200, OneBook(b))
        case None => Response(404, Error(BookNotFound))
    else Response(200, BookSummaries(Listing(books)))
  }

  /** The list does not look at `deleted_at`: a soft-deleted book is still listed. */
  lemma ListingKeepsDeleted(books: seq<BookRow>, b: BookRow)
    requires b in books && b.deletedAt.Some?
    ensures Summary(b) in Read(map[], books).body.summaries
  {
    var k :| 0 <= k < |books| && books[k] == b;
    assert Read(map[], books).body.summaries[|books| - 1 - k] == Summary(b);
  }

  // ---------------------------------------------------------------------------
  // POST

  /** The text fields of a POST body after `.strip()`. */
  datatype NewBook = NewBook(
    title: string,
    author: string,
    genre: string,
    description: string,
    content: string,
    coverUrl: string)

  /** Reads and strips the six text fields; None when one of them is present but not a string. */
  function StrippedBook(body: map<string, Value>): (r: Option<NewBook>)
    ensures r.None? <==> exists key :: key in ["title", "author", "genre", "description", "content", "cover_url"] &&
                                       key in body && !body[key].Str?
  {
    var title := StrippedField(body, "title");
    var author := StrippedField(body, "author");
    var genre := StrippedField(body, "genre");
    var description := StrippedField(body, "description");
    var content := StrippedField(body, "content");
    var coverUrl := StrippedField(body, "cover_url");
    if title.None? || author.None? || genre.None? || description.None? || content.None? || coverUrl.None? then None
    else Some(NewBook(title.value, author.value, genre.value, description.value, content.value, coverUrl.value))
  }

  /** `genre or 'Без жанра'`: the stored genre is never empty. */
  function StoredGenre(genre: string): (r: string)
    ensures r != ""
    ensures genre != "" ==> r == genre
    ensures genre == "" ==> r == NoGenre
  {
    if genre == "" then NoGenre else genre
  }

  predicate MissingRequired(b: NewBook) {
    b.title == "" || b.author == "" || b.content == ""
  }

  /** The row a successful POST inserts: the stripped fields, the genre defaulted, not deleted. */
  function NewRow(id: int, fields: NewBook, year: Option<int>): BookRow {
    BookRow(id, fields.title, fields.author, StoredGenre(fields.genre), year,
            fields.description, fields.content, fields.coverUrl, None)
  }

  /**
   * POST: strip the fields; an empty title, author or text after stripping is a
   * 400 and nothing is stored; otherwise one row is added and its id returned with
   * 201. A field of the wrong type, or a `year` the database cannot read as an
   * integer, makes the handler fail (500) with nothing stored.
   */
  function Add(body: map<string, Value>, db: Db): (out: (Response, Db))
    ensures out.0.statusCode == 201 || out.0.statusCode == 400 || out.0 == Fault
    ensures out.0.statusCode != 201 ==> out.1 == db
    ensures out.0.statusCode == 400 <==> StrippedBook(body).Some? && MissingRequired(StrippedBook(body).value)
    ensures out.0.statusCode == 400 ==> out.0.body == Error(FillRequired)
    ensures out.0.statusCode == 201 <==>
      StrippedBook(body).Some? && !MissingRequired(StrippedBook(body).value) && IntColumn(Get(body, "year")).Some?
    ensures out.0.statusCode == 201 ==>
      out.0.body == Created(db.nextBookId, BookAdded) &&
      out.1 == db.(books := db.books + [NewRow(db.nextBookId, StrippedBook(body).value, IntColumn(Get(body, "year")).value)],
                   nextBookId := db.nextBookId + 1)
  {
    match StrippedBook(body)
    case None => (Fault, db)
    case Some(fields) =>
      if MissingRequired(fields) then (Response(400, Error(FillRequired)), db)
      else
        match IntColumn(Get(body, "year"))
        case None => (Fault, db)
        case Some(year) =>
          (Response(201, Created(db.nextBookId, BookAdded)),
           db.(books := db.books + [NewRow(db.nextBookId, fields, year)], nextBookId := db.nextBookId + 1))
  }

  /**
   * Every text field is stored stripped, so surrounding whitespace never reaches
   * the table; the row gets the next id and no deletion stamp.
   */
  lemma AddStoresStripped(body: map<string, Value>, db: Db)
    requires StrippedBook(body).Some? && !MissingRequired(StrippedBook(body).value)
    requires IntColumn(Get(body, "year")).Some?
    ensures |Add(body, db).1.books| == |db.books| + 1
    ensures var row := Add(body, db).1.books[|db.books|];
      "title" in body && body["title"].Str? && row.title == Strip(body["title"].s) &&
      "author" in body && body["author"].Str? && row.author == Strip(body["author"].s) &&
      "content" in body && body["content"].Str? && row.content == Strip(body["content"].s) &&
      (("genre" in body && body["genre"].Str? && Strip(body["genre"].s) != "") ==> row.genre == Strip(body["genre"].s)) &&
      (("genre" !in body || (body["genre"].Str? && Strip(body["genre"].s) == "")) ==> row.genre == NoGenre) &&
      ("description" in body ==> body["description"].Str? && row.description == Strip(body["description"].s)) &&
      ("description" !in body ==> row.description == "") &&
      ("cover_url" in body ==> body["cover_url"].Str? && row.coverUrl == Strip(body["cover_url"].s)) &&
      ("cover_url" !in body ==> row.coverUrl == "") &&
      row.id == db.nextBookId && row.deletedAt.None?
  {
  }

  /** Adding a book keeps ids unique and below the next id. */
  lemma AddPreservesValid(body: map<string, Value>, db: Db)
    requires Valid(db)
    ensures Valid(Add(body, db).1)
  {
    if Add(body, db).0.statusCode == 201 {
      AppendBookKeepsValid(db, NewRow(db.nextBookId, StrippedBook(body).value, IntColumn(Get(body, "year")).value));
    }
  }

  /** The handler keeps ids unique and below the next id. */
  lemma HandlePreservesValid(e: Event, db: Db)
    requires Valid(db)
    ensures Valid(Handle(e, db).1)
  {
    if MethodOf(e) == "POST" {
      AddPreservesValid(e.body, db);
    }
  }
}
