/**
 * The database the handlers use, as in-memory tables. Each table is a sequence of
 * rows in insertion order; rows are stamped `created_at` when inserted, so
 * `ORDER BY created_at DESC` lists them newest first, which is the reverse of
 * insertion order. `nextBookId` and `nextReviewId` stand for the SERIAL ids.
 */
module Tables {
  import opened Values

  datatype BookRow = BookRow(
    id: int,
    title: string,
    author: string,
    genre: string,
    year: Option<int>,
    description: string,
    content: string,
    coverUrl: string,
    deletedAt: Option<int>)

  /** The columns the public book list selects: everything but the text and the deletion stamp. */
  datatype BookSummary = BookSummary(
    id: int,
    title: string,
    author: string,
    genre: string,
    year: Option<int>,
    description: string,
    coverUrl: string)

  function Summary(b: BookRow): BookSummary {
    BookSummary(b.id, b.title, b.author, b.genre, b.year, b.description, b.coverUrl)
  }

  /** A review; `kind` is the `type` column. */
  datatype ReviewRow = ReviewRow(
    id: int,
    kind: string,
    bookId: Option<int>,
    authorName: string,
    rating: Option<int>,
    content: string,
    status: string,
    updatedAt: Option<int>)

  /** A row of `admin_sessions`. */
  datatype Session = Session(token: string, expiresAt: int)

  datatype Db = Db(
    books: seq<BookRow>,
    reviews: seq<ReviewRow>,
    sessions: seq<Session>,
    nextBookId: int,
    nextReviewId: int)

  /** Row ids are unique within each table and below the next id to be issued. */
  predicate Valid(db: Db) {
    (forall i, j :: 0 <= i < j < |db.books| ==> db.books[i].id != db.books[j].id) &&
    (forall i :: 0 <= i < |db.books| ==> db.books[i].id < db.nextBookId) &&
    (forall i, j :: 0 <= i < j < |db.reviews| ==> db.reviews[i].id != db.reviews[j].id) &&
    (forall i :: 0 <= i < |db.reviews| ==> db.reviews[i].id < db.nextReviewId)
  }

  /** `SELECT * FROM books WHERE id = %s` with `fetchone()`. */
  function FindBook(rows: seq<BookRow>, id: int): (r: Option<BookRow>)
    ensures r.Some? ==> r.value in rows && r.value.id == id
    ensures r.None? ==> forall k :: 0 <= k < |rows| ==> rows[k].id != id
  {
    if rows == [] then None
    else if rows[0].id == id then Some(rows[0])
    else FindBook(rows[1..], id)
  }

  /** `UPDATE reviews SET ... WHERE id = %s`: `change` applied to every row with that id. */
  function UpdateReview(rows: seq<ReviewRow>, id: int, change: ReviewRow -> ReviewRow): seq<ReviewRow> {
    seq(|rows|, k requires 0 <= k < |rows| => if rows[k].id == id then change(rows[k]) else rows[k])
  }

  /** `UPDATE books SET ... WHERE id = %s`. */
  function UpdateBook(rows: seq<BookRow>, id: int, change: BookRow -> BookRow): seq<BookRow> {
    seq(|rows|, k requires 0 <= k < |rows| => if rows[k].id == id then change(rows[k]) else rows[k])
  }

  /** Inserting a row that takes the next id keeps the books table valid. */
  lemma AppendBookKeepsValid(db: Db, row: BookRow)
    requires Valid(db) && row.id == db.nextBookId
    ensures Valid(db.(books := db.books + [row], nextBookId := db.nextBookId + 1))
  {
    var books := db.books + [row];
    forall i, j | 0 <= i < j < |books| ensures books[i].id != books[j].id {
      if j == |db.books| {
        assert books[i] == db.books[i];
      }
    }
  }

  /** Inserting a row that takes the next id keeps the reviews table valid. */
  lemma AppendReviewKeepsValid(db: Db, row: ReviewRow)
    requires Valid(db) && row.id == db.nextReviewId
    ensures Valid(db.(reviews := db.reviews + [row], nextReviewId := db.nextReviewId + 1))
  {
    var reviews := db.reviews + [row];
    forall i, j | 0 <= i < j < |reviews| ensures reviews[i].id != reviews[j].id {
      if j == |db.reviews| {
        assert reviews[i] == db.reviews[i];
      }
    }
  }

  /** Two databases whose rows carry the same ids, position by position. */
  predicate SameIds(db: Db, db': Db) {
    |db'.books| == |db.books| && |db'.reviews| == |db.reviews| &&
    db'.nextBookId == db.nextBookId && db'.nextReviewId == db.nextReviewId &&
    (forall k :: 0 <= k < |db.books| ==> db'.books[k].id == db.books[k].id) &&
    (forall k :: 0 <= k < |db.reviews| ==> db'.reviews[k].id == db.reviews[k].id)
  }

  /** An update that changes no id keeps the tables valid. */
  lemma SameIdsKeepValid(db: Db, db': Db)
    requires Valid(db) && SameIds(db, db')
    ensures Valid(db')
  {
  }
}
