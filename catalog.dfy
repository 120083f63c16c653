/**
 * The catalog page (src/pages/Index.tsx): the sample book list, the derived genre
 * list, the search/genre/bookmark filter, the per-genre and bookmarks views and
 * the bookmark toggle.
 *
 * `toLowerCase` is a parameter `lower` of every function that uses it: Unicode
 * case mapping is not modelled, so the results hold for any lowering function.
 */
module Catalog {
  import opened Values
  import opened Seqs

  datatype Book = Book(
    id: string,
    title: string,
    author: string,
    genre: string,
    year: int,
    description: string,
    coverUrl: Option<string>)

  /** `SAMPLE_BOOKS`; the descriptions are the constants below. */
  const SampleBooks: seq<Book> := [
    Book("1", "Мастер и Маргарита", "Михаил Булгаков", "Классика", 1967, About1, None),
    Book("2", "Преступление и наказание", "Фёдор Достоевский", "Классика", 1866, About2, None),
    Book("3", "Война и мир", "Лев Толстой", "Классика", 1869, About3, None),
    Book("4", "1984", "Джордж Оруэлл", "Фантастика", 1949, About4, None),
    Book("5", "Гарри Поттер и философский камень", "Дж. К. Роулинг", "Фэнтези", 1997, About5, None),
    Book("6", "Убить пересмешника", "Харпер Ли", "Драма", 1960, About6, None),
    Book("7", "Граф Монте-Кристо", "Александр Дюма", "Приключения", 1844, About7, None),
    Book("8", "Анна Каренина", "Лев Толстой", "Классика", 1877, About8, None)
  ]

  const About1 := "Роман о дьяволе, который приезжает в Москву 1930-х годов вместе со свитой. Произведение переплетает две линии повествования: московскую современность и древний Ершалаим."
  const About2 := "Психологический роман о студенте Родионе Раскольникове, который решается на убийство старухи-процентщицы. История о муках совести и искуплении."
  const About3 := "Эпопея о русском обществе в эпоху войн против Наполеона. Переплетение судеб аристократических семей на фоне исторических событий."
  const About4 := "Антиутопия о тоталитарном обществе будущего, где правит Большой Брат и контролируется каждый шаг граждан. Роман-предупреждение о диктатуре."
  const About5 := "Первая книга о мальчике-волшебнике, который узнаёт о своём магическом наследии и поступает в школу чародейства и волшебства Хогвартс."
  const About6 := "История о расовой несправедливости в американском городке, рассказанная глазами маленькой девочки. Классика о морали и человечности."
  const About7 := "Захватывающая история о моряке Эдмоне Дантесе, который был предан друзьями и провёл годы в тюрьме, а затем вернулся, чтобы отомстить."
  const About8 := "Роман о трагической любви замужней женщины и офицера, на фоне картины русского общества второй половины XIX века."

  /** The page's state: the active tab, the search text, the selected genre (None: all) and the bookmarks. */
  datatype PageState = PageState(
    activeTab: string,
    searchQuery: string,
    selectedGenre: Option<string>,
    bookmarks: set<string>)

  const BookmarksTab := "bookmarks"

  // ---------------------------------------------------------------------------
  // Genres

  /** `books.map(book => book.genre)`. */
  function GenresOf(books: seq<Book>): (r: seq<string>)
    ensures |r| == |books| && forall k :: 0 <= k < |books| ==> r[k] == books[k].genre
  {
    if books == [] then [] else [books[0].genre] + GenresOf(books[1..])
  }

  /** `Array.from(new Set(books.map(book => book.genre)))`. */
  function DistinctGenres(books: seq<Book>): seq<string> {
    Distinct(GenresOf(books))
  }

  /** ALL_GENRES: the genres of the sample books, each once, in order of first appearance. */
  function AllGenres(): seq<string> {
    DistinctGenres(SampleBooks)
  }

  /** Every genre of the list appears exactly once, ordered by where it first occurs. */
  lemma DistinctGenresSpec(books: seq<Book>)
    ensures NoDuplicates(DistinctGenres(books))
    ensures forall b :: b in books ==> b.genre in DistinctGenres(books)
    ensures forall g :: g in DistinctGenres(books) ==> exists b :: b in books && b.genre == g
    ensures forall i, j :: 0 <= i < j < |DistinctGenres(books)| ==>
      DistinctGenres(books)[i] in GenresOf(books) && DistinctGenres(books)[j] in GenresOf(books) &&
      FirstIndex(GenresOf(books), DistinctGenres(books)[i]) < FirstIndex(GenresOf(books), DistinctGenres(books)[j])
  {
    var gs := GenresOf(books);
    var r := DistinctGenres(books);
    DistinctSpec(gs);
    DistinctFirstAppearance(gs);
    forall g | g in r ensures exists b :: b in books && b.genre == g {
      var k :| 0 <= k < |gs| && gs[k] == g;
      assert books[k] in books;
    }
    forall b | b in books ensures b.genre in r {
      var k :| 0 <= k < |books| && books[k] == b;
      assert gs[k] == b.genre;
    }
  }

  /** The genres of a list, spelled out position by position. */
  lemma GenresOfEight(books: seq<Book>)
    requires |books| == 8
    ensures GenresOf(books) == [books[0].genre, books[1].genre, books[2].genre, books[3].genre,
                                books[4].genre, books[5].genre, books[6].genre, books[7].genre]
  {
    var gs := GenresOf(books);
    assert forall k :: 0 <= k < 8 ==> gs[k] == books[k].genre;
  }

  lemma SampleGenres()
    ensures GenresOf(SampleBooks) ==
      ["Классика", "Классика", "Классика", "Фантастика", "Фэнтези", "Драма", "Приключения", "Классика"]
  {
    GenresOfEight(SampleBooks);
  }

  lemma ThreeSame<T>(c: T)
    ensures Distinct([c, c, c]) == [c]
  {
    DistinctStep([c], c);
    assert [c] + [c] == [c, c];
    DistinctStep([c, c], c);
    assert [c, c] + [c] == [c, c, c];
  }

  lemma ThreeSameThenTwoNew<T>(c: T, f: T, fy: T)
    requires c != f && c != fy && f != fy
    ensures Distinct([c, c, c, f, fy]) == [c, f, fy]
  {
    ThreeSame(c);
    DistinctStep([c, c, c], f);
    assert [c, c, c] + [f] == [c, c, c, f];
    DistinctStep([c, c, c, f], fy);
    assert [c, c, c, f] + [fy] == [c, c, c, f, fy];
  }

  lemma FiveValuesInSampleOrder<T>(c: T, f: T, fy: T, d: T, p: T)
    requires c != f && c != fy && c != d && c != p && f != fy && f != d && f != p && fy != d && fy != p && d != p
    ensures Distinct([c, c, c, f, fy, d, p, c]) == [c, f, fy, d, p]
  {
    ThreeSameThenTwoNew(c, f, fy);
    DistinctStep([c, c, c, f, fy], d);
    assert [c, c, c, f, fy] + [d] == [c, c, c, f, fy, d];
    DistinctStep([c, c, c, f, fy, d], p);
    assert [c, c, c, f, fy, d] + [p] == [c, c, c, f, fy, d, p];
    DistinctStep([c, c, c, f, fy, d, p], c);
    assert [c, c, c, f, fy, d, p] + [c] == [c, c, c, f, fy, d, p, c];
  }

  /** For the sample data the genre list is the five genres in order of first appearance. */
  lemma AllGenresValue()
    ensures AllGenres() == ["Классика", "Фантастика", "Фэнтези", "Драма", "Приключения"]
  {
    SampleGenres();
    FiveValuesInSampleOrder("Классика", "Фантастика", "Фэнтези", "Драма", "Приключения");
  }

  // ---------------------------------------------------------------------------
  // The catalog filter

  /** `searchQuery === ''` or the lowered query occurs in the lowered title, author or description. */
  predicate MatchesSearch(book: Book, query: string, lower: string -> string) {
    query == "" ||
    Includes(lower(book.title), lower(query)) ||
    Includes(lower(book.author), lower(query)) ||
    Includes(lower(book.description), lower(query))
  }

  /** `selectedGenre === null || book.genre === selectedGenre`. */
  predicate MatchesGenre(book: Book, selected: Option<string>) {
    selected.None? || book.genre == selected.value
  }

  /** `activeTab !== 'bookmarks' || bookmarks.has(book.id)`. */
  predicate MatchesBookmark(book: Book, activeTab: string, bookmarks: set<string>) {
    activeTab != BookmarksTab || book.id in bookmarks
  }

  predicate Shown(book: Book, page: PageState, lower: string -> string) {
    MatchesSearch(book, page.searchQuery, lower) &&
    MatchesGenre(book, page.selectedGenre) &&
    MatchesBookmark(book, page.activeTab, page.bookmarks)
  }

  /** `filteredBooks`: the books that pass all three tests, in list order. */
  function FilteredBooks(books: seq<Book>, page: PageState, lower: string -> string): (r: seq<Book>)
    ensures |r| <= |books|
    ensures forall k :: 0 <= k < |r| ==> Shown(r[k], page, lower)
  {
    Filter(books, b => Shown(b, page, lower))
  }

  /**
   * The result is an order-preserving subsequence of the list; a book that passes
   * occurs as often as in the list, one that fails does not occur.
   */
  lemma FilteredIsOrderedSelection(books: seq<Book>, page: PageState, lower: string -> string)
    ensures IsSubsequence(FilteredBooks(books, page, lower), books)
    ensures forall b :: multiset(FilteredBooks(books, page, lower))[b] ==
                        (if Shown(b, page, lower) then multiset(books)[b] else 0)
  {
    FilterIsSubsequence(books, b => Shown(b, page, lower));
    forall b ensures multiset(FilteredBooks(books, page, lower))[b] ==
      if Shown(b, page, lower) then multiset(books)[b] else 0
    {
      FilterCount(books, b => Shown(b, page, lower), b);
    }
  }

  /** A book is shown exactly when it is in the list and passes all three tests. */
  lemma FilteredMember(books: seq<Book>, page: PageState, lower: string -> string, b: Book)
    ensures b in FilteredBooks(books, page, lower) <==>
      b in books &&
      MatchesSearch(b, page.searchQuery, lower) &&
      MatchesGenre(b, page.selectedGenre) &&
      MatchesBookmark(b, page.activeTab, page.bookmarks)
  {
    FilterMember(books, b => Shown(b, page, lower), b);
  }

  /** No query, no genre and a tab other than bookmarks: every book is shown. */
  lemma FilterIdentity(books: seq<Book>, page: PageState, lower: string -> string)
    requires page.searchQuery == "" && page.selectedGenre.None? && page.activeTab != BookmarksTab
    ensures FilteredBooks(books, page, lower) == books
  {
    FilterAll(books, b => Shown(b, page, lower));
  }

  /**
   * The text test: a book passes exactly when the query is empty or the lowered
   * query occurs at some position of its lowered title, author or description.
   */
  lemma SearchMatchIff(book: Book, query: string, lower: string -> string)
    ensures MatchesSearch(book, query, lower) <==>
      query == "" ||
      (exists i :: OccursAt(lower(book.title), lower(query), i)) ||
      (exists i :: OccursAt(lower(book.author), lower(query), i)) ||
      (exists i :: OccursAt(lower(book.description), lower(query), i))
  {
    IncludesIff(lower(book.title), lower(query));
    IncludesIff(lower(book.author), lower(query));
    IncludesIff(lower(book.description), lower(query));
  }

  /**
   * With a genre selected, every shown book has exactly that genre, and every book
   * of that genre that passes the other two tests is shown.
   */
  lemma GenreSelection(books: seq<Book>, page: PageState, lower: string -> string, g: string)
    requires page.selectedGenre == Some(g)
    ensures forall b :: b in FilteredBooks(books, page, lower) ==> b.genre == g
    ensures forall b ::
              (b in books && b.genre == g &&
               MatchesSearch(b, page.searchQuery, lower) && MatchesBookmark(b, page.activeTab, page.bookmarks))
              ==> b in FilteredBooks(books, page, lower)
  {
    forall b | b in books || b in FilteredBooks(books, page, lower)
      ensures b in FilteredBooks(books, page, lower) <==> b in books && Shown(b, page, lower)
    {
      FilterMember(books, b => Shown(b, page, lower), b);
    }
  }

  /** On the bookmarks tab with no bookmarks nothing is shown, whatever the query and genre. */
  lemma NoBookmarksShowsNothing(books: seq<Book>, page: PageState, lower: string -> string)
    requires page.activeTab == BookmarksTab && page.bookmarks == {}
    ensures FilteredBooks(books, page, lower) == []
  {
    FilterNone(books, b => Shown(b, page, lower));
  }

  /** The example: selecting the science-fiction genre on the sample list shows only "1984". */
  lemma SampleGenreExample(lower: string -> string)
    ensures FilteredBooks(SampleBooks, PageState("catalog", "", Some("Фантастика"), {}), lower) == [SampleBooks[3]]
  {
    var page := PageState("catalog", "", Some("Фантастика"), {});
    var keep := b => Shown(b, page, lower);
    var books := SampleBooks;
    SampleGenres();
    assert forall k :: 0 <= k < |books| ==> books[k].genre == GenresOf(books)[k];
    FilterSingle(books, keep, 3);
  }

  // ---------------------------------------------------------------------------
  // The genres view and the bookmarks view

  /** `SAMPLE_BOOKS.filter(b => b.genre === genre)`: the books counted on a genre card. */
  function GenreBooks(books: seq<Book>, genre: string): seq<Book> {
    Filter(books, (b: Book) => b.genre == genre)
  }

  /**
   * Clicking a genre card selects the genre and opens the catalog but keeps the
   * search text: the catalog then shows the card's books that match the search,
   * and exactly the books the card counted when the search is empty.
   */
  lemma GenreCardMatchesCatalog(books: seq<Book>, genre: string, query: string, bookmarks: set<string>,
                                lower: string -> string)
    ensures FilteredBooks(books, PageState("catalog", query, Some(genre), bookmarks), lower) ==
      Filter(GenreBooks(books, genre), b => MatchesSearch(b, query, lower))
    ensures query == "" ==>
      FilteredBooks(books, PageState("catalog", query, Some(genre), bookmarks), lower) == GenreBooks(books, genre)
  {
    var page := PageState("catalog", query, Some(genre), bookmarks);
    FilterTwice(books, (b: Book) => b.genre == genre, b => MatchesSearch(b, query, lower), b => Shown(b, page, lower));
    if query == "" {
      FilterAll(GenreBooks(books, genre), b => MatchesSearch(b, query, lower));
    }
  }

  /** The number of books with genre `g`. */
  function GenreCount(books: seq<Book>, g: string): nat {
    |GenreBooks(books, g)|
  }

  function SumCounts(books: seq<Book>, genres: seq<string>): nat {
    if genres == [] then 0 else GenreCount(books, genres[0]) + SumCounts(books, genres[1..])
  }

  lemma GenreCountAppend(books: seq<Book>, b: Book, g: string)
    ensures GenreCount(books + [b], g) == GenreCount(books, g) + (if b.genre == g then 1 else 0)
  {
    FilterAppend(books, [b], (x: Book) => x.genre == g);
  }

  lemma {:induction false} GenreCountAbsent(books: seq<Book>, g: string)
    requires g !in GenresOf(books)
    ensures GenreCount(books, g) == 0
  {
    if books != [] {
      assert GenresOf(books)[0] == books[0].genre;
      assert GenresOf(books[1..]) == GenresOf(books)[1..];
      GenreCountAbsent(books[1..], g);
    }
  }

  lemma {:induction false} SumCountsAppendBook(books: seq<Book>, b: Book, genres: seq<string>)
    ensures SumCounts(books + [b], genres) ==
      SumCounts(books, genres) + multiset(genres)[b.genre]
  {
    if genres != [] {
      GenreCountAppend(books, b, genres[0]);
      SumCountsAppendBook(books, b, genres[1..]);
      assert genres == [genres[0]] + genres[1..];
      assert multiset(genres) == multiset([genres[0]]) + multiset(genres[1..]);
    }
  }

  lemma {:induction false} SumCountsAppendGenre(books: seq<Book>, genres: seq<string>, g: string)
    ensures SumCounts(books, genres + [g]) == SumCounts(books, genres) + GenreCount(books, g)
  {
    if genres != [] {
      assert (genres + [g])[1..] == genres[1..] + [g];
      SumCountsAppendGenre(books, genres[1..], g);
    }
  }

  lemma DistinctCountsOnce(xs: seq<string>, g: string)
    requires NoDuplicates(xs) && g in xs
    ensures multiset(xs)[g] == 1
  {
    var k :| 0 <= k < |xs| && xs[k] == g;
    assert xs == xs[..k] + [g] + xs[k + 1..];
    assert g !in xs[..k];
    assert g !in xs[k + 1..];
    assert multiset(xs) == multiset(xs[..k]) + multiset([g]) + multiset(xs[k + 1..]);
  }

  /** The genre cards together count every book once: the counts add up to the list length. */
  lemma {:induction false} GenreCountsCoverBooks(books: seq<Book>)
    ensures SumCounts(books, DistinctGenres(books)) == |books|
  {
    if books != [] {
      var init := books[..|books| - 1];
      var b := books[|books| - 1];
      assert books == init + [b];
      GenreCountsCoverBooks(init);
      var gs := GenresOf(books);
      assert gs[..|gs| - 1] == GenresOf(init);
      var seen := DistinctGenres(init);
      DistinctSpec(GenresOf(init));
      DistinctStep(GenresOf(init), b.genre);
      assert GenresOf(books) == GenresOf(init) + [b.genre];
      SumCountsAppendBook(init, b, seen);
      if b.genre in seen {
        DistinctCountsOnce(seen, b.genre);
      } else {
        assert multiset(seen)[b.genre] == 0;
        SumCountsAppendGenre(books, seen, b.genre);
        GenreCountAbsent(init, b.genre);
        GenreCountAppend(init, b, b.genre);
      }
    }
  }

  /** `SAMPLE_BOOKS.filter(book => bookmarks.has(book.id))`: the bookmarks view. */
  function BookmarkedBooks(books: seq<Book>, bookmarks: set<string>): seq<Book> {
    Filter(books, (b: Book) => b.id in bookmarks)
  }

  /**
   * The bookmarks view ignores the search text and the selected genre: the
   * catalog filter on the bookmarks tab shows the bookmarked books that also
   * pass those two tests, and exactly the bookmarks view when neither is set.
   */
  lemma BookmarkedBooksAsFilter(books: seq<Book>, query: string, genre: Option<string>, bookmarks: set<string>,
                                lower: string -> string)
    ensures FilteredBooks(books, PageState(BookmarksTab, query, genre, bookmarks), lower) ==
      Filter(BookmarkedBooks(books, bookmarks), b => MatchesSearch(b, query, lower) && MatchesGenre(b, genre))
    ensures query == "" && genre.None? ==>
      BookmarkedBooks(books, bookmarks) == FilteredBooks(books, PageState(BookmarksTab, query, genre, bookmarks), lower)
    ensures forall b :: b in BookmarkedBooks(books, bookmarks) <==> b in books && b.id in bookmarks
  {
    var page := PageState(BookmarksTab, query, genre, bookmarks);
    var rest := b => MatchesSearch(b, query, lower) && MatchesGenre(b, genre);
    FilterTwice(books, (b: Book) => b.id in bookmarks, rest, b => Shown(b, page, lower));
    if query == "" && genre.None? {
      FilterAll(BookmarkedBooks(books, bookmarks), rest);
    }
    forall b ensures b in BookmarkedBooks(books, bookmarks) <==> b in books && b.id in bookmarks {
      FilterMember(books, (b: Book) => b.id in bookmarks, b);
    }
  }

  // ---------------------------------------------------------------------------
  // Bookmark toggle

  /**
   * `handleToggleBookmark`: a copy of the previous set with `id` removed if it was
   * there and added if it was not. Sets are values here, so `prev` is never changed.
   */
  function ToggleBookmark(prev: set<string>, id: string): (next: set<string>)
    ensures id in next <==> id !in prev
    ensures next - {id} == prev - {id}
  {
    if id in prev then prev - {id} else prev + {id}
  }

  /** Toggling the same id twice gives back the original set. */
  lemma ToggleTwice(prev: set<string>, id: string)
    ensures ToggleBookmark(ToggleBookmark(prev, id), id) == prev
  {
  }

  /** Toggling one id leaves every other id's membership as it was. */
  lemma ToggleOthersUnchanged(prev: set<string>, id: string, other: string)
    requires other != id
    ensures other in ToggleBookmark(prev, id) <==> other in prev
  {
    assert other in ToggleBookmark(prev, id) - {id} <==> other in prev - {id};
  }
}
