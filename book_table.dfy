/** The book table: its filter options, its search and filter rules, its
    pagination and the bookkeeping of the book list after each successful
    call to the remote service. The pure rules come first; the class
    Component holds the table's state and its event handlers. */
module BookTable {
  import opened Books
  import opened JsString
  import opened JsArray

  /** Rows shown per page. */
  const BooksPerPage := 10

  // ---------------------------------------------------------------------
  // Filter options

  /** The genre dropdown's options (after the "all genres" entry): each
      genre of the list once, in order of first appearance. */
  function GenreOptions(books: seq<Book>): (r: seq<string>)
    ensures NoDuplicates(r)
    ensures forall b :: b in books ==> b.genre in r
    ensures forall g :: g in r ==> exists b :: b in books && b.genre == g
  {
    var genres := Map(books, (b: Book) => b.genre);
    assert forall i :: 0 <= i < |books| ==> genres[i] == books[i].genre;
    Distinct(genres)
  }

  /** The status dropdown's options: each status of the list once, in order
      of first appearance. */
  function StatusOptions(books: seq<Book>): (r: seq<string>)
    ensures NoDuplicates(r)
    ensures forall b :: b in books ==> b.status in r
    ensures forall st :: st in r ==> exists b :: b in books && b.status == st
  {
    var statuses := Map(books, (b: Book) => b.status);
    assert forall i :: 0 <= i < |books| ==> statuses[i] == books[i].status;
    Distinct(statuses)
  }

  // ---------------------------------------------------------------------
  // Filtering

  /** A dropdown selection filters only when it is truthy in JavaScript:
      neither null nor the empty string. */
  predicate Selected(selection: Option<string>) {
    selection.Some? && selection.value != ""
  }

  /** The search rule: an empty query matches every book; otherwise the
      lower-cased query must occur in the lower-cased title or author. */
  predicate MatchesSearch(b: Book, query: string) {
    || query == ""
    || Includes(Lower(b.title), Lower(query))
    || Includes(Lower(b.author), Lower(query))
  }

  predicate MatchesGenre(b: Book, genre: Option<string>) {
    !Selected(genre) || b.genre == genre.value
  }

  predicate MatchesStatus(b: Book, status: Option<string>) {
    !Selected(status) || b.status == status.value
  }

  /** A book is listed when it passes the search, the genre filter and the
      status filter. */
  predicate Matches(b: Book, query: string, genre: Option<string>, status: Option<string>)
    ensures Matches(b, query, genre, status) ==>
      (Selected(genre) ==> b.genre == genre.value) && (Selected(status) ==> b.status == status.value)
    ensures Matches(b, query, genre, status) ==>
      query == "" || |query| <= |b.title| || |query| <= |b.author|
    ensures query == "" && !Selected(genre) && !Selected(status) ==> Matches(b, query, genre, status)
  {
    MatchesSearch(b, query) && MatchesGenre(b, genre) && MatchesStatus(b, status)
  }

  /** The listed books: those of the list that match, in list order, each as
      often as it occurs in the list. */
  function FilterBooks(books: seq<Book>, query: string, genre: Option<string>, status: Option<string>)
    : (r: seq<Book>)
    ensures IsSubsequence(r, books)
    ensures forall b :: multiset(r)[b] == if Matches(b, query, genre, status) then multiset(books)[b] else 0
    ensures forall b :: b in r <==> b in books && Matches(b, query, genre, status)
  {
    var keep := (b: Book) => Matches(b, query, genre, status);
    FilterIsSubsequence(books, keep);
    FilterCounts(books, keep);
    Filter(books, keep)
  }

  /** With an empty query and no selection the table lists every book. */
  lemma NoFilterListsAll(books: seq<Book>, genre: Option<string>, status: Option<string>)
    requires !Selected(genre) && !Selected(status)
    ensures FilterBooks(books, "", genre, status) == books
  {
    FilterKeepsAll(books, (b: Book) => Matches(b, "", genre, status));
  }

  /** A selected genre or status holds for every listed book. */
  lemma ListedBooksHaveSelection(books: seq<Book>, query: string, genre: Option<string>, status: Option<string>)
    ensures forall b :: b in FilterBooks(books, query, genre, status) ==>
      (Selected(genre) ==> b.genre == genre.value) && (Selected(status) ==> b.status == status.value)
  {
  }

  /** The case of the query does not matter. */
  lemma SearchIgnoresQueryCase(b: Book, query: string)
    ensures MatchesSearch(b, query) <==> MatchesSearch(b, Lower(query))
  {
    LowerIdempotent(query);
  }

  /** The explicit test for an empty query changes nothing: every title
      includes the empty string. */
  lemma EmptyQueryMatchesBySubstring(b: Book, query: string)
    ensures MatchesSearch(b, query) <==>
      Includes(Lower(b.title), Lower(query)) || Includes(Lower(b.author), Lower(query))
  {
    if query == "" {
      assert Lower(query) == "";
      IncludesEmpty(Lower(b.title));
    }
  }

  /** A book appended to the list is listed last exactly when it matches. */
  lemma AppendedBookListedLast(books: seq<Book>, b: Book, query: string, genre: Option<string>, status: Option<string>)
    ensures FilterBooks(books + [b], query, genre, status) ==
      FilterBooks(books, query, genre, status) + (if Matches(b, query, genre, status) then [b] else [])
  {
    var keep := (x: Book) => Matches(x, query, genre, status);
    FilterAppend(books, [b], keep);
    assert [b][1..] == [];
  }

  // ---------------------------------------------------------------------
  // Pagination

  /** `Math.ceil(n / 10)`: the fewest pages of ten rows that hold n rows. */
  function TotalPages(n: nat): (r: nat)
    ensures n <= r * BooksPerPage
    ensures r == 0 || (r - 1) * BooksPerPage < n
  {
    (n + BooksPerPage - 1) / BooksPerPage
  }

  function Min(a: int, b: int): int {
    if a < b then a else b
  }

  /** The rows of page `page`: `filtered.slice(page * 10 - 10, page * 10)`.
      At most ten rows on any page; from page 1 on, the rows (page - 1) * 10
      up to page * 10, cut at the end of the list. */
  function PageSlice(filtered: seq<Book>, page: int): (r: seq<Book>)
    ensures |r| <= BooksPerPage
    ensures page >= 1 ==>
      r == filtered[Min((page - 1) * BooksPerPage, |filtered|)..Min(page * BooksPerPage, |filtered|)]
  {
    var indexOfLastBook := page * BooksPerPage;
    var indexOfFirstBook := indexOfLastBook - BooksPerPage;
    Slice(filtered, indexOfFirstBook, indexOfLastBook)
  }

  /** Any page from 1 on shows exactly ten rows before the last page, at
      least one on every page up to the page count, and none past it.
      Nothing keeps the page from lying past the last one. */
  lemma PageWindow(filtered: seq<Book>, page: int)
    requires page >= 1
    ensures var n := |filtered|;
      && (page < TotalPages(n) ==> |PageSlice(filtered, page)| == BooksPerPage)
      && (page <= TotalPages(n) ==> PageSlice(filtered, page) != [])
      && (page > TotalPages(n) ==> PageSlice(filtered, page) == [])
  {
  }

  /** Pages 1 to k, one after the other. */
  function PagesUpTo(filtered: seq<Book>, k: nat): seq<Book> {
    if k == 0 then [] else PagesUpTo(filtered, k - 1) + PageSlice(filtered, k)
  }

  /** Pages 1 to k together are the first k * 10 rows: no row is shown
      twice and none is skipped. */
  lemma {:induction false} PagesUpToIsPrefix(filtered: seq<Book>, k: nat)
    ensures PagesUpTo(filtered, k) == filtered[..Min(k * BooksPerPage, |filtered|)]
  {
    if k > 0 {
      PagesUpToIsPrefix(filtered, k - 1);
      PageWindow(filtered, k);
      var n := |filtered|;
      var a, b := Min((k - 1) * BooksPerPage, n), Min(k * BooksPerPage, n);
      assert filtered[..a] + filtered[a..b] == filtered[..b];
    }
  }

  /** The pages 1 to TotalPages together are exactly the listed books. */
  lemma AllPagesAreTheList(filtered: seq<Book>)
    ensures PagesUpTo(filtered, TotalPages(|filtered|)) == filtered
  {
    PagesUpToIsPrefix(filtered, TotalPages(|filtered|));
  }

  // ---------------------------------------------------------------------
  // List bookkeeping after a successful remote call

  /** After a delete: `books.filter(b => b.id !== id)`. */
  function RemoveById(books: seq<Book>, id: string): (r: seq<Book>)
    ensures IsSubsequence(r, books)
    ensures forall b :: multiset(r)[b] == if b.id != id then multiset(books)[b] else 0
    ensures forall b :: b in r <==> b in books && b.id != id
  {
    var keep := (b: Book) => b.id != id;
    FilterIsSubsequence(books, keep);
    FilterCounts(books, keep);
    Filter(books, keep)
  }

  /** After an update: `books.map(b => b.id === updated.id ? updated : b)`. */
  function ReplaceById(books: seq<Book>, updated: Book): (r: seq<Book>)
    ensures |r| == |books|
    ensures forall i :: 0 <= i < |books| ==>
      r[i] == if books[i].id == updated.id then updated else books[i]
  {
    Map(books, (b: Book) => if b.id == updated.id then updated else b)
  }

  /** Removal keeps the ids unique. */
  lemma {:induction false} RemoveKeepsIdsUnique(books: seq<Book>, id: string)
    requires UniqueIds(books)
    ensures UniqueIds(RemoveById(books, id))
  {
    if books != [] {
      var rest := RemoveById(books[1..], id);
      RemoveKeepsIdsUnique(books[1..], id);
      var r := RemoveById(books, id);
      if books[0].id != id {
        assert r == [books[0]] + rest;
        forall j | 0 < j < |r|
          ensures r[0].id != r[j].id
        {
          assert r[j] in books[1..];
        }
      } else {
        assert r == rest;
      }
    }
  }

  /** With unique ids, deleting an id that is present removes exactly one
      book. */
  lemma {:induction false} RemovePresentIdDropsOne(books: seq<Book>, id: string)
    requires UniqueIds(books)
    requires exists b :: b in books && b.id == id
    ensures |RemoveById(books, id)| == |books| - 1
  {
    var rest := RemoveById(books[1..], id);
    if books[0].id == id {
      RemoveAbsentIdKeepsAll(books[1..], id);
    } else {
      RemovePresentIdDropsOne(books[1..], id);
    }
  }

  /** Deleting an id that no book has changes nothing. */
  lemma {:induction false} RemoveAbsentIdKeepsAll(books: seq<Book>, id: string)
    requires forall b :: b in books ==> b.id != id
    ensures RemoveById(books, id) == books
  {
    if books != [] {
      RemoveAbsentIdKeepsAll(books[1..], id);
    }
  }

  /** An update keeps every id in place, so it keeps the ids unique. */
  lemma ReplaceKeepsIds(books: seq<Book>, updated: Book)
    ensures forall i :: 0 <= i < |books| ==> ReplaceById(books, updated)[i].id == books[i].id
    ensures UniqueIds(books) ==> UniqueIds(ReplaceById(books, updated))
  {
  }

  /** Deleting after updating deletes the same books as deleting alone. */
  lemma {:induction false} RemoveAfterReplace(books: seq<Book>, updated: Book)
    ensures RemoveById(ReplaceById(books, updated), updated.id) == RemoveById(books, updated.id)
  {
    if books != [] {
      var replaced := ReplaceById(books, updated);
      assert replaced[1..] == ReplaceById(books[1..], updated);
      RemoveAfterReplace(books[1..], updated);
    }
  }

  /** Creating keeps the ids unique when the service assigns a fresh id. */
  lemma AppendKeepsIdsUnique(books: seq<Book>, created: Book)
    requires UniqueIds(books)
    requires forall b :: b in books ==> b.id != created.id
    ensures UniqueIds(books + [created])
  {
  }

  // ---------------------------------------------------------------------
  // The component's state

  /** The table component: the list of books and the user's selections. */
  class Component {
    var books: seq<Book>
    var loading: bool
    var error: Option<string>
    var currentPage: int
    var searchQuery: string
    var selectedGenre: Option<string>
    var selectedStatus: Option<string>
    var modalVisible: bool
    var selectedBook: Option<Book>

    /** Every page control moves to a page from 1 on. */
    ghost predicate Valid()
      reads this
    {
      currentPage >= 1
    }

    /** The initial state of every `useState`. */
    constructor ()
      ensures Valid()
      ensures books == [] && loading && error == None
      ensures currentPage == 1 && searchQuery == ""
      ensures selectedGenre == None && selectedStatus == None
      ensures !modalVisible && selectedBook == None
    {
      books := [];
      loading := true;
      error := None;
      currentPage := 1;
      searchQuery := "";
      selectedGenre := None;
      selectedStatus := None;
      modalVisible := false;
      selectedBook := None;
    }

    /** The books the table lists under the current search and filters. */
    function Filtered(): (r: seq<Book>)
      reads this
      ensures IsSubsequence(r, books)
      ensures forall b ::
        multiset(r)[b] == if Matches(b, searchQuery, selectedGenre, selectedStatus) then multiset(books)[b] else 0
      ensures forall b :: b in r <==> b in books && Matches(b, searchQuery, selectedGenre, selectedStatus)
    {
      FilterBooks(books, searchQuery, selectedGenre, selectedStatus)
    }

    /** The rows of the current page. */
    function CurrentBooks(): (r: seq<Book>)
      reads this
      ensures |r| <= BooksPerPage
      ensures Valid() ==> var n := |Filtered()|;
        r == Filtered()[Min((currentPage - 1) * BooksPerPage, n)..Min(currentPage * BooksPerPage, n)]
    {
      PageSlice(Filtered(), currentPage)
    }

    /** The number of page buttons: the fewest ten-row pages that hold the
        listed books. */
    function PageCount(): (r: nat)
      reads this
      ensures |Filtered()| <= r * BooksPerPage
      ensures r == 0 || (r - 1) * BooksPerPage < |Filtered()|
    {
      TotalPages(|Filtered()|)
    }

    /** The initial fetch completes: the list is replaced by the service's
        list, or the error is recorded; loading ends either way. */
    method FetchCompleted(reply: Reply<seq<Book>>)
      requires Valid()
      modifies this`books, this`error, this`loading
      ensures Valid()
      ensures !loading
      ensures reply.Ok? ==> books == reply.value && error == old(error)
      ensures reply.Failed? ==> books == old(books) && error == Some(reply.message)
    {
      match reply {
        case Ok(data) =>
          books := data;
        case Failed(message) =>
          error := Some(message);
      }
      loading := false;
    }

    /** Typing in the search box returns to the first page. */
    method SetSearchQuery(query: string)
      requires Valid()
      modifies this`searchQuery, this`currentPage
      ensures Valid()
      ensures searchQuery == query && currentPage == 1
    {
      searchQuery := query;
      currentPage := 1;
    }

    /** Choosing a genre (None: all genres) returns to the first page. */
    method SetGenre(genre: Option<string>)
      requires Valid()
      modifies this`selectedGenre, this`currentPage
      ensures Valid()
      ensures selectedGenre == genre && currentPage == 1
    {
      selectedGenre := genre;
      currentPage := 1;
    }

    /** Choosing a status (None: all statuses) returns to the first page. */
    method SetStatus(status: Option<string>)
      requires Valid()
      modifies this`selectedStatus, this`currentPage
      ensures Valid()
      ensures selectedStatus == status && currentPage == 1
    {
      selectedStatus := status;
      currentPage := 1;
    }

    /** The "Previous" button, disabled on page 1. */
    method PreviousPage()
      requires Valid()
      modifies this`currentPage
      ensures Valid()
      ensures currentPage == if old(currentPage) == 1 then 1 else old(currentPage) - 1
    {
      if currentPage != 1 {
        currentPage := currentPage - 1;
      }
    }

    /** The "Next" button, disabled only when the current page number equals
        the page count: with no results (page count 0) it stays enabled, and
        past the last page it keeps going. */
    method NextPage()
      requires Valid()
      modifies this`currentPage
      ensures Valid()
      ensures currentPage == if old(currentPage) == old(PageCount()) then old(currentPage) else old(currentPage) + 1
    {
      if currentPage != PageCount() {
        currentPage := currentPage + 1;
      }
    }

    /** A numbered page button; one is shown for each index below the page
        count. */
    method GoToPage(index: nat)
      requires index < PageCount()
      modifies this`currentPage
      ensures Valid()
      ensures currentPage == index + 1 && currentPage <= PageCount()
    {
      currentPage := index + 1;
    }

    /** "Add Book" opens the form with no book selected. */
    method AddBook()
      requires Valid()
      modifies this`selectedBook, this`modalVisible
      ensures Valid()
      ensures selectedBook == None && modalVisible
    {
      selectedBook := None;
      modalVisible := true;
    }

    /** A row's edit button opens the form on that book. */
    method EditBook(book: Book)
      requires Valid()
      modifies this`selectedBook, this`modalVisible
      ensures Valid()
      ensures selectedBook == Some(book) && modalVisible
    {
      selectedBook := Some(book);
      modalVisible := true;
    }

    /** The form's cancel. */
    method HideModal()
      requires Valid()
      modifies this`modalVisible
      ensures Valid()
      ensures !modalVisible
    {
      modalVisible := false;
    }

    /** The confirmed delete of a row completes: on success the books with
        that id leave the list; a failure only shows a notification. The
        page is not moved back, even when its last row went. */
    method DeleteBook(book: Book, reply: Reply<()>)
      requires Valid()
      modifies this`books
      ensures Valid()
      ensures books == if reply.Ok? then RemoveById(old(books), book.id) else old(books)
    {
      if reply.Ok? {
        books := RemoveById(books, book.id);
      }
    }

    /** The form's submission completes. With a book selected the service
        was asked to update it and its reply replaces every book with the
        reply's id; otherwise the service created a book, which is appended.
        Success closes the form; failure records the error, which replaces
        the whole table by the error panel. */
    method ModalSubmitted(reply: Reply<Book>)
      requires Valid()
      modifies this`books, this`modalVisible, this`error
      ensures Valid()
      ensures reply.Ok? && old(selectedBook).Some? ==> books == ReplaceById(old(books), reply.value)
      ensures reply.Ok? && old(selectedBook).None? ==> books == old(books) + [reply.value]
      ensures reply.Ok? ==> !modalVisible && error == old(error)
      ensures reply.Failed? ==>
        books == old(books) && modalVisible == old(modalVisible) && error == Some(reply.message)
    {
      match reply {
        case Ok(saved) =>
          if selectedBook.Some? {
            books := ReplaceById(books, saved);
          } else {
            books := books + [saved];
          }
          modalVisible := false;
        case Failed(message) =>
          error := Some(message);
      }
    }
  }

  // ---------------------------------------------------------------------
  // Scenarios

  /** Loading one book and deleting it empties the list; a later failed
      delete leaves the list as it was. */
  method DeleteScenario() {
    var table := new Component();
    var book := Book("1", "A", "X", "Fiction", 2000, "available");
    table.FetchCompleted(Ok([book]));
    table.DeleteBook(book, Ok(()));
    assert table.books == [];
    var other := Book("2", "B", "Y", "Sci-Fi", 1999, "unavailable");
    table.ModalSubmitted(Ok(other));
    assert table.books == [other];
    table.DeleteBook(other, Failed("Failed to delete book"));
    assert table.books == [other];
  }

  /** With nothing to list the page count is 0, yet "Next" is enabled and
      moves to page 2, whose slice is empty. */
  method NextPastNoResults() {
    var table := new Component();
    table.FetchCompleted(Ok([]));
    assert table.PageCount() == 0;
    table.NextPage();
    assert table.currentPage == 2 && table.currentPage > table.PageCount();
    assert table.CurrentBooks() == [];
  }
}
