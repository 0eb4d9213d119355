/**
  The book catalog: the Books table, whose primary key is Isbn, seen as a map
  from key to row. Each service call is one atomic step over that map.
*/
module Services {
  import opened Models
  import opened SqlLike

  /** The rows of a table: one per key, listed without order. */
  function Rows(m: map<string, Book>): (r: set<Book>)
    ensures forall k :: k in m ==> m[k] in r
    ensures Keyed(m) ==> forall b :: b in r <==> b.isbn in m && m[b.isbn] == b
  {
    set k | k in m :: m[k]
  }

  /** Each row sits under its own Isbn. */
  ghost predicate Keyed(m: map<string, Book>) {
    forall k :: k in m ==> m[k].isbn == k
  }

  /** Under the key constraint no two keys share a row, so there are as many rows as keys. */
  lemma {:induction false} RowsCount(m: map<string, Book>)
    requires Keyed(m)
    ensures |Rows(m)| == |m|
    decreases |m|
  {
    if m != map[] {
      var k :| k in m;
      var m' := m - {k};
      RowsCount(m');
      assert Keyed(m');
      assert Rows(m) == Rows(m') + {m[k]};
      assert m[k] !in Rows(m');
    }
  }

  class BookService {
    /** The Books table. */
    var books: map<string, Book>

    /** The primary key: every row is stored under its own Isbn. */
    ghost predicate Valid()
      reads this
    {
      Keyed(books)
    }

    /** A service over an empty table. */
    constructor ()
      ensures Valid() && books == map[]
    {
      books := map[];
    }

    /** `SELECT * FROM Books WHERE Isbn = @Isbn LIMIT 1`, or null on a miss. */
    function GetByIsbn(isbn: string): (r: Option<Book>)
      reads this
      ensures r.Some? <==> isbn in books
      ensures r.Some? ==> r.value == books[isbn]
      ensures Valid() && r.Some? ==> r.value.isbn == isbn
    {
      if isbn in books then Some(books[isbn]) else None
    }

    /** `SELECT * FROM Books`, as a set since the order is unspecified. */
    function GetAll(): (r: set<Book>)
      reads this
      ensures forall k :: k in books ==> books[k] in r
      ensures Valid() ==> forall b :: b in r <==> b.isbn in books && books[b.isbn] == b
    {
      Rows(books)
    }

    /** `SELECT * FROM Books WHERE Title LIKE '%' || @SearchTerm || '%'` */
    function SearchByTitle(term: string): (r: set<Book>)
      reads this
      ensures r <= GetAll()
      ensures forall b :: b in r ==> Like(b.title, ContainsPattern(term))
      ensures forall k :: k in books && Like(books[k].title, ContainsPattern(term)) ==> books[k] in r
    {
      set k | k in books && Like(books[k].title, ContainsPattern(term)) :: books[k]
    }

    /** INSERT guarded by a lookup: a fresh Isbn is stored, an existing one is refused. */
    method Create(book: Book) returns (created: bool)
      requires Valid()
      modifies this
      ensures Valid()
      ensures created <==> book.isbn !in old(books)
      ensures books == if created then old(books)[book.isbn := book] else old(books)
      ensures created ==> GetByIsbn(book.isbn) == Some(book)
    {
      var existing := GetByIsbn(book.isbn);
      if existing.Some? {
        return false;
      }
      books := books[book.isbn := book];
      var rowsAffected := 1;
      created := rowsAffected > 0;
    }

    /**
      UPDATE guarded by a lookup: for a stored Isbn the row's non-key columns
      are set from `book`; the key column is left alone.
    */
    method Update(book: Book) returns (updated: bool)
      requires Valid()
      modifies this
      ensures Valid()
      ensures updated <==> book.isbn in old(books)
      ensures books == if updated then old(books)[book.isbn := book] else old(books)
      ensures updated ==> GetByIsbn(book.isbn) == Some(book)
    {
      var existing := GetByIsbn(book.isbn);
      if existing.None? {
        return false;
      }
      var row := existing.value;
      books := books[book.isbn := row.(
        title := book.title,
        author := book.author,
        shortDescription := book.shortDescription,
        pageCount := book.pageCount,
        releaseDate := book.releaseDate)];
      var rowsAffected := 1;
      updated := rowsAffected > 0;
    }

    /** `DELETE FROM Books WHERE Isbn = @Isbn`, reporting whether a row went. */
    method Delete(isbn: string) returns (deleted: bool)
      requires Valid()
      modifies this
      ensures Valid()
      ensures deleted <==> isbn in old(books)
      ensures books == old(books) - {isbn}
      ensures GetByIsbn(isbn) == None
    {
      var rowsAffected := if isbn in books then 1 else 0;
      books := books - {isbn};
      deleted := rowsAffected > 0;
    }

    /** Listing returns every row once: as many records as keys. */
    lemma GetAllCount()
      requires Valid()
      ensures |GetAll()| == |books|
    {
      RowsCount(books);
    }

    /** A record whose Title holds the term verbatim is always found. */
    lemma SearchFindsContainingTitles(term: string)
      requires Valid()
      ensures forall b :: b in GetAll() && Contains(b.title, term) ==> b in SearchByTitle(term)
    {
      forall b | b in GetAll() && Contains(b.title, term)
        ensures b in SearchByTitle(term)
      {
        ContainsIsMatched(b.title, term);
      }
    }

    /** For a term without `%` or `_`, the search is ASCII case-insensitive containment. */
    lemma SearchPlainTerm(term: string)
      requires Valid() && IsPlain(term)
      ensures forall b :: b in SearchByTitle(term) <==> b in GetAll() && ContainsIgnoringCase(b.title, term)
    {
      forall b | b in GetAll()
        ensures b in SearchByTitle(term) <==> ContainsIgnoringCase(b.title, term)
      {
        PlainTermMatchesIgnoringCase(b.title, term);
      }
    }

    /** The empty term finds every record. */
    lemma SearchEmptyTerm()
      requires Valid()
      ensures SearchByTitle("") == GetAll()
    {
      forall b | b in GetAll()
        ensures b in SearchByTitle("")
      {
        EmptyTermMatchesAll(b.title);
      }
    }

    /** The term reaches LIKE unescaped: `%` finds every record. */
    lemma SearchPercentTerm()
      requires Valid()
      ensures SearchByTitle("%") == GetAll()
    {
      forall b | b in GetAll()
        ensures b in SearchByTitle("%")
      {
        PercentTermMatchesAll(b.title);
      }
    }
  }
}
