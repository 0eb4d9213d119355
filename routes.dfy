/**
  The five HTTP handlers of the Library API. Each handler validates the
  request body before it touches the catalog, then turns the catalog's answer
  into a status code and a response body.
*/
module Routes {
  import opened Models
  import opened BookValidator
  import opened SqlLike
  import opened Services

  /** The results the handlers return. */
  datatype Response =
    | BadRequest(errors: seq<Failure>)
    | Created(location: string, created: Book)
    | OkBook(book: Book)
    | OkBooks(books: set<Book>)
    | NotFound
    | NoContent

  function StatusCode(r: Response): int {
    match r
    case BadRequest(_) => 400
    case Created(_, _) => 201
    case OkBook(_) => 200
    case OkBooks(_) => 200
    case NotFound => 404
    case NoContent => 204
  }

  /** The failure POST reports when the Isbn is already stored. */
  const DuplicateIsbn := Failure("Isbn", "Book with this ISBN already exists")

  /** Every stored record passes the validator. */
  ghost predicate AllStoredValid(service: BookService)
    reads service
  {
    forall k :: k in service.books ==> IsValid(service.books[k])
  }

  /** POST /books */
  method PostBook(service: BookService, book: Book) returns (response: Response)
    requires service.Valid()
    modifies service
    ensures service.Valid()
    ensures !IsValid(book) ==>
      response == BadRequest(Validate(book)) && service.books == old(service.books)
    ensures IsValid(book) && book.isbn in old(service.books) ==>
      response == BadRequest([DuplicateIsbn]) && service.books == old(service.books)
    ensures IsValid(book) && book.isbn !in old(service.books) ==>
      response == Created("/books/" + book.isbn, book) &&
      service.books == old(service.books)[book.isbn := book]
    ensures old(AllStoredValid(service)) ==> AllStoredValid(service)
  {
    var errors := Validate(book);
    if errors != [] {
      return BadRequest(errors);
    }
    var created := service.Create(book);
    if !created {
      return BadRequest([DuplicateIsbn]);
    }
    return Created("/books/" + book.isbn, book);
  }

  /** GET /books, with the optional `searchTerm` query parameter. */
  function ListBooks(service: BookService, searchTerm: Option<string>): (response: Response)
    reads service
    ensures StatusCode(response) == 200 && response.OkBooks?
    ensures response.books <= service.GetAll()
    ensures searchTerm.None? ==> response.books == service.GetAll()
    ensures searchTerm.Some? ==> response.books == service.SearchByTitle(searchTerm.value)
  {
    match searchTerm
    case Some(term) => OkBooks(service.SearchByTitle(term))
    case None => OkBooks(service.GetAll())
  }

  /** GET /books/{isbn} */
  function GetBook(service: BookService, isbn: string): (response: Response)
    reads service
    ensures response.OkBook? || response == NotFound
    ensures response.OkBook? <==> isbn in service.books
    ensures response.OkBook? ==> response.book == service.books[isbn]
    ensures service.Valid() && response.OkBook? ==> response.book.isbn == isbn
  {
    match service.GetByIsbn(isbn)
    case Some(book) => OkBook(book)
    case None => NotFound
  }

  /** PUT /books/{isbn}: the path's Isbn replaces the body's before validation. */
  method PutBook(service: BookService, isbn: string, body: Book) returns (response: Response)
    requires service.Valid()
    modifies service
    ensures service.Valid()
    ensures !IsValid(body.(isbn := isbn)) ==>
      response == BadRequest(Validate(body.(isbn := isbn))) && service.books == old(service.books)
    ensures IsValid(body.(isbn := isbn)) && isbn !in old(service.books) ==>
      response == NotFound && service.books == old(service.books)
    ensures IsValid(body.(isbn := isbn)) && isbn in old(service.books) ==>
      response == OkBook(body.(isbn := isbn)) &&
      service.books == old(service.books)[isbn := body.(isbn := isbn)]
    ensures old(AllStoredValid(service)) ==> AllStoredValid(service)
  {
    var book := body.(isbn := isbn);
    var errors := Validate(book);
    if errors != [] {
      return BadRequest(errors);
    }
    var updated := service.Update(book);
    if updated {
      return OkBook(book);
    }
    return NotFound;
  }

  /** DELETE /books/{isbn} */
  method DeleteBook(service: BookService, isbn: string) returns (response: Response)
    requires service.Valid()
    modifies service
    ensures service.Valid()
    ensures response == if isbn in old(service.books) then NoContent else NotFound
    ensures service.books == old(service.books) - {isbn}
    ensures old(AllStoredValid(service)) ==> AllStoredValid(service)
  {
    var deleted := service.Delete(isbn);
    if deleted {
      return NoContent;
    }
    return NotFound;
  }

  /** A search term of `""` is a search, and it lists the same records as no term. */
  lemma EmptySearchTermListsAll(service: BookService)
    requires service.Valid()
    ensures ListBooks(service, Some("")) == ListBooks(service, None)
  {
    service.SearchEmptyTerm();
  }

  /** With a term free of wildcards, GET /books lists the records whose Title contains it up to ASCII case. */
  lemma ListBooksPlainTerm(service: BookService, term: string)
    requires service.Valid() && IsPlain(term)
    ensures forall b :: b in ListBooks(service, Some(term)).books <==>
      b in service.GetAll() && ContainsIgnoringCase(b.title, term)
  {
    service.SearchPlainTerm(term);
  }

  /** For any valid book, on an empty catalog: create it, read it, delete it, read it again. */
  method Session(book: Book) returns (codes: seq<int>)
    requires IsValid(book)
    ensures codes == [201, 200, 204, 404]
  {
    var service := new BookService();
    var created := PostBook(service, book);
    var read := GetBook(service, book.isbn);
    var deleted := DeleteBook(service, book.isbn);
    var missing := GetBook(service, book.isbn);
    codes := [StatusCode(created), StatusCode(read), StatusCode(deleted), StatusCode(missing)];
  }

  /** A second POST of the same Isbn is refused with the duplicate failure, whatever its other fields. */
  method DuplicatePost(first: Book, second: Book) returns (responses: seq<Response>)
    requires IsValid(first) && IsValid(second) && first.isbn == second.isbn
    ensures |responses| == 2
    ensures responses[0] == Created("/books/" + first.isbn, first)
    ensures responses[1] == BadRequest([DuplicateIsbn])
  {
    var service := new BookService();
    var r1 := PostBook(service, first);
    var r2 := PostBook(service, second);
    responses := [r1, r2];
  }

  /** A PUT whose body names another Isbn still updates the record at the path, under the path's Isbn. */
  method PutUnderPathIsbn(book: Book, body: Book) returns (codes: seq<int>, stored: Option<Book>)
    requires IsValid(book) && IsValid(body.(isbn := book.isbn))
    ensures codes == [201, 200]
    ensures stored == Some(body.(isbn := book.isbn))
  {
    var service := new BookService();
    var created := PostBook(service, book);
    var updated := PutBook(service, book.isbn, body);
    codes := [StatusCode(created), StatusCode(updated)];
    stored := service.GetByIsbn(book.isbn);
  }
}
