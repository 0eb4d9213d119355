# Library API: validator, catalog and route handlers in Dafny

This project models the logic of the Library API, a small ASP.NET minimal-API
service over a SQLite Books table, and proves properties of that model. It has four parts:

- **The book validator** (`book_validator.dfy`, module `BookValidator`).
  - The ISBN rule's regular expression
    `^(?=(?:[^0-9]*[0-9]){10}(?:(?:[^0-9]*[0-9]){3})?$)[\d-]+$` is written as
    ghost predicates over the matched string: the look-ahead's digit groups, the end
    anchor and the `[\d-]+` body. A lemma proves this language equal to the plain
    rule: the string is non-empty, holds only digits and `-`, has exactly 10 or 13
    digits, and ends in a digit.
  - The other rules are NotEmpty on Title, Author and ShortDescription, and
    PageCount greater than 0.
  - `Validate` lists the failures of the six declared rules in declaration order,
    so a blank Author is reported twice.
- **The SQLite `LIKE` operator** (`sql_like.dfy`, module `SqlLike`) behind the title
  search.
- **The catalog** (`book_service.dfy`, module `Services`). The class `BookService`
  holds the Books table as a `map` from Isbn to record. `Create`, `Update` and
  `Delete` change that map. `GetByIsbn`, `GetAll` and `SearchByTitle` are functions
  that read it.
- **The five route handlers** (`routes.dfy`, module `Routes`). POST, PUT and DELETE
  are methods over the catalog; the two GETs are functions. Each returns a
  `Response` whose `StatusCode` is 400, 201, 200, 404 or 204. Validation always comes
  before any catalog call.
- The shared record is in `models.dfy`.

A guarded write reports `rows affected > 0`. The model takes one row for an
INSERT or UPDATE that gets past the lookup. For a DELETE it takes one row if the key
is present and none otherwise.

Details of the code the model keeps:

- The search is SQL `LIKE`, not plain substring containment.
  - It folds ASCII case, so `"HOBBIT"` finds `"The Hobbit"`.
  - The term is not escaped, so `%` and `_` in it act as wildcards, and a term of
    `"%"` lists every record.
  - For a term without wildcards, the search is exactly ASCII case-insensitive
    containment (`Services.BookService.SearchPlainTerm`).
  - A verbatim occurrence of any term is always found
    (`Services.BookService.SearchFindsContainingTitles`).
  - These two hold for titles and terms without the character U+0000; see
    "## Left out".
- .NET's `$` also matches just before one final `'\n'`. So the ISBN rule is applied to
  the string with one trailing newline dropped (`Subject`), and the regex model carries
  the same anchor.

## Model

| member | source | states |
|---|---|---|
| BookValidator.IsbnPatternIffValid | minimal-apis-course-final-master/Library.Api/Validators/BookValidator.cs:11 | a string is in the regex's language (look-ahead of 10 or 13 digit groups ending at `$`, then `[\d-]+` up to `$`) iff, after dropping one final newline, it is non-empty, all digits or `-`, has 10 or 13 digits and ends in a digit |
| BookValidator.DigitGroupsCharacterized | minimal-apis-course-final-master/Library.Api/Validators/BookValidator.cs:11 | the look-ahead's repeated group `(?:[^0-9]*[0-9]){n}` matches a string iff it has exactly n digits and is empty or ends in a digit |
| BookValidator.HyphenatedIsbn10Accepted | minimal-apis-course-final-master/Library.Api/Validators/BookValidator.cs:11 | any four digit groups of 10 digits in all, the last one non-empty, joined by `-` are accepted |
| BookValidator.HyphenatedIsbn13Accepted | minimal-apis-course-final-master/Library.Api/Validators/BookValidator.cs:11 | any five digit groups of 13 digits in all, the last one non-empty, joined by `-` are accepted |
| BookValidator.Isbn10Example | minimal-apis-course-final-master/Library.Api/Validators/BookValidator.cs:11 | `"0-306-40615-2"` is accepted |
| BookValidator.Isbn13Example | minimal-apis-course-final-master/Library.Api/Validators/BookValidator.cs:11 | `"978-0-306-40615-7"` is accepted |
| BookValidator.WrongCheckDigitExample | minimal-apis-course-final-master/Library.Api/Validators/BookValidator.cs:11 | `"0-306-40615-3"`, whose ISBN-10 check digit is wrong, is accepted: no check digit is computed |
| BookValidator.DigitsOnlyExample | minimal-apis-course-final-master/Library.Api/Validators/BookValidator.cs:11-12 | `"12345"` is rejected |
| BookValidator.WrongDigitCountRejected | minimal-apis-course-final-master/Library.Api/Validators/BookValidator.cs:11 | a digit count other than 10 or 13 (11 or 12 included) is rejected |
| BookValidator.NonDigitLastRejected | minimal-apis-course-final-master/Library.Api/Validators/BookValidator.cs:11 | a string ending in a character that is neither a digit nor a newline, a trailing hyphen included, is rejected |
| BookValidator.LetterRejected | minimal-apis-course-final-master/Library.Api/Validators/BookValidator.cs:11 | a string holding any ASCII letter, `X` included, is rejected |
| BookValidator.Validate | minimal-apis-course-final-master/Library.Api/Validators/BookValidator.cs:10-17 | the failure list is empty iff every rule passes, and holds at most six failures |
| BookValidator.ValidateReportsFailingRules | minimal-apis-course-final-master/Library.Api/Validators/BookValidator.cs:10-16 | the failure for Isbn ("Invalid ISBN"), Title, Author, ShortDescription or PageCount is in the list iff that rule fails; a blank string (empty or whitespace only) fails NotEmpty |
| BookValidator.ValidateReportsOnlyRuleFailures | minimal-apis-course-final-master/Library.Api/Validators/BookValidator.cs:10-17 | an Isbn failure comes first, and no failure besides the five rule failures is reported |
| BookValidator.IsbnReportedOnce | minimal-apis-course-final-master/Library.Api/Validators/BookValidator.cs:10-12 | a malformed Isbn yields the "Invalid ISBN" failure exactly once, a well-formed one never |
| BookValidator.TitleReportedOnce | minimal-apis-course-final-master/Library.Api/Validators/BookValidator.cs:13 | a blank Title yields the Title failure exactly once, a non-blank one never |
| BookValidator.ShortDescriptionReportedOnce | minimal-apis-course-final-master/Library.Api/Validators/BookValidator.cs:15 | a blank ShortDescription yields its failure exactly once, a non-blank one never |
| BookValidator.PageCountReportedOnce | minimal-apis-course-final-master/Library.Api/Validators/BookValidator.cs:16 | a PageCount of 0 or less yields the PageCount failure exactly once, a positive one never |
| BookValidator.AuthorReportedTwice | minimal-apis-course-final-master/Library.Api/Validators/BookValidator.cs:14-17 | a blank Author yields the Author failure exactly twice, a non-blank one never |
| BookValidator.ReleaseDateIgnored | minimal-apis-course-final-master/Library.Api/Validators/BookValidator.cs:10-17 | changing ReleaseDate never changes the failures |
| BookValidator.PageCountBoundary | minimal-apis-course-final-master/Library.Api/Validators/BookValidator.cs:16 | the PageCount failure is reported iff PageCount <= 0; PageCount 1 passes and 0 fails |
| SqlLike.ContainsIsMatched | minimal-apis-course-final-master/Library.Api/Services/BookService.cs:55 | a title holding the term verbatim matches the pattern `%` + term + `%` |
| SqlLike.PlainTermMatchesIgnoringCase | minimal-apis-course-final-master/Library.Api/Services/BookService.cs:55 | for a term without `%` or `_`, a title matches iff it holds the term up to ASCII case |
| SqlLike.EmptyTermMatchesAll | minimal-apis-course-final-master/Library.Api/Services/BookService.cs:55 | the empty term matches every title |
| SqlLike.PercentTermMatchesAll | minimal-apis-course-final-master/Library.Api/Services/BookService.cs:55 | the unescaped term `%` matches every title |
| SqlLike.CaseFoldingExample | minimal-apis-course-final-master/Library.Api/Services/BookService.cs:55 | `"HOBBIT"` finds `"The Hobbit"` |
| SqlLike.LeadingPercent | minimal-apis-course-final-master/Library.Api/Services/BookService.cs:55 | a leading `%` matches iff the rest of the pattern matches some suffix |
| SqlLike.PlainPrefix | minimal-apis-course-final-master/Library.Api/Services/BookService.cs:55 | a wildcard-free term followed by `%` matches iff the string starts with the term up to ASCII case |
| Services.RowsCount | minimal-apis-course-final-master/Library.Api/Services/BookService.cs:35-40 | a table keyed by Isbn has as many distinct rows as keys |
| Services.BookService.GetByIsbn | minimal-apis-course-final-master/Library.Api/Services/BookService.cs:42-48 | a record is returned iff the key is stored; it is the stored record and carries the looked-up Isbn; the function reads and never writes |
| Services.BookService.GetAll | minimal-apis-course-final-master/Library.Api/Services/BookService.cs:35-40 | every stored record is listed, and a record is listed iff it is the one stored under its Isbn, so at most one per Isbn |
| Services.BookService.GetAllCount | minimal-apis-course-final-master/Library.Api/Services/BookService.cs:35-40 | the listing has exactly as many records as the table has keys |
| Services.BookService.SearchByTitle | minimal-apis-course-final-master/Library.Api/Services/BookService.cs:51-56 | the search returns only stored records whose Title the LIKE pattern `%` + term + `%` matches, and every stored record whose Title it matches |
| Services.BookService.SearchFindsContainingTitles | minimal-apis-course-final-master/Library.Api/Services/BookService.cs:51-56 | every stored record whose Title holds the term verbatim is found |
| Services.BookService.SearchPlainTerm | minimal-apis-course-final-master/Library.Api/Services/BookService.cs:51-56 | for a wildcard-free term the result is exactly the stored records whose Title holds the term up to ASCII case |
| Services.BookService.SearchEmptyTerm | minimal-apis-course-final-master/Library.Api/Services/BookService.cs:51-56 | the term `""` returns every record |
| Services.BookService.SearchPercentTerm | minimal-apis-course-final-master/Library.Api/Services/BookService.cs:51-56 | the term `"%"` returns every record |
| Services.BookService.Create | minimal-apis-course-final-master/Library.Api/Services/BookService.cs:15-26 | returns true iff the Isbn was absent; then the table is the old one plus Isbn to book and a lookup returns the book; otherwise it is unchanged; the key invariant is kept |
| Services.BookService.Update | minimal-apis-course-final-master/Library.Api/Services/BookService.cs:59-70 | returns true iff the Isbn was present; then the row under that key holds the book's non-key fields with its key unchanged, and every other entry is unchanged; otherwise nothing changes and nothing is created |
| Services.BookService.Delete | minimal-apis-course-final-master/Library.Api/Services/BookService.cs:28-33 | returns true iff the key was present; afterwards the table is the old one without that key |
| Routes.PostBook | minimal-apis-course-final-master/Library.Api/Program.cs:54-70 | 400 with the validator's failures and no store change for an invalid body; 400 with the single Isbn failure "Book with this ISBN already exists" and no change for a stored Isbn; otherwise 201 at `/books/{isbn}` with the book stored; every stored record stays valid |
| Routes.ListBooks | minimal-apis-course-final-master/Library.Api/Program.cs:72-83 | always 200; without a term it lists every record; with any term, `""` included, it lists exactly the search result for that term |
| Routes.EmptySearchTermListsAll | minimal-apis-course-final-master/Library.Api/Program.cs:72-83 | the term `""` goes to the search and lists the same records as no term |
| Routes.ListBooksPlainTerm | minimal-apis-course-final-master/Library.Api/Program.cs:72-83 | with a wildcard-free term, GET lists exactly the records whose Title holds it up to ASCII case |
| Routes.GetBook | minimal-apis-course-final-master/Library.Api/Program.cs:85-89 | 200 with the stored record iff the key is stored, otherwise 404 |
| Routes.PutBook | minimal-apis-course-final-master/Library.Api/Program.cs:91-102 | the body takes the path's Isbn before validation; 400 with the failures and no change if invalid; 404 and no change if the key is absent; otherwise 200 with the record, which is stored under the path's Isbn; every stored record stays valid |
| Routes.DeleteBook | minimal-apis-course-final-master/Library.Api/Program.cs:104-108 | 204 if the key was stored, otherwise 404; afterwards the key is gone and nothing else changed |
| Routes.Session | minimal-apis-course-final-master/Library.Api/Program.cs:54-108 | for any valid book on an empty store, POST, GET, DELETE and GET give 201, 200, 204, 404 |
| Routes.DuplicatePost | minimal-apis-course-final-master/Library.Api/Program.cs:54-70 | a second valid POST with the same Isbn is refused with the duplicate failure |
| Routes.PutUnderPathIsbn | minimal-apis-course-final-master/Library.Api/Program.cs:91-102 | a PUT whose body names another Isbn gives 200 and stores the body under the path's Isbn |

## Left out

- Authentication (`ApiKeyAuthHandler`, its options): it is attached to no route.
- The SQLite connection factory and its interface: they only open connections.
- The table setup in `DatabaseInitializer`: the model keeps only its primary key on Isbn, as the map's key.
- The `IBookService` interface: it has no behaviour; the class mirrors its members.
- Startup wiring (dependency injection, Swagger, HTTPS redirection, app start).
- Dapper's statement execution and row mapping. The model keeps the meaning of each SQL statement.
- Asynchrony: each service call is one atomic step. The race between the existence lookup and the write in Create and Update is not modelled.
- Storage failures and exceptions (a failing connection, a primary-key clash from a concurrent writer) are not modelled.
- Null strings in a request body are not modelled: strings are never null here. A null Title, Author or ShortDescription fails NotEmpty just as a blank one does. A null Isbn is skipped by the regular-expression rule, so such a body passes validation and reaches the store; SQLite admits NULL, more than once, in a primary key that is not an INTEGER, so the one-row-per-Isbn property does not cover such rows. This case is outside the model.
- JSON binding of the body: PageCount is taken as an already-bound 32-bit integer.
- BookValidator.IsbnPatternIffValid: `\d` in the body is read as the ASCII digits `0-9`. .NET's `\d` also matches other Unicode decimal digits, which the look-ahead's `[0-9]` does not count.
- Services.BookService.SearchByTitle: SQLite folds ASCII letters only. An ICU-enabled build, or a `PRAGMA case_sensitive_like`, matches differently; neither is modelled.
- Services.BookService.SearchByTitle: SQLite's `LIKE` reads each operand only up to its first U+0000, while the model treats U+0000 as an ordinary character. A Title or search term holding U+0000 is outside the model, and for them `SearchFindsContainingTitles` and `SearchPlainTerm` do not describe what SQLite returns.
- BookValidator.Failure: only the property name and the error message of a validation failure are modelled. The 400 bodies serialise whole failure objects, which also carry the attempted value, an error code and a severity.
- Services.BookService.GetAll: results are sets, because neither query has an ORDER BY and the order of rows is unspecified.
- The validator's messages: the NotEmpty and GreaterThan messages are the validation library's default English texts, and its localisation is not modelled.
- The ISO 2108 check digit is not modelled, because the code does not compute one.
