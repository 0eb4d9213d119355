/** The book record shared by the validator, the service and the routes. */
module Models {

  /** C#'s `int`: the JSON body's PageCount binds to a 32-bit signed integer. */
  newtype int32 = x: int | -0x8000_0000 <= x < 0x8000_0000

  /** The release date, kept as the text the Books table stores; no rule inspects it. */
  type Date = string

  /** One row of the Books table; `isbn` is its primary key. */
  datatype Book = Book(
    isbn: string,
    title: string,
    author: string,
    shortDescription: string,
    pageCount: int32,
    releaseDate: Date)

  /** A record or nothing: the `Book?` a keyed lookup returns. */
  datatype Option<+T> = None | Some(value: T)
}
