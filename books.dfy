/** The data model shared by the table and the form: the book record and
    the outcome of a call to the remote book service. */
module Books {

  /** A value that may be absent (JavaScript's `null` selection). */
  datatype Option<+T> = None | Some(value: T)

  /** The outcome of one call to the remote book service: the parsed JSON
      body on a successful HTTP status, or the message of the error thrown
      on any other status ("Failed to delete book", ...). */
  datatype Reply<+T> = Ok(value: T) | Failed(message: string)

  /** A book as the service returns it. The id is assigned by the service
      and is opaque to the client. */
  datatype Book = Book(
    id: string,
    title: string,
    author: string,
    genre: string,
    publishedYear: int,
    status: string)

  /** No two books of the list share an id. The service is expected to keep
      this; the client never checks it. */
  ghost predicate UniqueIds(books: seq<Book>) {
    forall i, j :: 0 <= i < j < |books| ==> books[i].id != books[j].id
  }
}
