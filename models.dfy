/**
 * The stored records of the book manager: Django's auth `User`, as far as
 * the service uses it, and the `Book` model with its column limits.
 */
module Models {
  import opened Wrappers

  /** `max_length` of the `title`, `author` and `isbn` columns. */
  const MAX_TITLE_LENGTH: nat := 255
  const MAX_AUTHOR_LENGTH: nat := 255
  const MAX_ISBN_LENGTH: nat := 13

  /** A registered user; the password hash is not kept in this model. */
  datatype User = User(id: nat, username: string, email: string)

  /**
   * A book row. `owner` is the id of the one `User` it belongs to (a foreign
   * key deleted in cascade with that user); `creationDate` is the server's
   * clock reading when the row was created.
   */
  datatype Book = Book(
    id: nat,
    owner: nat,
    title: string,
    author: string,
    publishedDate: Option<string>,
    isbn: Option<string>,
    creationDate: int)

  /**
   * The column rules of the model: title and author are required text
   * (not blank) of at most 255 characters; isbn, when present, has at most
   * 13 characters.
   */
  predicate FitsColumns(b: Book) {
    && 0 < |b.title| <= MAX_TITLE_LENGTH
    && 0 < |b.author| <= MAX_AUTHOR_LENGTH
    && (b.isbn.Some? ==> |b.isbn.value| <= MAX_ISBN_LENGTH)
  }
}
