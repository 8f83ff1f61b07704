/**
 The record shapes of the reading tracker: users, books and notes, with the
 column defaults and the two status transitions a book goes through.
 Every record carries its own primary key `id`; the store keeps each record
 under that key.
 */
module Models {

  datatype Option<+T> = None | Some(value: T)

  /** The error conditions the handlers end in instead of a state change. */
  datatype Error =
    | NotFound           // `get_or_404`, or `session.delete` of a missing row
    | DuplicateUsername  // registration with a taken name
    | IntegrityError     // a NOT NULL column left without a value

  datatype Result<+T> = Ok(value: T) | Err(error: Error)

  /** A calendar date as Python's `date`: year 1..9999, month 1..12. */
  type Year = y: int | 1 <= y <= 9999 witness 1
  type Month = m: int | 1 <= m <= 12 witness 1
  type Day = d: int | 1 <= d <= 31 witness 1

  datatype Date = Date(year: Year, month: Month, day: Day)

  /** `User`: a unique username and the stored (opaque) password hash. */
  datatype User = User(id: nat, username: string, passwordHash: string)

  /** `Book`: `finished` defaults to false, `finish_date` may be null. */
  datatype Book = Book(
    id: nat,
    title: string,
    author: string,
    finished: bool,
    finishDate: Option<Date>,
    userId: nat)

  /** `Note`: chapter and page are nullable integers, content is required. */
  datatype Note = Note(
    id: nat,
    chapter: Option<int>,
    page: Option<int>,
    content: string,
    bookId: nat,
    userId: nat)

  /** The invariant of a book at rest: finished exactly when it has a finish date. */
  predicate StatusConsistent(b: Book) {
    b.finished <==> b.finishDate.Some?
  }

  /** A book as inserted by the add-book handler: the column defaults apply. */
  function NewBook(id: nat, title: string, author: string, owner: nat): (b: Book)
    ensures !b.finished && b.finishDate == None && StatusConsistent(b)
    ensures b.id == id && b.userId == owner && b.title == title && b.author == author
  {
    Book(id, title, author, false, None, owner)
  }

  /** `mark_as_finished`: set the flag and stamp today's date. */
  function Finish(b: Book, today: Date): (r: Book)
    ensures StatusConsistent(r) && r.finished && r.finishDate == Some(today)
    ensures r.(finished := b.finished, finishDate := b.finishDate) == b
  {
    b.(finished := true, finishDate := Some(today))
  }

  /** `mark_as_current`: clear the flag and the date. */
  function Revert(b: Book): (r: Book)
    ensures StatusConsistent(r) && !r.finished && r.finishDate == None
    ensures r.(finished := b.finished, finishDate := b.finishDate) == b
  {
    b.(finished := false, finishDate := None)
  }

  /** Finishing a book that is being read and then reverting it gives back the same book. */
  lemma RevertUndoesFinish(b: Book, today: Date)
    requires !b.finished && b.finishDate == None
    ensures Revert(Finish(b, today)) == b
  {
  }

  /** Every record of a table is stored under its own id. */
  predicate BooksKeyed(books: map<nat, Book>) {
    forall k :: k in books ==> books[k].id == k
  }

  predicate NotesKeyed(notes: map<nat, Note>) {
    forall k :: k in notes ==> notes[k].id == k
  }

  predicate UsersKeyed(users: map<nat, User>) {
    forall k :: k in users ==> users[k].id == k
  }

  /** The UNIQUE constraint on `User.username`. */
  predicate UniqueUsernames(users: map<nat, User>) {
    forall j, k :: j in users && k in users && users[j].username == users[k].username ==> j == k
  }
}
