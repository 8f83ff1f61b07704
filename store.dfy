/**
 The library store: the three tables the request handlers change, and one
 method per mutating handler. The caller's user id, which the session
 supplies in the application, is an explicit argument; like the handlers,
 the methods that take a record id do not check who owns the record.
 */
module Store {
  import opened Models
  import opened Ids
  import opened Queries
  import opened Accounts
  import Stats

  /** The ids of the books a user owns. */
  function BooksOf(books: map<nat, Book>, owner: nat): (s: set<nat>)
    ensures forall k :: k in s <==> k in books && books[k].userId == owner
  {
    set k | k in books && books[k].userId == owner
  }

  /**
   The notes left once the books in `gone` are deleted: the `delete-orphan`
   cascade of `Book.notes` removes every note attached to one of them.
   */
  function WithoutNotesOf(notes: map<nat, Note>, gone: set<nat>): (r: map<nat, Note>)
    ensures forall k :: k in r <==> k in notes && notes[k].bookId !in gone
    ensures forall k :: k in r ==> r[k] == notes[k]
  {
    map k | k in notes && notes[k].bookId !in gone :: notes[k]
  }

  /** The notes left once a user is deleted: the `User.notes` cascade. */
  function WithoutNotesBy(notes: map<nat, Note>, owner: nat): (r: map<nat, Note>)
    ensures forall k :: k in r <==> k in notes && notes[k].userId != owner
    ensures forall k :: k in r ==> r[k] == notes[k]
  {
    map k | k in notes && notes[k].userId != owner :: notes[k]
  }

  /** The ids of the notes attached to a book. */
  function NotesOf(notes: map<nat, Note>, bookId: nat): (s: set<nat>)
    ensures forall k :: k in s <==> k in notes && notes[k].bookId == bookId
  {
    set k | k in notes && notes[k].bookId == bookId
  }

  /**
   Deleting a book's notes splits the notes table in two: what the cascade
   removes is exactly the notes attached to the book.
   */
  lemma CascadeSplitsNotes(notes: map<nat, Note>, id: nat)
    ensures forall k :: k in notes ==> (k in WithoutNotesOf(notes, {id}) <==> k !in NotesOf(notes, id))
    ensures |notes| == |WithoutNotesOf(notes, {id})| + |NotesOf(notes, id)|
  {
    var kept := WithoutNotesOf(notes, {id});
    var attached := NotesOf(notes, id);
    forall k
      ensures k in notes.Keys <==> k in kept.Keys || k in attached
      ensures !(k in kept.Keys && k in attached)
    {
    }
    DisjointUnionSize(kept.Keys, attached, notes.Keys);
  }

  /**
   The notes that go with a user under the `User` cascades: the user's own
   notes, and every note attached to one of the user's books.
   */
  function NotesGoneWith(notes: map<nat, Note>, books: map<nat, Book>, owner: nat): set<nat> {
    set k | k in notes && (notes[k].userId == owner || notes[k].bookId in BooksOf(books, owner))
  }

  /**
   Deleting a user splits both tables in two. The books removed are exactly
   the user's; the notes kept are the old notes, unchanged, that do not go
   with the user; and kept plus removed add up to the old tables.
   */
  lemma UserCascadeSplitsTables(books: map<nat, Book>, notes: map<nat, Note>, owner: nat)
    ensures forall k :: k in books ==> (k in books - BooksOf(books, owner) <==> books[k].userId != owner)
    ensures |books| == |books - BooksOf(books, owner)| + |BooksOf(books, owner)|
    ensures forall k :: k in notes ==>
              (k in WithoutNotesOf(WithoutNotesBy(notes, owner), BooksOf(books, owner))
               <==> k !in NotesGoneWith(notes, books, owner))
    ensures forall k :: k in WithoutNotesOf(WithoutNotesBy(notes, owner), BooksOf(books, owner)) ==>
              k in notes && WithoutNotesOf(WithoutNotesBy(notes, owner), BooksOf(books, owner))[k] == notes[k]
    ensures |notes| == |WithoutNotesOf(WithoutNotesBy(notes, owner), BooksOf(books, owner))|
                       + |NotesGoneWith(notes, books, owner)|
  {
    var owned := BooksOf(books, owner);
    var keptBooks := books - owned;
    forall k
      ensures k in books.Keys <==> k in keptBooks.Keys || k in owned
      ensures !(k in keptBooks.Keys && k in owned)
    {
    }
    DisjointUnionSize(keptBooks.Keys, owned, books.Keys);
    var kept := WithoutNotesOf(WithoutNotesBy(notes, owner), owned);
    var gone := NotesGoneWith(notes, books, owner);
    forall k
      ensures k in notes.Keys <==> k in kept.Keys || k in gone
      ensures !(k in kept.Keys && k in gone)
    {
    }
    DisjointUnionSize(kept.Keys, gone, notes.Keys);
  }

  /**
   What the user cascade keeps still refers only to rows it keeps: no book
   of another user and no kept note is left pointing at a deleted row.
   */
  lemma UserCascadeKeepsReferences(users: map<nat, User>, books: map<nat, Book>, notes: map<nat, Note>, owner: nat)
    requires forall k :: k in books ==> books[k].userId in users
    requires forall k :: k in notes ==> notes[k].bookId in books && notes[k].userId in users
    ensures forall k :: k in books - BooksOf(books, owner) ==> books[k].userId in users - {owner}
    ensures forall k :: k in WithoutNotesOf(WithoutNotesBy(notes, owner), BooksOf(books, owner)) ==>
              notes[k].bookId in books - BooksOf(books, owner) && notes[k].userId in users - {owner}
  {
  }

  lemma DisjointUnionSize(a: set<nat>, b: set<nat>, c: set<nat>)
    requires forall k :: k in c <==> k in a || k in b
    requires forall k :: !(k in a && k in b)
    ensures |c| == |a| + |b|
  {
    assert c == a + b;
    assert a * b == {};
  }

  class Library {
    var users: map<nat, User>
    var books: map<nat, Book>
    var notes: map<nat, Note>

    /**
     The store at rest: records sit under their own ids, usernames are
     unique, every book and note points to rows that exist, and a book is
     finished exactly when it has a finish date.
     */
    ghost predicate Valid()
      reads this
    {
      && UsersKeyed(users) && BooksKeyed(books) && NotesKeyed(notes)
      && UniqueUsernames(users)
      && (forall k :: k in books ==> books[k].userId in users && StatusConsistent(books[k]))
      && (forall k :: k in notes ==> notes[k].bookId in books && notes[k].userId in users)
    }

    constructor ()
      ensures Valid()
      ensures users == map[] && books == map[] && notes == map[]
    {
      users, books, notes := map[], map[], map[];
    }

    /** `register`: refuse a taken username, otherwise insert a user with the hashed password. */
    method Register(username: string, password: string, hashOf: string -> string) returns (r: Result<nat>)
      requires Valid()
      modifies this
      ensures Valid()
      ensures books == old(books) && notes == old(notes)
      ensures old(FindUser(users, username)).Some? ==> r == Err(DuplicateUsername) && users == old(users)
      ensures old(FindUser(users, username)).None? ==>
                r == Ok(NextId(old(users).Keys))
                && users == old(users)[r.value := User(r.value, username, hashOf(password))]
      ensures r.Ok? ==> FindUser(users, username) == Some(r.value)
    {
      if FindUser(users, username).Some? {
        return Err(DuplicateUsername);
      }
      var id := NextId(users.Keys);
      var user := SetPassword(User(id, username, ""), password, hashOf);
      users := users[id := user];
      assert forall k :: k in users && users[k].username == username ==> k == id;
      assert users[id].username == username;
      assert FindUser(users, username).Some?;
      r := Ok(id);
    }

    /**
     `book` (POST /addb): insert a book owned by the caller. A missing
     title or author violates NOT NULL and nothing is inserted.
     */
    method AddBook(caller: nat, title: Option<string>, author: Option<string>) returns (r: Result<nat>)
      requires Valid() && caller in users
      modifies this
      ensures Valid()
      ensures users == old(users) && notes == old(notes)
      ensures title.None? || author.None? ==> r == Err(IntegrityError) && books == old(books)
      ensures title.Some? && author.Some? ==>
                r == Ok(NextId(old(books).Keys))
                && books == old(books)[r.value := NewBook(r.value, title.value, author.value, caller)]
      ensures r.Ok? ==> Home(books, caller) == [books[r.value]] + Home(old(books), caller)
    {
      if title.None? || author.None? {
        return Err(IntegrityError);
      }
      var id := NextId(books.Keys);
      var b := NewBook(id, title.value, author.value, caller);
      InsertedBookComesFirst(books, b, OwnedBy(caller));
      books := books[id := b];
      r := Ok(id);
    }

    /** `delete_book`: delete any user's book by id, and its notes with it. */
    method DeleteBook(id: nat) returns (r: Result<()>)
      requires Valid()
      modifies this
      ensures Valid()
      ensures users == old(users)
      ensures id !in old(books) ==> r == Err(NotFound) && books == old(books) && notes == old(notes)
      ensures id in old(books) ==>
                r == Ok(()) && books == old(books) - {id} && notes == WithoutNotesOf(old(notes), {id})
    ensures id in old(books) ==>
              forall k :: k in old(notes) ==> (k in notes <==> k !in NotesOf(old(notes), id))
    {
      if id !in books {
        return Err(NotFound);
      }
      CascadeSplitsNotes(notes, id);
      books := books - {id};
      notes := WithoutNotesOf(notes, {id});
      r := Ok(());
    }

    /** `delete_note`: delete any user's note by id and answer the book to return to. */
    method DeleteNote(id: nat) returns (r: Result<nat>)
      requires Valid()
      modifies this
      ensures Valid()
      ensures users == old(users) && books == old(books)
      ensures id !in old(notes) ==> r == Err(NotFound) && notes == old(notes)
      ensures id in old(notes) ==>
                r == Ok(old(notes)[id].bookId) && r.value in books && notes == old(notes) - {id}
    {
      if id !in notes {
        return Err(NotFound);
      }
      var note := notes[id];
      notes := notes - {id};
      r := Ok(note.bookId);
    }

    /**
     `book_details` on POST: a missing book is not found; a form whose
     `form_id` is "note" attaches a note by the caller to the book, whoever
     owns it; any other form changes nothing. Answers the new note's id.
     */
    method BookDetails(caller: nat, bookId: nat, formId: string,
                       chapter: Option<int>, page: Option<int>, content: string)
      returns (r: Result<Option<nat>>)
      requires Valid() && caller in users
      modifies this
      ensures Valid()
      ensures users == old(users) && books == old(books)
      ensures bookId !in old(books) ==> r == Err(NotFound) && notes == old(notes)
      ensures bookId in old(books) && formId != "note" ==> r == Ok(None) && notes == old(notes)
      ensures bookId in old(books) && formId == "note" ==>
                r == Ok(Some(NextId(old(notes).Keys)))
                && notes == old(notes)[r.value.value := Note(r.value.value, chapter, page, content, bookId, caller)]
    {
      var found := GetOr404(books, bookId);
      if found.Err? {
        return Err(found.error);
      }
      if formId != "note" {
        return Ok(None);
      }
      var id := NextId(notes.Keys);
      notes := notes[id := Note(id, chapter, page, content, bookId, caller)];
      r := Ok(Some(id));
    }

    /** `mark_as_finished`: any user's book, by id, becomes finished today. */
    method MarkAsFinished(bookId: nat, today: Date) returns (r: Result<()>)
      requires Valid()
      modifies this
      ensures Valid()
      ensures users == old(users) && notes == old(notes)
      ensures bookId !in old(books) ==> r == Err(NotFound) && books == old(books)
      ensures bookId in old(books) ==>
                r == Ok(()) && books == old(books)[bookId := Finish(old(books)[bookId], today)]
    {
      var found := GetOr404(books, bookId);
      if found.Err? {
        return Err(found.error);
      }
      books := books[bookId := Finish(found.value, today)];
      r := Ok(());
    }

    /** `mark_as_current`: any user's book, by id, goes back to being read. */
    method MarkAsCurrent(bookId: nat) returns (r: Result<()>)
      requires Valid()
      modifies this
      ensures Valid()
      ensures users == old(users) && notes == old(notes)
      ensures bookId !in old(books) ==> r == Err(NotFound) && books == old(books)
      ensures bookId in old(books) ==>
                r == Ok(()) && books == old(books)[bookId := Revert(old(books)[bookId])]
    {
      var found := GetOr404(books, bookId);
      if found.Err? {
        return Err(found.error);
      }
      books := books[bookId := Revert(found.value)];
      r := Ok(());
    }

    /**
     The cascades declared on `User`: deleting a user deletes the user's
     books, the notes attached to those books, and the user's own notes.
     */
    method DeleteUser(id: nat) returns (r: Result<()>)
      requires Valid()
      modifies this
      ensures Valid()
      ensures id !in old(users) ==>
                r == Err(NotFound) && users == old(users) && books == old(books) && notes == old(notes)
      ensures id in old(users) ==>
                && r == Ok(())
                && users == old(users) - {id}
                && books == old(books) - BooksOf(old(books), id)
                && notes == WithoutNotesOf(WithoutNotesBy(old(notes), id), BooksOf(old(books), id))
    ensures id in old(users) ==>
              forall k :: k in old(notes) ==> (k in notes <==> k !in NotesGoneWith(old(notes), old(books), id))
    {
      if id !in users {
        return Err(NotFound);
      }
      UserCascadeSplitsTables(books, notes, id);
      UserCascadeKeepsReferences(users, books, notes, id);
      var gone := BooksOf(books, id);
      users := users - {id};
      notes := WithoutNotesOf(WithoutNotesBy(notes, id), gone);
      books := books - gone;
      r := Ok(());
    }
  }

  /**
   A session that walks through registration, login, adding a book,
   finishing it on 15 March 2024 and reading the 2024 statistics, using
   nothing but the contracts above.
   */
  method ReadingScenario(hashOf: string -> string, check: (string, string) -> bool)
    requires check(hashOf("pw1"), "pw1") && !check(hashOf("pw1"), "wrong")
  {
    var lib := new Library();
    var u := lib.Register("alice", "pw1", hashOf);
    assert u == Ok(1);
    assert Login(lib.users, "alice", "pw1", check) == Some(1);
    assert Login(lib.users, "alice", "wrong", check) == None;
    var again := lib.Register("alice", "other", hashOf);
    assert again == Err(DuplicateUsername);
    var b := lib.AddBook(1, Some("1984"), Some("Orwell"));
    assert b == Ok(1);
    var today := Date(2024, 3, 15);
    var f := lib.MarkAsFinished(1, today);
    assert lib.books[1].finished && lib.books[1].finishDate == Some(today);
    assert lib.books == map[1 := Book(1, "1984", "Orwell", true, Some(today), 1)];
    Stats.OneBookFinishedInMarch(lib.books);
    var c := lib.MarkAsCurrent(1);
    assert lib.books[1] == NewBook(1, "1984", "Orwell", 1);
  }
}
