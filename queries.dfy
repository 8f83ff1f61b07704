/**
 The read-only book queries of the handlers: a filter on the book table
 followed by `order_by(Book.id.desc())`, and the fetch by id of the detail
 and status views.
 */
module Queries {
  import opened Models
  import opened Ids

  /** The filters the handlers put on the book table. */
  datatype Query =
    | OwnedBy(user: nat)                       // filter_by(user_id=...)
    | WithStatus(user: nat, finished: bool)    // filter_by(user_id=..., finished=...)
    | FinishedInYear(user: nat, year: int)     // filter_by(user_id=...).filter(extract('year', finish_date) == year)

  predicate Matches(b: Book, q: Query) {
    match q
    case OwnedBy(u) => b.userId == u
    case WithStatus(u, f) => b.userId == u && b.finished == f
    // a null finish_date makes `extract(...) == year` NULL, which the filter drops
    case FinishedInYear(u, y) => b.userId == u && b.finishDate.Some? && b.finishDate.value.year == y
  }

  /** The ids of the rows a query selects. */
  function Matching(books: map<nat, Book>, q: Query): set<nat> {
    set k | k in books && Matches(books[k], q)
  }

  predicate StrictlyDescending(bs: seq<Book>) {
    forall i, j :: 0 <= i < j < |bs| ==> bs[i].id > bs[j].id
  }

  /** The rows a query selects, newest id first. */
  function Select(books: map<nat, Book>, q: Query): (r: seq<Book>)
    requires BooksKeyed(books)
    ensures forall b :: b in r <==> b.id in books && books[b.id] == b && Matches(b, q)
    ensures StrictlyDescending(r)
    decreases books.Keys
  {
    if books.Keys == {} then []
    else
      var top := MaxKey(books.Keys);
      var rest := Select(books - {top}, q);
      if Matches(books[top], q) then [books[top]] + rest else rest
  }

  /** `home`: all of the caller's books. */
  function Home(books: map<nat, Book>, caller: nat): (r: seq<Book>)
    requires BooksKeyed(books)
    ensures forall b :: b in r <==> b.id in books && books[b.id] == b && b.userId == caller
    ensures StrictlyDescending(r)
  {
    Select(books, OwnedBy(caller))
  }

  /** `current`: the caller's books not yet finished. */
  function Current(books: map<nat, Book>, caller: nat): (r: seq<Book>)
    requires BooksKeyed(books)
    ensures forall b :: b in r <==> b.id in books && books[b.id] == b && b.userId == caller && !b.finished
    ensures StrictlyDescending(r)
  {
    Select(books, WithStatus(caller, false))
  }

  /** `finished`: the caller's finished books. */
  function Finished(books: map<nat, Book>, caller: nat): (r: seq<Book>)
    requires BooksKeyed(books)
    ensures forall b :: b in r <==> b.id in books && books[b.id] == b && b.userId == caller && b.finished
    ensures StrictlyDescending(r)
  {
    Select(books, WithStatus(caller, true))
  }

  /** `Book.query.get_or_404(id)`: any user's book, looked up by id alone. */
  function GetOr404(books: map<nat, Book>, id: nat): (r: Result<Book>)
    ensures r.Ok? <==> id in books
    ensures r.Ok? ==> r.value == books[id]
    ensures r.Err? ==> r.error == NotFound
  {
    if id in books then Ok(books[id]) else Err(NotFound)
  }

  /** A listing has exactly as many entries as the query selects rows. */
  lemma {:induction false} SelectLength(books: map<nat, Book>, q: Query)
    requires BooksKeyed(books)
    ensures |Select(books, q)| == |Matching(books, q)|
    decreases books.Keys
  {
    if books.Keys != {} {
      var top := MaxKey(books.Keys);
      SelectLength(books - {top}, q);
      MatchingWithout(books, top, q);
    }
  }

  /** Taking one book out of the table takes at most that book out of the matching set. */
  lemma MatchingWithout(books: map<nat, Book>, top: nat, q: Query)
    requires top in books
    ensures top !in Matching(books - {top}, q)
    ensures Matching(books, q) == Matching(books - {top}, q) + (if Matches(books[top], q) then {top} else {})
  {
    var rest := books - {top};
    forall k | k != top && k in books
      ensures k in rest && rest[k] == books[k]
    {
    }
  }

  /**
   The current and finished listings split the home listing: each of the
   caller's books is in exactly one of them, and their lengths add up.
   */
  lemma ListingsPartitionHome(books: map<nat, Book>, caller: nat)
    requires BooksKeyed(books)
    ensures forall b :: b in Home(books, caller) <==> b in Current(books, caller) || b in Finished(books, caller)
    ensures forall b :: !(b in Current(books, caller) && b in Finished(books, caller))
    ensures |Home(books, caller)| == |Current(books, caller)| + |Finished(books, caller)|
  {
    SelectLength(books, OwnedBy(caller));
    SelectLength(books, WithStatus(caller, false));
    SelectLength(books, WithStatus(caller, true));
    var all := Matching(books, OwnedBy(caller));
    var cur := Matching(books, WithStatus(caller, false));
    var fin := Matching(books, WithStatus(caller, true));
    assert all == cur + fin;
    assert cur * fin == {};
  }

  /**
   A newly inserted book, which gets an id above every existing one, heads
   every listing it belongs to and leaves the rest of the listing as it was.
   */
  lemma {:induction false} InsertedBookComesFirst(books: map<nat, Book>, b: Book, q: Query)
    requires BooksKeyed(books)
    requires b.id == NextId(books.Keys)
    ensures BooksKeyed(books[b.id := b])
    ensures Select(books[b.id := b], q) == (if Matches(b, q) then [b] else []) + Select(books, q)
  {
    var grown := books[b.id := b];
    assert grown.Keys == books.Keys + {b.id};
    var top := MaxKey(grown.Keys);
    assert b.id <= top;
    assert top == b.id;
    assert grown - {b.id} == books;
  }

  /** Two owners' listings never share a book. */
  lemma ListingsAreOwnerScoped(books: map<nat, Book>, a: nat, c: nat)
    requires BooksKeyed(books)
    requires a != c
    ensures forall b :: !(b in Home(books, a) && b in Home(books, c))
  {
  }
}
