# Reading tracker: library store and reading statistics

This project models the core of a small Flask reading tracker. Users register
and log in. They keep a list of books and mark each one finished or currently
being read. They attach notes (chapter, page, text) to books and look at a
per-year statistics page. The model covers the store behind the request
handlers, which holds three tables (users, books, notes) keyed by integer ids,
and the statistics the `stats` handler computes from it.

- `Models` (`models.dfy`): the `User`, `Book` and `Note` records with their
  column defaults and required fields. Also the two status transitions
  (`Finish`, `Revert`) and the invariant "finished exactly when a finish date
  is present".
- `Ids` (`ids.dfy`): id assignment. The tables use INTEGER PRIMARY KEY without
  AUTOINCREMENT, so SQLite gives a new row the largest id plus one (1 in an
  empty table). Ids are fresh and larger than every existing id.
- `Queries` (`queries.dfy`): `home`, `current` and `finished` as one filter
  followed by a newest-id-first ordering (`Select`), and `get_or_404`.
- `Accounts` (`accounts.dfy`): the username look-up used by `register` and
  `login`, and `User.set_password` / `User.check_password`. The password hash is opaque: `check` stands for
  `check_password_hash`, and `hashOf` for `generate_password_hash`. Nothing is
  assumed about either.
- `Stats` (`stats.dfy`): the `stats` handler. It gives the dense twelve-entry
  monthly count, the total, the two-column split, the ten selectable years and
  the default year.
- `Standalone` (`standalone.dfy`): the older single-file copy `app.py`. Its
  handlers have the same store effects as the blueprint's (the differences
  are listed below). Its stats handler lacks the `if book.finish_date` guard. A lemma proves it
  renders the same page as the blueprint's.
- `Store` (`store.dfy`): class `Library`. It holds the three tables as `map`
  fields and has one method per mutating handler (`register`, `book`,
  `delete_book`, `delete_note`, `book_details`, `mark_as_finished`,
  `mark_as_current`) plus the user-deletion cascade. `Valid()` is the store
  invariant every method keeps:
  - records are stored under their own id;
  - usernames are unique;
  - every book has an existing owner;
  - every note has an existing book and user;
  - every book is finished exactly when it has a finish date.

The caller's user id comes from the login session in the application; here it
is an explicit argument. The model follows the code: deleting a book or note,
adding a note and changing a book's status look the record up by id alone,
with no check of who owns it. The sole precondition on the caller is the one
`@login_required` gives: the caller is an existing user.

`app.py`'s handlers have the same store effects as those of `app/routes.py`,
so the members below model both. They differ in three ways: `book` and
`delete_book` in `app.py` redirect to `'/'` (app.py:104, 113); `current` and
`finished` filter with `finished.is_(...)` (app.py:83, 90); and the stats
handler has no `if book.finish_date` guard (app.py:190).

| blueprint | app.py |
|---|---|
| register, 22-33 | 37-49 |
| login, 38-45 | 53-61 |
| home / current / finished, 57-73 | 74-91 |
| addb, 78-84 | 97-104 |
| delete_book, 89-93 | 108-113 |
| delete_note, 98-102 | 119-124 |
| book_details, 107-125 | 130-149 |
| status toggles, 130-145 | 155-171 |

`app.py` filters on `finished.is_(False)` rather than `finished=False`. The
two agree because the column is never null: it defaults to false and both
toggles set it.

Two points where the model keeps the code's actual behaviour:
- `register` and add-book do not reject empty or whitespace-only fields;
  only a missing title or author (`form.get` giving None) fails, by the
  NOT NULL constraint.
- No handler checks ownership.

## Model

| member | source | states |
|---|---|---|
| `Models.NewBook` | app/models.py:24-30 | a new book is not finished and has no finish date, so it is status-consistent; it has the given id, title, author and owner |
| `Models.Finish` | app/routes.py:130-135 | the book becomes finished with finish date today and is status-consistent; every other field is unchanged |
| `Models.Revert` | app/routes.py:140-145 | the book becomes not finished with no finish date and is status-consistent; every other field is unchanged |
| `Models.RevertUndoesFinish` | app/routes.py:130-145 | finishing a book being read and then marking it current gives back the same book (false/None) |
| `Ids.NextId` | app/models.py:25 | a new row's id is not in the table, is at least 1 and is larger than every existing id; it is the largest id plus one when the table is not empty |
| `Ids.MaxKey` | app/routes.py:58 | the largest id of a non-empty table is in the table and no id exceeds it (the head of `order_by(Book.id.desc())`) |
| `Queries.Select` | app/routes.py:58 | a book is in the listing exactly when it is stored under its id and matches the query; the listing's ids are strictly descending |
| `Queries.Home` | app/routes.py:57-59 | exactly the caller's books, ids strictly descending |
| `Queries.Current` | app/routes.py:64-66 | exactly the caller's books with `finished == false`, ids strictly descending |
| `Queries.Finished` | app/routes.py:71-73 | exactly the caller's books with `finished == true`, ids strictly descending |
| `Queries.SelectLength` | app/routes.py:155-157 | a listing has as many entries as there are rows matching its query |
| `Queries.ListingsPartitionHome` | app/routes.py:58-72 | each of the caller's books is in exactly one of current and finished; together they are the home listing and their lengths add up to its length |
| `Queries.InsertedBookComesFirst` | app/routes.py:79-83 | a book inserted with the next id heads every listing it matches, and the listing is otherwise the old one |
| `Queries.ListingsAreOwnerScoped` | app/routes.py:58 | two different users' home listings share no book |
| `Accounts.FindUser` | app/routes.py:26 | None exactly when no user has the name; otherwise a user with that name, the lowest id among such users |
| `Accounts.Login` | app/routes.py:38-45 | signs in only a user with that username whose stored hash the check accepts; with unique usernames, signs in exactly when such a user exists |
| `Accounts.SetPassword` | app/models.py:15-17 | the stored hash becomes `hashOf(password)`; id and username are unchanged |
| `Accounts.CheckAfterSetPassword` | app/models.py:15-21 | after `set_password`, `check_password` accepts exactly the attempts the check accepts for the new hash; the outcome depends on the stored hash alone |
| `Accounts.LoginAfterRegister` | app/models.py:15-21 | a user stored with `hashOf(password)` logs in with that password and not with one the check rejects, if the check accepts and rejects accordingly |
| `Stats.EveryOther` | app/routes.py:159 | `books[::2]`: length `(n+1)/2`, entry `i` is entry `2i` of the list |
| `Stats.OddIndexed` | app/routes.py:160 | `books[1::2]`: length `n/2`, entry `i` is entry `2i+1` of the list |
| `Stats.ColumnsSplitList` | app/routes.py:159-160 | read alternately, the two columns give back the list; their lengths sum to its length and differ by at most 1; the first column is never the shorter |
| `Stats.ColumnsCoverList` | app/routes.py:159-160 | a book is in one of the columns exactly when it is in the list |
| `Stats.ColumnsDetermined` | app/routes.py:159-160 | two columns of balanced lengths that read alternately give a list are its even and its odd positions, so no other split gives the same page |
| `Stats.RangeDown` | app/routes.py:152 | `range(start, stop, -1)`: `start - stop` entries (none if `start <= stop`), entry `i` is `start - i` |
| `Stats.Years` | app/routes.py:151-152 | 10 years, strictly descending, from the current year down to current year − 9; exactly the years in that range |
| `Stats.MonthlyCounts` | app/routes.py:164 | the monthly data is dense: exactly 12 entries |
| `Stats.MonthlyCountsSumToLength` | app/routes.py:162-164 | when every listed book has a finish date, the 12 month counts sum to the length of the list |
| `Stats.MonthCountOfListing` | app/routes.py:155-162 | month `m`'s count over the year's listing is the number of the caller's books whose finish date has that year and month `m` |
| `Stats.MonthCountsOfListing` | app/routes.py:162-164 | for each `i < 12`, entry `i` of the data is the number of the caller's books finished in month `i+1` of the year |
| `Stats.YearlyStats` | app/routes.py:150-174 | the selected year is the argument, or today's year when absent; 12 entries; entry `m-1` counts the caller's books finished in month `m` of that year; `count` is the number of the caller's books finished in that year and equals the sum of the entries; read alternately, the columns give the newest-first listing of those books, with lengths summing to `count` and the first at most one longer; the years are those of `Years` |
| `Stats.OneBookFinishedInMarch` | app/routes.py:155-164 | one book finished on 2024-03-15 gives count 1, a 1 for March and 0 for every other month |
| `Standalone.UnguardedMonthCount` | app.py:190 | over a list of dated books, a month's count of the unguarded counter is at most the list's length |
| `Standalone.GuardIsRedundant` | app.py:190 | on dated books, the unguarded and the guarded counters agree on every month |
| `Standalone.YearListingIsDated` | app.py:183-185 | the year filter selects only books with a finish date |
| `Standalone.StandaloneStats` | app.py:177-202 | app.py's stats page has 12 monthly entries |
| `Standalone.StandaloneAgreesWithBlueprint` | app.py:183-201 | app.py's stats page is equal, field by field, to the blueprint's |
| `Store.CascadeSplitsNotes` | app/models.py:31 | deleting a book removes exactly the notes attached to it; kept and removed notes add up to the old table |
| `Store.UserCascadeSplitsTables` | app/models.py:12-13 | deleting a user removes exactly the user's books and exactly the notes that are the user's or sit on the user's books; kept notes are unchanged; kept and removed add up to the old tables |
| `Store.Library.Register` | app/routes.py:22-33 | a taken username gives `DuplicateUsername` and no change; otherwise exactly one user, with the next id, that username and the hash of the password (`set_password`), is added and is the one the name finds; books and notes unchanged; the store invariant, unique usernames included, is kept |
| `Store.Library.AddBook` | app/routes.py:78-84 | a missing title or author gives `IntegrityError` and no change; otherwise exactly one book is added: next id, owned by the caller, given title and author, not finished, no date. It heads the caller's home listing above the old one; users and notes unchanged; invariant kept |
| `Store.Library.DeleteBook` | app/routes.py:89-93 | a missing id gives `NotFound` and no change; otherwise the book is removed and an old note is kept exactly when it is not attached to that book, whoever owns them; users unchanged; invariant kept |
| `Store.Library.DeleteNote` | app/routes.py:98-102 | a missing id gives `NotFound` and no change; otherwise exactly that note is removed and its book id (an existing book) is the redirect target; books and users unchanged |
| `Store.Library.BookDetails` | app/routes.py:107-125 | looked up with `GetOr404`: a missing book gives `NotFound` and no change; form id "note" adds exactly one note with the next id, the given fields, that book and the caller as author; any other form id changes nothing |
| `Store.Library.MarkAsFinished` | app/routes.py:130-135 | looked up with `GetOr404`: a missing id gives `NotFound` and no change; otherwise that book, and only it, becomes `Finish(book, today)`; invariant kept |
| `Store.Library.MarkAsCurrent` | app/routes.py:140-145 | looked up with `GetOr404`: a missing id gives `NotFound` and no change; otherwise that book, and only it, becomes `Revert(book)`; invariant kept |
| `Store.Library.DeleteUser` | app/models.py:12-13 | a missing id gives `NotFound` and no change; otherwise the user and all of their books are removed, and an old note is kept exactly when it is neither the user's nor attached to one of the user's books; invariant kept |

## Left out

- Flask routing, redirects, `flash`, templates, HTTP status codes: only each
  handler's effect on the store and the data it renders are modelled. The
  routes `/`, `/logout` and the GET branches that only render a form are not
  modelled.
- The login session (`current_user`, `login_user`, `logout_user`,
  `@login_required`): the caller is an explicit user id, and `Login` returns
  the id to sign in.
- werkzeug password hashing: `hashOf` and `check` are parameters with no
  assumed properties. `Register` stores `hashOf(password)`, which stands for
  the salted value one call produces.
- The SQLite engine, transactions, `db.create_all` and app/__init__.py wiring:
  the tables are maps. Ids past SQLite's largest rowid, where it would pick an
  unused id at random, are not modelled.
- `date.today()` is the `today` parameter. Days run 1..31 without month
  lengths.
- The string/int coercion of the `year` query argument: the year is an
  `Option<int>` (absent means today's year). A non-numeric year string is not
  modelled.
- The string/int coercion of the chapter and page form fields: they are
  `Option<int>`. SQLite's storing of a non-numeric string in an INTEGER
  column is not modelled.
- Form fields read with `request.form[...]` that are missing (a 400 response)
  are not modelled. `title` and `author` are read with `form.get` and are
  modelled as optional.
- The declared column lengths (`String(150)`, `String(80)`), which SQLite
  does not enforce.
- `month_name` labels: presentation only.
- The GET view of `book_details` (rendering a book with its notes): only the
  lookup `GetOr404` is modelled.
- Store.Library.DeleteBook: a missing id makes `session.delete(None)` raise, so
  the request fails with nothing committed. The model returns `NotFound` with
  the store unchanged; the error response itself is not modelled.
- Store.Library.DeleteNote: the same for a missing note id, where
  `session.delete(None)` raises as well.
- Accounts.Login: the "signs in exactly when a matching user exists"
  direction is stated only for tables with unique usernames. The UNIQUE
  constraint and `Library.Valid()` guarantee that.
- Standalone.StandaloneStats: its own contract states only the 12 entries.
  Its full content is stated by `StandaloneAgreesWithBlueprint`.
