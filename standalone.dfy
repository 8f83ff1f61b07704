/**
 The older single-file copy of the application (app.py). Its handlers have
 the same effects on the store as the blueprint's, and differ from them in
 three ways: `book` and `delete_book` redirect to '/' instead of the home
 page's route name; `current` and `finished` filter with
 `finished.is_(False)` and `finished.is_(True)`, which agree with
 `finished=False` and `finished=True` because the column is never null; and
 its stats page counts months with
 `Counter(book.finish_date.month for book in books)`, without the
 blueprint's `if book.finish_date` guard. This module models that stats
 handler and shows it renders the same page.
 */
module Standalone {
  import opened Models
  import opened Queries
  import opened Stats

  /**
   The unguarded counter read at month `m`. Reading `.month` of a null
   date would raise, so every book of the list must be dated.
   */
  function UnguardedMonthCount(bs: seq<Book>, m: int): (n: nat)
    requires Dated(bs)
    ensures n <= |bs|
  {
    if bs == [] then 0
    else (if bs[0].finishDate.value.month == m then 1 else 0) + UnguardedMonthCount(bs[1..], m)
  }

  /** On a list of dated books the guard filters nothing out. */
  lemma {:induction false} GuardIsRedundant(bs: seq<Book>, m: int)
    requires Dated(bs)
    ensures UnguardedMonthCount(bs, m) == MonthCount(bs, m)
  {
    if bs != [] {
      GuardIsRedundant(bs[1..], m);
    }
  }

  /** The year filter only keeps books that have a finish date. */
  lemma YearListingIsDated(books: map<nat, Book>, caller: nat, year: int)
    requires BooksKeyed(books)
    ensures Dated(Select(books, FinishedInYear(caller, year)))
  {
  }

  /** The `stats` handler of app.py. */
  function StandaloneStats(books: map<nat, Book>, caller: nat, year: Option<int>, today: Date): (v: StatsView)
    requires BooksKeyed(books)
    ensures |v.data| == 12
  {
    var selected := SelectedYear(year, today);
    var listed := Select(books, FinishedInYear(caller, selected));
    YearListingIsDated(books, caller, selected);
    var data := seq(12, i requires 0 <= i < 12 => UnguardedMonthCount(listed, i + 1));
    StatsView(data, EveryOther(listed), OddIndexed(listed), Years(today.year), selected, |listed|)
  }

  /** Both copies of the stats handler render the same page. */
  lemma StandaloneAgreesWithBlueprint(books: map<nat, Book>, caller: nat, year: Option<int>, today: Date)
    requires BooksKeyed(books)
    ensures StandaloneStats(books, caller, year, today) == YearlyStats(books, caller, year, today)
  {
    var selected := SelectedYear(year, today);
    var listed := Select(books, FinishedInYear(caller, selected));
    YearListingIsDated(books, caller, selected);
    forall m | 1 <= m <= 12
      ensures UnguardedMonthCount(listed, m) == MonthCount(listed, m)
    {
      GuardIsRedundant(listed, m);
    }
    assert StandaloneStats(books, caller, year, today).data == MonthlyCounts(listed);
  }
}
