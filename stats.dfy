/**
 The yearly statistics page: the caller's books finished in the selected
 year, a dense count per month, the book list split into two columns, and
 the ten years offered in the year picker.
 */
module Stats {
  import opened Models
  import opened Queries

  /** `s[::2]`: the elements at even positions. */
  function EveryOther<T>(s: seq<T>): (r: seq<T>)
    ensures |r| == (|s| + 1) / 2
    ensures forall i :: 0 <= i < |r| ==> r[i] == s[2 * i]
    decreases |s|
  {
    if |s| <= 1 then s else [s[0]] + EveryOther(s[2..])
  }

  /** `s[1::2]`: the elements at odd positions. */
  function OddIndexed<T>(s: seq<T>): (r: seq<T>)
    ensures |r| == |s| / 2
    ensures forall i :: 0 <= i < |r| ==> r[i] == s[2 * i + 1]
  {
    if s == [] then [] else EveryOther(s[1..])
  }

  /** Merges two columns back into one list, alternating between them. */
  function Interleave<T>(a: seq<T>, b: seq<T>): seq<T>
    decreases |a| + |b|
  {
    if a == [] then b else [a[0]] + Interleave(b, a[1..])
  }

  /**
   The two columns hold every book once: read alternately they give back the
   list, their lengths add up to its length, and the first is at most one
   longer than the second.
   */
  lemma {:induction false} ColumnsSplitList<T>(s: seq<T>)
    ensures Interleave(EveryOther(s), OddIndexed(s)) == s
    ensures |EveryOther(s)| + |OddIndexed(s)| == |s|
    ensures 0 <= |EveryOther(s)| - |OddIndexed(s)| <= 1
    decreases |s|
  {
    if s != [] {
      var t := s[1..];
      ColumnsSplitList(t);
      assert EveryOther(s)[1..] == OddIndexed(t) by {
        if |s| > 1 {
          assert EveryOther(s) == [s[0]] + EveryOther(s[2..]);
          assert s[2..] == t[1..];
        }
      }
      assert OddIndexed(s) == EveryOther(t);
      assert Interleave(EveryOther(s), OddIndexed(s))
          == [s[0]] + Interleave(EveryOther(t), OddIndexed(t));
      assert s == [s[0]] + t;
    }
  }

  /** `list(range(start, stop, -1))`. */
  function RangeDown(start: int, stop: int): (r: seq<int>)
    ensures |r| == if start > stop then start - stop else 0
    ensures forall i :: 0 <= i < |r| ==> r[i] == start - i
    decreases start - stop
  {
    if start <= stop then [] else [start] + RangeDown(start - 1, stop)
  }

  /** The year picker: the current year and the nine before it, newest first. */
  function Years(currentYear: int): (r: seq<int>)
    ensures |r| == 10 && r[0] == currentYear && r[9] == currentYear - 9
    ensures forall i, j :: 0 <= i < j < |r| ==> r[i] > r[j]
    ensures forall y :: y in r <==> currentYear - 9 <= y <= currentYear
  {
    var r := RangeDown(currentYear, currentYear - 10);
    assert forall y :: y in r ==> currentYear - 9 <= y <= currentYear;
    YearsInRange(r, currentYear);
    r
  }

  lemma YearsInRange(r: seq<int>, currentYear: int)
    requires |r| == 10 && forall i :: 0 <= i < 10 ==> r[i] == currentYear - i
    ensures forall y :: currentYear - 9 <= y <= currentYear ==> y in r
  {
    forall y | currentYear - 9 <= y <= currentYear
      ensures y in r
    {
      assert r[currentYear - y] == y;
    }
  }

  predicate FinishedInMonth(b: Book, m: int) {
    b.finishDate.Some? && b.finishDate.value.month == m
  }

  /**
   `Counter(book.finish_date.month for book in books if book.finish_date)`
   read at month `m`: how many dated books of the list fall in that month.
   */
  function MonthCount(bs: seq<Book>, m: int): nat {
    if bs == [] then 0
    else (if FinishedInMonth(bs[0], m) then 1 else 0) + MonthCount(bs[1..], m)
  }

  /** `[month_counts.get(i, 0) for i in range(1, 13)]`. */
  function MonthlyCounts(bs: seq<Book>): (data: seq<nat>)
    ensures |data| == 12
  {
    seq(12, i requires 0 <= i < 12 => MonthCount(bs, i + 1))
  }

  function Sum(s: seq<nat>): nat {
    if s == [] then 0 else s[0] + Sum(s[1..])
  }

  /** How many books of the list have a finish date in month `m` or later. */
  function DatedFrom(bs: seq<Book>, m: int): nat {
    if bs == [] then 0
    else (if bs[0].finishDate.Some? && bs[0].finishDate.value.month >= m then 1 else 0)
         + DatedFrom(bs[1..], m)
  }

  predicate Dated(bs: seq<Book>) {
    forall i :: 0 <= i < |bs| ==> bs[i].finishDate.Some?
  }

  lemma {:induction false} DatedFromSplit(bs: seq<Book>, m: int)
    ensures DatedFrom(bs, m) == MonthCount(bs, m) + DatedFrom(bs, m + 1)
  {
    if bs != [] {
      DatedFromSplit(bs[1..], m);
    }
  }

  lemma {:induction false} NoneAfterDecember(bs: seq<Book>)
    ensures DatedFrom(bs, 13) == 0
  {
    if bs != [] {
      NoneAfterDecember(bs[1..]);
    }
  }

  lemma {:induction false} AllFromJanuary(bs: seq<Book>)
    requires Dated(bs)
    ensures DatedFrom(bs, 1) == |bs|
  {
    if bs != [] {
      AllFromJanuary(bs[1..]);
    }
  }

  lemma {:induction false} MonthlySuffixSum(bs: seq<Book>, j: nat)
    requires j <= 12
    ensures Sum(MonthlyCounts(bs)[j..]) == DatedFrom(bs, j + 1)
    decreases 12 - j
  {
    var data := MonthlyCounts(bs);
    if j == 12 {
      NoneAfterDecember(bs);
    } else {
      MonthlySuffixSum(bs, j + 1);
      assert data[j..][1..] == data[j + 1..];
      DatedFromSplit(bs, j + 1);
    }
  }

  /** When every listed book has a finish date, the twelve month counts add up to the list's length. */
  lemma MonthlyCountsSumToLength(bs: seq<Book>)
    requires Dated(bs)
    ensures Sum(MonthlyCounts(bs)) == |bs|
  {
    MonthlySuffixSum(bs, 0);
    assert MonthlyCounts(bs)[0..] == MonthlyCounts(bs);
    AllFromJanuary(bs);
  }

  /** The ids of the caller's books whose finish date lies in the given year and month. */
  function FinishedIn(books: map<nat, Book>, caller: nat, year: int, m: int): set<nat> {
    set k | k in books && Matches(books[k], FinishedInYear(caller, year)) && FinishedInMonth(books[k], m)
  }

  /** Taking one book out of the table takes at most that book out of a month's set. */
  lemma FinishedInWithout(books: map<nat, Book>, top: nat, caller: nat, year: int, m: int)
    requires top in books
    ensures top !in FinishedIn(books - {top}, caller, year, m)
    ensures FinishedIn(books, caller, year, m)
         == FinishedIn(books - {top}, caller, year, m)
            + (if Matches(books[top], FinishedInYear(caller, year)) && FinishedInMonth(books[top], m)
               then {top} else {})
  {
    var rest := books - {top};
    forall k | k != top && k in books
      ensures k in rest && rest[k] == books[k]
    {
    }
  }

  /** A month's count over the year's listing is the number of the caller's books finished in that month. */
  lemma {:induction false} MonthCountOfListing(books: map<nat, Book>, caller: nat, year: int, m: int)
    requires BooksKeyed(books)
    ensures MonthCount(Select(books, FinishedInYear(caller, year)), m) == |FinishedIn(books, caller, year, m)|
    decreases books.Keys
  {
    if books.Keys != {} {
      var q := FinishedInYear(caller, year);
      var top := Ids.MaxKey(books.Keys);
      var rest := books - {top};
      MonthCountOfListing(rest, caller, year, m);
      FinishedInWithout(books, top, caller, year, m);
      if Matches(books[top], q) {
        var tail := Select(rest, q);
        assert ([books[top]] + tail)[1..] == tail;
      }
    }
  }

  /** What the stats page is rendered with (the month labels aside). */
  datatype StatsView = StatsView(
    data: seq<nat>,
    bookscol1: seq<Book>,
    bookscol2: seq<Book>,
    years: seq<int>,
    selectedYear: int,
    count: nat)

  /** `request.args.get('year', default=current_year)`. */
  function SelectedYear(year: Option<int>, today: Date): (y: int)
    ensures year.Some? ==> y == year.value
    ensures year.None? ==> y == today.year
  {
    match year
    case Some(y) => y
    case None => today.year
  }

  /** The `stats` handler of the blueprint. */
  function YearlyStats(books: map<nat, Book>, caller: nat, year: Option<int>, today: Date): (v: StatsView)
    requires BooksKeyed(books)
    ensures v.selectedYear == SelectedYear(year, today)
    ensures |v.data| == 12
    ensures forall i :: 0 <= i < 12 ==> v.data[i] == |FinishedIn(books, caller, v.selectedYear, i + 1)|
    ensures v.count == |Matching(books, FinishedInYear(caller, v.selectedYear))|
    ensures Sum(v.data) == v.count
    ensures forall b :: b in v.bookscol1 || b in v.bookscol2 <==>
              b.id in books && books[b.id] == b && Matches(b, FinishedInYear(caller, v.selectedYear))
    ensures Interleave(v.bookscol1, v.bookscol2) == Select(books, FinishedInYear(caller, v.selectedYear))
    ensures |v.bookscol1| + |v.bookscol2| == v.count
    ensures 0 <= |v.bookscol1| - |v.bookscol2| <= 1
    ensures v.years == Years(today.year)
  {
    var selected := SelectedYear(year, today);
    var listed := Select(books, FinishedInYear(caller, selected));
    SelectLength(books, FinishedInYear(caller, selected));
    MonthlyCountsSumToLength(listed);
    ColumnsSplitList(listed);
    ColumnsCoverList(listed);
    MonthCountsOfListing(books, caller, selected);
    StatsView(MonthlyCounts(listed), EveryOther(listed), OddIndexed(listed),
              Years(today.year), selected, |listed|)
  }

  /**
   Two balanced columns that read alternately give a list are that list's
   even and odd positions: no other split renders the same page.
   */
  lemma {:induction false} ColumnsDetermined<T>(a: seq<T>, b: seq<T>, s: seq<T>)
    requires Interleave(a, b) == s && 0 <= |a| - |b| <= 1
    ensures a == EveryOther(s) && b == OddIndexed(s)
    decreases |s|
  {
    if a != [] {
      var t := Interleave(b, a[1..]);
      assert s == [a[0]] + t;
      assert s[1..] == t;
      if b != [] {
        assert t == [b[0]] + Interleave(a[1..], b[1..]);
        assert s[2..] == Interleave(a[1..], b[1..]);
        ColumnsDetermined(a[1..], b[1..], s[2..]);
        assert EveryOther(s) == [s[0]] + EveryOther(s[2..]);
        if |s| > 2 {
          assert t[2..] == s[3..];
          assert OddIndexed(s) == [b[0]] + EveryOther(s[3..]);
        }
      }
    }
  }

  lemma ColumnsCoverList<T>(s: seq<T>)
    ensures forall x :: x in EveryOther(s) || x in OddIndexed(s) <==> x in s
  {
  }

  lemma MonthCountsOfListing(books: map<nat, Book>, caller: nat, year: int)
    requires BooksKeyed(books)
    ensures forall i :: 0 <= i < 12 ==>
              MonthlyCounts(Select(books, FinishedInYear(caller, year)))[i] == |FinishedIn(books, caller, year, i + 1)|
  {
    forall i | 0 <= i < 12
      ensures MonthlyCounts(Select(books, FinishedInYear(caller, year)))[i] == |FinishedIn(books, caller, year, i + 1)|
    {
      MonthCountOfListing(books, caller, year, i + 1);
    }
  }

  /** One book finished on 15 March 2024 shows as a single March entry of the 2024 page. */
  lemma OneBookFinishedInMarch(books: map<nat, Book>)
    requires books == map[1 := Book(1, "1984", "Orwell", true, Some(Date(2024, 3, 15)), 1)]
    ensures YearlyStats(books, 1, None, Date(2024, 3, 15)).count == 1
    ensures forall i :: 0 <= i < 12 ==> YearlyStats(books, 1, None, Date(2024, 3, 15)).data[i] == if i == 2 then 1 else 0
  {
    assert Matching(books, FinishedInYear(1, 2024)) == {1};
    forall m | 1 <= m <= 12
      ensures FinishedIn(books, 1, 2024, m) == if m == 3 then {1} else {}
    {
    }
  }
}
