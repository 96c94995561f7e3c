/** The reading calendar: exported notes counted per day and per book, and
    the days of one month with their counts and their books, most read
    first. */
module Calendar {
  import opened Wrappers
  import opened JsString
  import opened Collections
  import opened MoonReaderNotes

  /** A `{ count, books }` record; `books` is the Map's entries in insertion
      order. */
  datatype DayRecord = DayRecord(count: nat, books: seq<(string, nat)>)

  /** `it.time.slice(0, 10)`, the `YYYY-MM-DD` part. */
  function Day(time: string): string {
    Slice(time, 0, 10)
  }

  /** `books.get(book) || 0`. */
  function BookCount(books: seq<(string, nat)>, book: string): nat
    decreases |books|
  {
    if |books| == 0 then 0 else if books[0].0 == book then books[0].1 else BookCount(books[1..], book)
  }

  /** `books.set(book, n)`: an existing entry keeps its place, a new one goes
      last. */
  function SetBook(books: seq<(string, nat)>, book: string, n: nat): seq<(string, nat)>
    decreases |books|
  {
    if |books| == 0 then [(book, n)]
    else if books[0].0 == book then [(book, n)] + books[1..]
    else [books[0]] + SetBook(books[1..], book, n)
  }

  function SumCounts(books: seq<(string, nat)>): nat
    decreases |books|
  {
    if |books| == 0 then 0 else books[0].1 + SumCounts(books[1..])
  }

  predicate DistinctNames(books: seq<(string, nat)>) {
    forall i, j :: 0 <= i < j < |books| ==> books[i].0 != books[j].0
  }

  /** `daily.get(day) || { count: 0, books: new Map() }`. */
  function Record(daily: map<string, DayRecord>, day: string): DayRecord {
    if day in daily then daily[day] else DayRecord(0, [])
  }

  /** One pass of the loop of `buildDailyIndex`: an item without a time is
      skipped, any other one counts for its day and its book. */
  function AddItem(daily: map<string, DayRecord>, it: Note): map<string, DayRecord> {
    if |it.time| == 0 then daily
    else
      var day := Day(it.time);
      var rec := Record(daily, day);
      var book := BookKey(it);
      daily[day := DayRecord(rec.count + 1, SetBook(rec.books, book, BookCount(rec.books, book) + 1))]
  }

  /** The index built from `items`, starting empty. */
  function DailyIndex(items: seq<Note>): map<string, DayRecord>
    decreases |items|
  {
    if |items| == 0 then map[] else AddItem(DailyIndex(items[..|items| - 1]), items[|items| - 1])
  }

  /** The number of items with a time on `day`. */
  function Dated(items: seq<Note>, day: string): nat
    decreases |items|
  {
    if |items| == 0 then 0
    else
      var it := items[|items| - 1];
      Dated(items[..|items| - 1], day) + (if |it.time| > 0 && Day(it.time) == day then 1 else 0)
  }

  /** The number of items with a time on `day` whose book key is `book`. */
  function DatedBook(items: seq<Note>, day: string, book: string): nat
    decreases |items|
  {
    if |items| == 0 then 0
    else
      var it := items[|items| - 1];
      DatedBook(items[..|items| - 1], day, book) + (if |it.time| > 0 && Day(it.time) == day && BookKey(it) == book then 1 else 0)
  }

  lemma {:induction false} SetBookCount(books: seq<(string, nat)>, book: string, n: nat)
    ensures BookCount(SetBook(books, book, n), book) == n
    ensures forall other :: other != book ==> BookCount(SetBook(books, book, n), other) == BookCount(books, other)
    decreases |books|
  {
    if |books| > 0 && books[0].0 != book {
      SetBookCount(books[1..], book, n);
      assert ([books[0]] + SetBook(books[1..], book, n))[1..] == SetBook(books[1..], book, n);
    } else if |books| > 0 {
      assert ([(book, n)] + books[1..])[1..] == books[1..];
    }
  }

  lemma {:induction false} SetBookSum(books: seq<(string, nat)>, book: string, n: nat)
    ensures SumCounts(SetBook(books, book, n)) + BookCount(books, book) == SumCounts(books) + n
    decreases |books|
  {
    if |books| > 0 && books[0].0 != book {
      SetBookSum(books[1..], book, n);
      assert ([books[0]] + SetBook(books[1..], book, n))[1..] == SetBook(books[1..], book, n);
    } else if |books| > 0 {
      assert ([(book, n)] + books[1..])[1..] == books[1..];
    } else {
      assert [(book, n)][1..] == [];
    }
  }

  lemma {:induction false} SetBookMembers(books: seq<(string, nat)>, book: string, n: nat)
    ensures forall x :: x in SetBook(books, book, n) ==> x.0 == book || x in books
    decreases |books|
  {
    if |books| > 0 && books[0].0 != book {
      SetBookMembers(books[1..], book, n);
    }
  }

  /** `set` keeps the names distinct. */
  lemma {:induction false} SetBookNames(books: seq<(string, nat)>, book: string, n: nat)
    requires DistinctNames(books)
    ensures DistinctNames(SetBook(books, book, n))
    decreases |books|
  {
    if |books| > 0 {
      var tail := books[1..];
      assert DistinctNames(tail) by {
        forall i, j | 0 <= i < j < |tail| ensures tail[i].0 != tail[j].0 {
          assert tail[i] == books[i + 1] && tail[j] == books[j + 1];
        }
      }
      if books[0].0 != book {
        SetBookNames(tail, book, n);
        var rest := SetBook(tail, book, n);
        SetBookMembers(tail, book, n);
        assert forall x :: x in rest ==> x.0 != books[0].0 by {
          forall x | x in rest ensures x.0 != books[0].0 {
            if x.0 != book {
              var m :| 0 <= m < |tail| && tail[m] == x;
              assert books[m + 1] == x;
            }
          }
        }
        ConsDistinct(books[0], rest);
      } else {
        assert forall x :: x in tail ==> x.0 != book by {
          forall x | x in tail ensures x.0 != book {
            var m :| 0 <= m < |tail| && tail[m] == x;
            assert books[m + 1] == x;
          }
        }
        ConsDistinct((book, n), tail);
      }
    }
  }

  lemma ConsDistinct(x: (string, nat), rest: seq<(string, nat)>)
    requires DistinctNames(rest) && forall y :: y in rest ==> y.0 != x.0
    ensures DistinctNames([x] + rest)
  {
    var r := [x] + rest;
    forall i, j | 0 <= i < j < |r| ensures r[i].0 != r[j].0 {
      assert r[j] == rest[j - 1];
      if i > 0 { assert r[i] == rest[i - 1]; }
    }
  }

  /** What one day's record holds after counting `items`. */
  ghost predicate RecordFits(items: seq<Note>, day: string, rec: DayRecord) {
    rec.count == Dated(items, day)
    && SumCounts(rec.books) == rec.count
    && DistinctNames(rec.books)
    && (forall book :: BookCount(rec.books, book) == DatedBook(items, day, book))
  }

  /** A day is in the index exactly when some item with a time falls on it;
      its count is the number of those items, each book's count the number
      of them with that book, and the book counts add up to the day's count. */
  lemma {:induction false} DailyIndexSpec(items: seq<Note>, day: string)
    ensures day in DailyIndex(items) <==> Dated(items, day) > 0
    ensures day in DailyIndex(items) ==> RecordFits(items, day, DailyIndex(items)[day])
    decreases |items|
  {
    if |items| > 0 {
      var init := items[..|items| - 1];
      var it := items[|items| - 1];
      DailyIndexSpec(init, day);
      if |it.time| > 0 && Day(it.time) == day {
        IndexOnDay(items, day);
      } else {
        IndexOtherDay(items, day);
      }
    }
  }

  /** The index over `items[..k]` answers for `day` as the specification says. */
  ghost predicate IndexFits(items: seq<Note>, day: string) {
    (day in DailyIndex(items) <==> Dated(items, day) > 0)
    && (day in DailyIndex(items) ==> RecordFits(items, day, DailyIndex(items)[day]))
  }

  /** An item on `day` adds one to the day and one to its book. */
  lemma IndexOnDay(items: seq<Note>, day: string)
    requires |items| > 0 && IndexFits(items[..|items| - 1], day)
    requires |items[|items| - 1].time| > 0 && Day(items[|items| - 1].time) == day
    ensures IndexFits(items, day)
  {
    var init := items[..|items| - 1];
    var it := items[|items| - 1];
    var before := DailyIndex(init);
    var rec := Record(before, day);
    var book := BookKey(it);
    var books := SetBook(rec.books, book, BookCount(rec.books, book) + 1);
    assert DailyIndex(items) == before[day := DayRecord(rec.count + 1, books)];
    assert rec.count == Dated(init, day) && SumCounts(rec.books) == rec.count && DistinctNames(rec.books);
    SetBookSum(rec.books, book, BookCount(rec.books, book) + 1);
    SetBookNames(rec.books, book, BookCount(rec.books, book) + 1);
    forall b ensures BookCount(books, b) == DatedBook(items, day, b) {
      BookOnDay(items, day, b);
    }
  }

  /** The count of one book on the day of the added item. */
  lemma BookOnDay(items: seq<Note>, day: string, b: string)
    requires |items| > 0 && IndexFits(items[..|items| - 1], day)
    requires |items[|items| - 1].time| > 0 && Day(items[|items| - 1].time) == day
    ensures var rec := Record(DailyIndex(items[..|items| - 1]), day);
      var book := BookKey(items[|items| - 1]);
      BookCount(SetBook(rec.books, book, BookCount(rec.books, book) + 1), b) == DatedBook(items, day, b)
  {
    var init := items[..|items| - 1];
    var before := DailyIndex(init);
    var rec := Record(before, day);
    var book := BookKey(items[|items| - 1]);
    SetBookCount(rec.books, book, BookCount(rec.books, book) + 1);
    if day in before {
      assert BookCount(rec.books, b) == DatedBook(init, day, b);
    } else {
      DatedBookZero(init, day, b);
    }
  }

  /** An item without a time, or on another day, leaves `day` as it was. */
  lemma IndexOtherDay(items: seq<Note>, day: string)
    requires |items| > 0 && IndexFits(items[..|items| - 1], day)
    requires |items[|items| - 1].time| == 0 || Day(items[|items| - 1].time) != day
    ensures IndexFits(items, day)
  {
    var init := items[..|items| - 1];
    var it := items[|items| - 1];
    var before := DailyIndex(init);
    assert DailyIndex(items) == AddItem(before, it);
    assert day in DailyIndex(items) <==> day in before;
    assert day in before ==> DailyIndex(items)[day] == before[day];
    assert Dated(items, day) == Dated(init, day);
    forall b ensures DatedBook(items, day, b) == DatedBook(init, day, b) {
    }
  }

  lemma {:induction false} DatedBookZero(items: seq<Note>, day: string, book: string)
    requires Dated(items, day) == 0
    ensures DatedBook(items, day, book) == 0
    decreases |items|
  {
    if |items| > 0 {
      DatedBookZero(items[..|items| - 1], day, book);
    }
  }

  // ---------------------------------------------------------------------
  // The days of a month

  /** `{ iso, count, books }` of `getMonthDays`. */
  datatype DayView = DayView(iso: string, count: nat, books: seq<(string, nat)>)

  /** The comparator `(a, b) => b[1] - a[1]` as "may stay before". */
  predicate MoreRead(a: (string, nat), b: (string, nat)) {
    a.1 >= b.1
  }

  /** One entry of `getMonthDays`. */
  function View(daily: map<string, DayRecord>, iso: string): DayView {
    var rec := Record(daily, iso);
    DayView(iso, rec.count, SortBy(rec.books, MoreRead))
  }

  /** `days` are the views of the first days of the month, in order. */
  ghost predicate MonthViews(daily: map<string, DayRecord>, y: nat, month: nat, days: seq<DayView>) {
    forall k :: 0 <= k < |days| ==> days[k] == View(daily, IsoDate(y, month, k + 1))
  }

  /** The views of the first days of a month, one day longer. */
  lemma ViewsSnoc(daily: map<string, DayRecord>, y: nat, month: nat, days: seq<DayView>, view: DayView)
    requires MonthViews(daily, y, month, days)
    requires view == View(daily, IsoDate(y, month, |days| + 1))
    ensures MonthViews(daily, y, month, days + [view])
  {
    forall k | 0 <= k < |days| + 1 ensures (days + [view])[k] == View(daily, IsoDate(y, month, k + 1)) {
      if k < |days| {
        assert (days + [view])[k] == days[k];
      }
    }
  }

  /** Date.UTC reads a year from 0 to 99 as 1900 to 1999. */
  function FullYear(year: int): int {
    if 0 <= year <= 99 then 1900 + year else year
  }

  predicate IsLeap(y: int) {
    y % 4 == 0 && (y % 100 != 0 || y % 400 == 0)
  }

  /** `new Date(Date.UTC(year, month, 0)).getUTCDate()`. */
  function DaysInMonth(y: int, month: int): (n: nat)
    requires 1 <= month <= 12
    ensures 28 <= n <= 31
  {
    if month == 2 then (if IsLeap(y) then 29 else 28)
    else if month == 4 || month == 6 || month == 9 || month == 11 then 30
    else 31
  }

  /** `toISOString().slice(0, 10)` of a date of the years 0 to 9999. */
  function IsoDate(y: nat, month: nat, d: nat): string {
    PadStart(Dec(y), 4, '0') + "-" + PadStart(Dec(month), 2, '0') + "-" + PadStart(Dec(d), 2, '0')
  }

  class ReadingCalendar {
    var data: seq<Note>
    var daily: map<string, DayRecord>

    constructor()
      ensures data == [] && daily == map[]
    {
      data := [];
      daily := map[];
    }

    /** `load()` once the file is fetched (`None` when it is missing or is
        not JSON): the data is replaced and the index rebuilt, or nothing
        changes. */
    method Load(fetched: Option<seq<Note>>) returns (ok: bool)
      modifies this
      ensures ok <==> fetched.Some?
      ensures ok ==> data == fetched.value && daily == DailyIndex(data)
      ensures !ok ==> data == old(data) && daily == old(daily)
    {
      if fetched.None? {
        return false;
      }
      data := fetched.value;
      BuildDailyIndex();
      return true;
    }

    /** `buildDailyIndex()`: the index is cleared and rebuilt from `data` alone,
        so building twice gives the same index. */
    method BuildDailyIndex()
      modifies this
      ensures data == old(data)
      ensures daily == DailyIndex(data)
    {
      daily := map[];
      var items := data;
      for i := 0 to |items|
        invariant data == items
        invariant daily == DailyIndex(items[..i])
      {
        var it := items[i];
        assert items[..i + 1][..i] == items[..i];
        if |it.time| > 0 {
          var day := Slice(it.time, 0, 10);
          var rec: DayRecord;
          if day in daily {
            rec := daily[day];
          } else {
            rec := DayRecord(0, []);
          }
          var book := BookKey(it);
          rec := DayRecord(rec.count + 1, SetBook(rec.books, book, BookCount(rec.books, book) + 1));
          daily := daily[day := rec];
        }
      }
      assert items[..|items|] == items;
    }

    /** `getMonthDays(year, month)`: one entry per day of the month, in order. */
    method GetMonthDays(year: int, month: int) returns (days: seq<DayView>)
      requires 0 <= year <= 9999 && 1 <= month <= 12
      ensures |days| == DaysInMonth(FullYear(year), month)
      ensures forall k :: 0 <= k < |days| ==> days[k] == View(daily, IsoDate(FullYear(year), month, k + 1))
    {
      var y := FullYear(year);
      var last := DaysInMonth(y, month);
      days := [];
      var d := 1;
      while d <= last
        invariant 1 <= d <= last + 1
        invariant |days| == d - 1
        invariant MonthViews(daily, y, month, days)
      {
        var iso := IsoDate(y, month, d);
        var rec := if iso in daily then daily[iso] else DayRecord(0, []);
        var books := SortBy(rec.books, MoreRead);
        var view := DayView(iso, rec.count, books);
        assert view == View(daily, IsoDate(y, month, |days| + 1));
        ViewsSnoc(daily, y, month, days, view);
        days := days + [view];
        d := d + 1;
      }
      assert MonthViews(daily, y, month, days);
    }
  }

  /** A written date is `YYYY-MM-DD` and is its own day key. */
  lemma IsoDateShape(y: nat, month: nat, d: nat)
    requires y <= 9999 && month <= 99 && d <= 99
    ensures |IsoDate(y, month, d)| == 10
    ensures IsoDate(y, month, d)[4] == '-' && IsoDate(y, month, d)[7] == '-'
    ensures Day(IsoDate(y, month, d)) == IsoDate(y, month, d)
  {
    assert Pow(10, 4) == 10000 && Pow(10, 2) == 100;
    RadixStringLength(y, 10, 4);
    RadixStringLength(month, 10, 2);
    RadixStringLength(d, 10, 2);
  }

  /** A note counts for the day whose date its time starts with. */
  lemma TimeOnDay(time: string, y: nat, month: nat, d: nat)
    requires y <= 9999 && month <= 99 && d <= 99
    requires StartsWith(time, IsoDate(y, month, d))
    ensures Day(time) == IsoDate(y, month, d)
  {
    IsoDateShape(y, month, d);
  }

  /** A day without notes shows count 0 and no books; any day's books are
      its own, most read first. */
  lemma ViewSpec(daily: map<string, DayRecord>, iso: string)
    ensures iso !in daily ==> View(daily, iso).count == 0 && View(daily, iso).books == []
    ensures forall i, j :: 0 <= i < j < |View(daily, iso).books| ==> View(daily, iso).books[i].1 >= View(daily, iso).books[j].1
    ensures multiset(View(daily, iso).books) == multiset(Record(daily, iso).books)
  {
    assert TotalPreorder(MoreRead);
    SortBySorted(Record(daily, iso).books, MoreRead);
  }

  /** The count shown for a day is the number of notes on that day, and the
      books shown add up to it. */
  lemma MonthDayCount(items: seq<Note>, iso: string)
    ensures View(DailyIndex(items), iso).count == Dated(items, iso)
    ensures SumCounts(Record(DailyIndex(items), iso).books) == Dated(items, iso)
  {
    DailyIndexSpec(items, iso);
  }
}
