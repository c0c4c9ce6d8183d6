/**
 * `filter_month`: the rows of one calendar month, in ascending date order,
 * and the count of them that the monthly summary shows.
 */
module MonthFilter {
  import opened Calendar
  import opened Records

  /** The row-wise test of the boolean mask: the row's date has this year and month. */
  predicate InMonth(e: Entry, year: int, month: int) {
    e.date.year == year && e.date.month == month
  }

  /** `df[mask]`: the rows of the month, in table order. */
  function MonthRows(t: seq<Entry>, year: int, month: int): (r: seq<Entry>)
    ensures |r| <= |t|
  {
    if t == [] then []
    else if InMonth(t[0], year, month) then [t[0]] + MonthRows(t[1..], year, month)
    else MonthRows(t[1..], year, month)
  }

  /** Dates never go down from one row to a later one. */
  predicate Ascending(s: seq<Entry>) {
    forall i, j :: 0 <= i < j < |s| ==> NotAfter(s[i].date, s[j].date)
  }

  /** Dates go strictly up: ascending with no date twice. */
  predicate StrictlyAscending(s: seq<Entry>) {
    forall i, j :: 0 <= i < j < |s| ==> Before(s[i].date, s[j].date)
  }

  /** A row dated no later than every row of an ascending table can go in front of it. */
  lemma PrependAscending(x: Entry, s: seq<Entry>)
    requires Ascending(s)
    requires forall y :: y in s ==> NotAfter(x.date, y.date)
    ensures Ascending([x] + s)
  {
  }

  /** Puts `x` into an ascending table before the first row dated after it. */
  function Insert(x: Entry, s: seq<Entry>): (r: seq<Entry>)
    requires Ascending(s)
    ensures Ascending(r)
    ensures multiset(r) == multiset(s) + multiset{x}
  {
    if s == [] then [x]
    else if NotAfter(x.date, s[0].date) then
      assert forall y :: y in s ==> NotAfter(x.date, y.date) by {
        forall y | y in s ensures NotAfter(x.date, y.date) {
          var j :| 0 <= j < |s| && s[j] == y;
          assert j == 0 || NotAfter(s[0].date, s[j].date);
        }
      }
      PrependAscending(x, s);
      [x] + s
    else
      var rest := Insert(x, s[1..]);
      assert s == [s[0]] + s[1..];
      assert forall y :: y in rest ==> NotAfter(s[0].date, y.date) by {
        forall y | y in rest ensures NotAfter(s[0].date, y.date) {
          assert y in multiset(rest);
          if y != x {
            var j :| 0 <= j < |s[1..]| && s[1..][j] == y;
            assert s[j + 1] == y;
          }
        }
      }
      PrependAscending(s[0], rest);
      [s[0]] + rest
  }

  /**
   * `sort_values("Päivä")`: the rows in ascending date order. The order of
   * rows that share a date is not part of the contract; this is one of the
   * orders the sort may produce.
   */
  function SortByDate(s: seq<Entry>): (r: seq<Entry>)
    ensures Ascending(r)
    ensures multiset(r) == multiset(s)
  {
    if s == [] then []
    else
      assert s == [s[0]] + s[1..];
      Insert(s[0], SortByDate(s[1..]))
  }

  /** `filter_month(df, year, month)`. */
  function FilterMonth(t: seq<Entry>, year: int, month: int): (r: seq<Entry>)
    ensures Ascending(r)
    ensures multiset(r) == multiset(MonthRows(t, year, month))
  {
    if |t| == 0 then t else SortByDate(MonthRows(t, year, month))
  }

  /** A row is kept by the mask exactly when it is in the table and in the month. */
  lemma {:induction false} MonthRowsMembers(t: seq<Entry>, year: int, month: int, e: Entry)
    ensures e in MonthRows(t, year, month) <==> e in t && InMonth(e, year, month)
  {
    if t != [] {
      MonthRowsMembers(t[1..], year, month, e);
      assert t == [t[0]] + t[1..];
    }
  }

  /**
   * The month view holds exactly the rows of that month: every row it returns
   * is in the table and in the month, and every such row is returned.
   */
  lemma FilterMonthExact(t: seq<Entry>, year: int, month: int, e: Entry)
    ensures e in FilterMonth(t, year, month) <==> e in t && InMonth(e, year, month)
  {
    var r := FilterMonth(t, year, month);
    MonthRowsMembers(t, year, month, e);
    assert e in r <==> e in multiset(r);
  }

  /** An empty table gives an empty view, and so does a month with no rows. */
  lemma FilterMonthEmpty(t: seq<Entry>, year: int, month: int)
    ensures FilterMonth(t, year, month) == [] <==> forall e :: e in t ==> !InMonth(e, year, month)
  {
    var r := FilterMonth(t, year, month);
    if r != [] {
      FilterMonthExact(t, year, month, r[0]);
    }
    if exists e :: e in t && InMonth(e, year, month) {
      var e :| e in t && InMonth(e, year, month);
      FilterMonthExact(t, year, month, e);
    }
  }

  /** `len(recent)`: the number of rows of the month, counted with repeats. */
  lemma {:induction false} MonthCount(t: seq<Entry>, year: int, month: int)
    ensures |FilterMonth(t, year, month)| == |MonthRows(t, year, month)|
    ensures |FilterMonth(t, year, month)| <= |t|
    ensures forall e :: multiset(FilterMonth(t, year, month))[e] == multiset(t)[e] || !InMonth(e, year, month)
  {
    var r := FilterMonth(t, year, month);
    assert |r| == |multiset(r)|;
    MonthRowsCount(t, year, month);
  }

  /** The mask keeps every occurrence of a row of the month. */
  lemma {:induction false} MonthRowsCount(t: seq<Entry>, year: int, month: int)
    ensures forall e :: InMonth(e, year, month) ==> multiset(MonthRows(t, year, month))[e] == multiset(t)[e]
  {
    if t != [] {
      MonthRowsCount(t[1..], year, month);
      assert t == [t[0]] + t[1..];
    }
  }
}

/**
 * Why the unspecified order among equal dates does not matter while the
 * table keeps one row per date: the month view is then the one strictly
 * ascending arrangement of the month's rows.
 */
module MonthFilterUnique {
  import opened Calendar
  import opened Records
  import opened MonthFilter

  /** A value at two positions is counted at least twice. */
  lemma CountedTwice(s: seq<Entry>, i: nat, j: nat)
    requires i < j < |s| && s[i] == s[j]
    ensures multiset(s)[s[i]] >= 2
  {
    assert s == s[..i] + [s[i]] + s[i + 1..j] + [s[j]] + s[j + 1..];
  }

  /** With one row per date, no row occurs twice. */
  lemma {:induction false} UniqueDatesCountOnce(t: seq<Entry>)
    requires UniqueDates(t)
    ensures forall x :: multiset(t)[x] <= 1
  {
    if t != [] {
      assert UniqueDates(t[1..]) by {
        forall i, j | 0 <= i < j < |t[1..]| ensures t[1..][i].date != t[1..][j].date {
          assert t[1..][i] == t[i + 1] && t[1..][j] == t[j + 1];
        }
      }
      UniqueDatesCountOnce(t[1..]);
      assert t == [t[0]] + t[1..];
      forall j | 0 <= j < |t[1..]| ensures t[1..][j] != t[0] {
        assert t[1..][j] == t[j + 1];
      }
    }
  }

  /** Taking some of the rows of a table with one row per date keeps one row per date. */
  lemma UniqueDatesSubMultiset(a: seq<Entry>, b: seq<Entry>)
    requires UniqueDates(a) && multiset(b) <= multiset(a)
    ensures UniqueDates(b)
  {
    UniqueDatesCountOnce(a);
    forall i, j | 0 <= i < j < |b| ensures b[i].date != b[j].date {
      if b[i] == b[j] {
        CountedTwice(b, i, j);
      } else {
        assert b[i] in multiset(a) && b[j] in multiset(a);
        var p :| 0 <= p < |a| && a[p] == b[i];
        var q :| 0 <= q < |a| && a[q] == b[j];
        assert p != q;
      }
    }
  }

  /** The mask takes some of the table's rows. */
  lemma {:induction false} MonthRowsSubMultiset(t: seq<Entry>, year: int, month: int)
    ensures multiset(MonthRows(t, year, month)) <= multiset(t)
  {
    if t != [] {
      MonthRowsSubMultiset(t[1..], year, month);
      assert t == [t[0]] + t[1..];
    }
  }

  /** Two strictly ascending tables holding the same rows start with the same row. */
  lemma SameFirst(a: seq<Entry>, b: seq<Entry>)
    requires StrictlyAscending(a) && StrictlyAscending(b) && multiset(a) == multiset(b)
    requires a != []
    ensures b != [] && a[0] == b[0]
  {
    assert |b| == |multiset(b)| == |a|;
    assert a[0] in multiset(b) && b[0] in multiset(a);
    var k :| 0 <= k < |b| && b[k] == a[0];
    var m :| 0 <= m < |a| && a[m] == b[0];
  }

  /** Dropping the first row of two tables holding the same rows and starting alike leaves the same rows. */
  lemma SameRest(a: seq<Entry>, b: seq<Entry>)
    requires multiset(a) == multiset(b) && a != [] && b != [] && a[0] == b[0]
    ensures multiset(a[1..]) == multiset(b[1..])
  {
    assert a == [a[0]] + a[1..] && b == [b[0]] + b[1..];
    assert multiset(a[1..]) == multiset(a) - multiset{a[0]};
    assert multiset(b[1..]) == multiset(b) - multiset{b[0]};
  }

  /** Two strictly ascending tables holding the same rows are the same table. */
  lemma {:induction false} StrictlyAscendingUnique(a: seq<Entry>, b: seq<Entry>)
    requires StrictlyAscending(a) && StrictlyAscending(b) && multiset(a) == multiset(b)
    ensures a == b
  {
    if a == [] {
      assert |b| == |multiset(b)| == 0;
    } else {
      SameFirst(a, b);
      SameRest(a, b);
      StrictlyAscendingUnique(a[1..], b[1..]);
      assert a == [a[0]] + a[1..] && b == [b[0]] + b[1..];
    }
  }

  /**
   * With one row per date, the month view goes strictly up by date, and any
   * strictly ascending arrangement of the month's rows is exactly the month
   * view: the result does not depend on which sort algorithm is used.
   */
  lemma FilterMonthDetermined(t: seq<Entry>, year: int, month: int, s: seq<Entry>)
    requires UniqueDates(t)
    ensures StrictlyAscending(FilterMonth(t, year, month))
    ensures StrictlyAscending(s) && multiset(s) == multiset(MonthRows(t, year, month)) ==>
              s == FilterMonth(t, year, month)
  {
    var r := FilterMonth(t, year, month);
    MonthRowsSubMultiset(t, year, month);
    UniqueDatesSubMultiset(t, r);
    if StrictlyAscending(s) && multiset(s) == multiset(MonthRows(t, year, month)) {
      StrictlyAscendingUnique(s, r);
    }
  }
}
