/**
 * The table change at the heart of `save_row`: insert-or-replace by date.
 * If some row already has the new row's date, every such row is overwritten
 * with the new values; otherwise the new row is appended at the end.
 */
module Upsert {
  import opened Calendar
  import opened Records

  /** `mask.any()` with `mask = df["Päivä"] == row["Päivä"]`. */
  predicate HasDate(t: seq<Entry>, d: Date) {
    exists i :: 0 <= i < |t| && t[i].date == d
  }

  /** The table after saving `e` into `t`: the specification the method below meets. */
  function Upserted(t: seq<Entry>, e: Entry): seq<Entry> {
    if HasDate(t, e.date) then
      seq(|t|, i requires 0 <= i < |t| => if t[i].date == e.date then e else t[i])
    else
      t + [e]
  }

  /**
   * `save_row`'s change to the loaded table: build the date mask, overwrite
   * the masked rows in place if there is any, else append the row.
   */
  method UpsertRow(t: seq<Entry>, e: Entry) returns (df: seq<Entry>)
    ensures df == Upserted(t, e)
  {
    var mask := seq(|t|, i requires 0 <= i < |t| => t[i].date == e.date);
    assert true in mask <==> HasDate(t, e.date) by {
      if HasDate(t, e.date) {
        var k :| 0 <= k < |t| && t[k].date == e.date;
        assert mask[k];
      }
    }
    if true in mask {
      df := t;
      for i := 0 to |t|
        invariant |df| == |t|
        invariant forall j :: 0 <= j < i ==> df[j] == if mask[j] then e else t[j]
        invariant forall j :: i <= j < |t| ==> df[j] == t[j]
      {
        if mask[i] {
          df := df[i := e];
        }
      }
    } else {
      df := t + [e];
    }
  }

  /** A date already present: the length stays, every row with that date now holds `e`. */
  lemma UpsertReplaces(t: seq<Entry>, e: Entry)
    requires HasDate(t, e.date)
    ensures |Upserted(t, e)| == |t|
    ensures forall i :: 0 <= i < |t| && t[i].date == e.date ==> Upserted(t, e)[i] == e
  {
  }

  /** A new date: the row is appended, and all earlier rows keep their places and values. */
  lemma UpsertAppends(t: seq<Entry>, e: Entry)
    requires !HasDate(t, e.date)
    ensures |Upserted(t, e)| == |t| + 1
    ensures Upserted(t, e)[..|t|] == t && Upserted(t, e)[|t|] == e
  {
  }

  /** Rows with another date are untouched, in either case. */
  lemma UpsertFrame(t: seq<Entry>, e: Entry)
    ensures forall i :: 0 <= i < |t| && t[i].date != e.date ==> Upserted(t, e)[i] == t[i]
  {
  }

  /** After a save, the saved row is in the table and every row with its date equals it. */
  lemma UpsertStores(t: seq<Entry>, e: Entry)
    ensures e in Upserted(t, e)
    ensures forall x :: x in Upserted(t, e) && x.date == e.date ==> x == e
  {
    var r := Upserted(t, e);
    if HasDate(t, e.date) {
      var k :| 0 <= k < |t| && t[k].date == e.date;
      assert r[k] == e;
    } else {
      assert r[|t|] == e;
    }
  }

  /** No other dates appear or disappear: the dates after a save are the old ones plus the saved one. */
  lemma UpsertDates(t: seq<Entry>, e: Entry)
    ensures forall d :: HasDate(Upserted(t, e), d) <==> HasDate(t, d) || d == e.date
  {
    var r := Upserted(t, e);
    UpsertStores(t, e);
    forall d | HasDate(t, d) ensures HasDate(r, d) {
      var k :| 0 <= k < |t| && t[k].date == d;
      assert r[k].date == d;
    }
    forall d | HasDate(r, d) && d != e.date ensures HasDate(t, d) {
      var k :| 0 <= k < |r| && r[k].date == d;
      assert t[k].date == d;
    }
    assert e == r[if HasDate(t, e.date) then ChooseDate(t, e.date) else |t|];
  }

  /** Some position of `t` that has date `d`. */
  function ChooseDate(t: seq<Entry>, d: Date): (k: nat)
    requires HasDate(t, d)
    ensures k < |t| && t[k].date == d
  {
    if t[0].date == d then 0 else 1 + ChooseDate(t[1..], d)
  }

  /** Upsert keeps the one-row-per-date invariant, and the row for the saved date is the saved row. */
  lemma UpsertKeepsUniqueDates(t: seq<Entry>, e: Entry)
    requires UniqueDates(t)
    ensures UniqueDates(Upserted(t, e))
    ensures exists k :: 0 <= k < |Upserted(t, e)| && Upserted(t, e)[k] == e
              && forall j :: 0 <= j < |Upserted(t, e)| && j != k ==> Upserted(t, e)[j].date != e.date
  {
    var r := Upserted(t, e);
    var k := if HasDate(t, e.date) then ChooseDate(t, e.date) else |t|;
    assert r[k] == e;
  }

  /** Saving twice on the same date leaves what the second save alone would: the last write wins. */
  lemma UpsertLastWins(t: seq<Entry>, e1: Entry, e2: Entry)
    requires e1.date == e2.date
    ensures Upserted(Upserted(t, e1), e2) == Upserted(t, e2)
  {
    var r1 := Upserted(t, e1);
    if HasDate(t, e1.date) {
      var k := ChooseDate(t, e1.date);
      assert r1[k].date == e2.date;
    } else {
      assert r1[|t|].date == e2.date;
      assert Upserted(r1, e2) == t + [e2];
    }
  }

  /** Saving the same row again changes nothing. */
  lemma UpsertIdempotent(t: seq<Entry>, e: Entry)
    ensures Upserted(Upserted(t, e), e) == Upserted(t, e)
  {
    UpsertLastWins(t, e, e);
    UpsertStores(t, e);
    var r := Upserted(t, e);
    assert HasDate(r, e.date) by {
      var k :| 0 <= k < |r| && r[k] == e;
    }
  }
}
