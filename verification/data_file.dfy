/**
 * data.csv as the one piece of state the app keeps: `load_data` reads it,
 * `save_row` reads it, changes the table and writes all of it back.
 */
module DataFileStore {
  import opened Wrappers
  import opened Records
  import opened Loading
  import opened LoadingFacts
  import opened Upsert

  /** The table as it reads back after being written to data.csv. */
  function RereadAll(t: seq<Entry>): (r: seq<Entry>)
    ensures |r| == |t|
    ensures forall i :: 0 <= i < |t| ==> r[i].date == t[i].date
  {
    seq(|t|, i requires 0 <= i < |t| => RereadEntry(t[i]))
  }

  /**
   * Writing a table and loading it again gives the same rows in the same
   * order, except that a text cell `read_csv` takes for a missing value comes
   * back empty.
   */
  lemma LoadWritten(t: seq<Entry>)
    ensures Load(Some(Written(t))) == Ok(RereadAll(t))
  {
    var f := Written(t);
    var rows := seq(|f.rows|, i requires 0 <= i < |f.rows| => NormalRow(f, f.rows[i]));
    forall i | 0 <= i < |rows| ensures rows[i] == WrittenRow(t[i]) {
      WrittenRowNormal(t[i]);
    }
    assert DatesParse(rows);
    DropUndatedKeepsAll(rows);
    assert DropUndated(rows) == RereadAll(t);
  }

  /** A written row already has exactly the schema's columns, so normalising it changes nothing. */
  lemma WrittenRowNormal(e: Entry)
    ensures InSchema(WrittenRow(e)) && Dated(WrittenRow(e))
    ensures NormalRow(Frame(COLUMNS, [WrittenRow(e)]), WrittenRow(e)) == WrittenRow(e)
    ensures EntryOf(WrittenRow(e)) == RereadEntry(e)
  {
  }

  /**
   * A save followed by a load gives back the saved entry as it reads back
   * from the file, and every row with its date equals it, whatever the table
   * held before, repeated dates included.
   */
  lemma SaveThenLoad(t: seq<Entry>, e: Entry)
    ensures Load(Some(Written(Upserted(t, e)))).Ok?
    ensures var loaded := Load(Some(Written(Upserted(t, e)))).value;
            RereadEntry(e) in loaded && forall x :: x in loaded && x.date == e.date ==> x == RereadEntry(e)
  {
    var u := Upserted(t, e);
    LoadWritten(u);
    UpsertStores(t, e);
    var loaded := RereadAll(u);
    var k :| 0 <= k < |u| && u[k] == e;
    assert loaded[k] == RereadEntry(e);
    forall x | x in loaded && x.date == e.date ensures x == RereadEntry(e) {
      var j :| 0 <= j < |loaded| && loaded[j] == x;
      assert u[j] in u;
    }
  }

  /** With one row per date before a save, the table loaded after it still has one row per date. */
  lemma SaveThenLoadUnique(t: seq<Entry>, e: Entry)
    requires UniqueDates(t)
    ensures Load(Some(Written(Upserted(t, e)))).Ok?
    ensures UniqueDates(Load(Some(Written(Upserted(t, e)))).value)
  {
    LoadWritten(Upserted(t, e));
    UpsertKeepsUniqueDates(t, e);
  }

  /** Notes left empty on the form do not survive the file: they load as a missing cell. */
  lemma EmptyNotesLoadAsMissing(t: seq<Entry>, e: Entry)
    requires e.notes == Some(Text(""))
    ensures forall x :: x in Load(Some(Written(Upserted(t, e)))).value && x.date == e.date ==>
              x.notes == None && x != e
  {
    SaveThenLoad(t, e);
  }

  /** Reading back is done once and for all: a table read back once reads back as itself. */
  lemma RereadStable(t: seq<Entry>)
    ensures RereadAll(RereadAll(t)) == RereadAll(t)
  {
  }

  /**
   * A table loaded from data.csv, written back unchanged and loaded again,
   * is the same table: a save keeps the rows it does not touch exactly as
   * they were loaded, the first save from an existing file included.
   */
  lemma LoadedTableSurvives(f: Frame)
    requires WellFormed(f) && Load(Some(f)).Ok?
    ensures Load(Some(Written(Load(Some(f)).value))) == Load(Some(f))
  {
    var t := Load(Some(f)).value;
    forall k | 0 <= k < |t| ensures RereadEntry(t[k]) == t[k] {
      assert t[k] in t;
      LoadedEntryOrigin(f, t[k]);
    }
    LoadWritten(t);
    assert RereadAll(t) == t;
  }

  class DataFile {
    /** What `read_csv` gives for data.csv; `None` while the file does not exist. */
    var contents: Option<Frame>

    ghost predicate Valid()
      reads this
    {
      contents.Some? ==> WellFormed(contents.value)
    }

    constructor (initial: Option<Frame>)
      requires initial.Some? ==> WellFormed(initial.value)
      ensures Valid() && contents == initial
    {
      contents := initial;
    }

    /** `load_data()`. */
    method LoadData() returns (r: Result<seq<Entry>, LoadError>)
      requires Valid()
      ensures r == Load(contents)
    {
      r := Loading.LoadData(contents);
    }

    /**
     * `save_row(row)`: load the table, upsert the row by date and write the
     * whole table back. When loading raises, nothing is written.
     */
    method SaveRow(e: Entry) returns (outcome: Result<(), LoadError>)
      requires Valid()
      modifies this
      ensures Valid()
      ensures old(Load(contents)).Err? ==>
                outcome == Err(old(Load(contents)).error) && contents == old(contents)
      ensures old(Load(contents)).Ok? ==>
                outcome == Ok(()) && contents == Some(Written(Upserted(old(Load(contents)).value, e)))
    {
      var loaded := LoadData();
      if loaded.Err? {
        return Err(loaded.error);
      }
      var df := UpsertRow(loaded.value, e);
      contents := Some(Written(df));
      outcome := Ok(());
    }
  }
}
