/**
 * `load_data`: read data.csv if it exists, bring it to the schema's five
 * columns, parse the date column and drop the rows without a date.
 */
module Loading {
  import opened Wrappers
  import opened Calendar
  import opened Records

  /** Why a load fails: `pd.to_datetime` raises on a date cell it cannot parse. */
  datatype LoadError = UnparseableDate

  /** The cell a row of `f` has in column `c`, or an empty cell when `f` lacks that column. */
  function CellOf(f: Frame, r: Row, c: Column): Cell {
    if c in f.columns && c in r then r[c] else None
  }

  /** A row with a cell for exactly the schema's columns. */
  predicate InSchema(r: Row) {
    r.Keys == SCHEMA
  }

  /** Every row has a cell for exactly the schema's columns. */
  predicate AllInSchema(rows: seq<Row>) {
    forall i :: 0 <= i < |rows| ==> InSchema(rows[i])
  }

  /** The row `df[COLUMNS]` keeps of row `r` once every missing column was added as empty. */
  function NormalRow(f: Frame, r: Row): (n: Row)
    ensures InSchema(n)
  {
    map c | c in SCHEMA :: CellOf(f, r, c)
  }

  /** `df[col] = None`: a new, empty column at the end. */
  function AddColumn(f: Frame, c: Column): (g: Frame)
    requires WellFormed(f) && c in SCHEMA && c !in f.columns
    ensures WellFormed(g) && g.columns == f.columns + [c] && |g.rows| == |f.rows|
    ensures forall i :: 0 <= i < |f.rows| ==> g.rows[i] == f.rows[i][c := None]
  {
    Frame(f.columns + [c], seq(|f.rows|, i requires 0 <= i < |f.rows| => f.rows[i][c := None]))
  }

  /**
   * The `for col in COLUMNS` loop of `load_data`: every column of the schema
   * that the file lacks is added as an empty column at the end, one at a time.
   */
  method AddMissingColumns(f: Frame) returns (df: Frame)
    requires WellFormed(f)
    ensures WellFormed(df) && |df.rows| == |f.rows|
    ensures |f.columns| <= |df.columns| && df.columns[..|f.columns|] == f.columns
    ensures forall c :: c in SCHEMA ==> c in df.columns
    ensures forall c :: c in df.columns ==> c in f.columns || c in SCHEMA
    ensures forall i, c :: 0 <= i < |df.rows| && c in df.columns ==> df.rows[i][c] == CellOf(f, f.rows[i], c)
  {
    df := f;
    for k := 0 to |COLUMNS|
      invariant WellFormed(df) && |df.rows| == |f.rows|
      invariant |f.columns| <= |df.columns| && df.columns[..|f.columns|] == f.columns
      invariant forall c :: c in df.columns ==> c in f.columns || c in SCHEMA
      invariant forall j :: 0 <= j < k ==> COLUMNS[j] in df.columns
      invariant forall i, c :: 0 <= i < |df.rows| && c in df.columns ==> df.rows[i][c] == CellOf(f, f.rows[i], c)
    {
      var col := COLUMNS[k];
      if col !in df.columns {
        df := AddColumn(df, col);
      }
    }
    assert COLUMNS[0] in df.columns && COLUMNS[1] in df.columns && COLUMNS[2] in df.columns
      && COLUMNS[3] in df.columns && COLUMNS[4] in df.columns;
  }

  /** `df[COLUMNS]`: exactly the schema's columns, in the schema's order. */
  function Project(df: Frame): Frame
    requires WellFormed(df) && forall c :: c in SCHEMA ==> c in df.columns
  {
    Frame(COLUMNS, seq(|df.rows|, i requires 0 <= i < |df.rows| => map c | c in SCHEMA :: df.rows[i][c]))
  }

  /**
   * The first half of `load_data`: the frame read from the file, brought to
   * exactly the schema's columns in the schema's order, with the columns the
   * file lacks empty.
   */
  method NormaliseColumns(f: Frame) returns (g: Frame)
    requires WellFormed(f)
    ensures g.columns == COLUMNS && |g.rows| == |f.rows| && AllInSchema(g.rows)
    ensures forall i, c :: 0 <= i < |f.rows| && c in SCHEMA ==>
              g.rows[i][c] == if c in f.columns then f.rows[i][c] else None
  {
    var df := AddMissingColumns(f);
    g := Project(df);
  }

  /** `pd.to_datetime` succeeds on the whole column: every date cell is empty or a date. */
  predicate DatesParse(rows: seq<Row>)
    requires AllInSchema(rows)
  {
    forall i :: 0 <= i < |rows| ==> rows[i][Paiva].None? || rows[i][Paiva].value.Day?
  }

  /** A row whose date cell holds a date. */
  predicate Dated(r: Row)
    requires InSchema(r)
  {
    r[Paiva].Some? && r[Paiva].value.Day?
  }

  /** The entry a dated row becomes. */
  function EntryOf(r: Row): (e: Entry)
    requires InSchema(r) && Dated(r)
    ensures e.date == r[Paiva].value.d
  {
    Entry(r[Paiva].value.d, r[UniH], r[Mieliala], r[Stressi], r[Huomiot])
  }

  /** `dropna(subset=["Päivä"])`: the dated rows, as entries, in their original order. */
  function DropUndated(rows: seq<Row>): (t: seq<Entry>)
    requires AllInSchema(rows)
    ensures |t| <= |rows|
  {
    if rows == [] then []
    else if Dated(rows[0]) then [EntryOf(rows[0])] + DropUndated(rows[1..])
    else DropUndated(rows[1..])
  }

  /** What `load_data()` returns for the file's contents (`None` when data.csv does not exist). */
  function Load(file: Option<Frame>): Result<seq<Entry>, LoadError>
    requires file.Some? ==> WellFormed(file.value)
  {
    match file
    case None => Ok([])
    case Some(f) =>
      var rows := seq(|f.rows|, i requires 0 <= i < |f.rows| => NormalRow(f, f.rows[i]));
      if DatesParse(rows) then Ok(DropUndated(rows)) else Err(UnparseableDate)
  }

  /** `load_data`, with the file's contents passed in. */
  method LoadData(file: Option<Frame>) returns (r: Result<seq<Entry>, LoadError>)
    requires file.Some? ==> WellFormed(file.value)
    ensures r == Load(file)
  {
    if file.None? {
      return Ok([]);
    }
    var f := file.value;
    var df := NormaliseColumns(f);
    ghost var rows := seq(|f.rows|, i requires 0 <= i < |f.rows| => NormalRow(f, f.rows[i]));
    forall i | 0 <= i < |f.rows| ensures df.rows[i] == rows[i] {
      assert df.rows[i].Keys == rows[i].Keys;
    }
    assert df.rows == rows;
    if DatesParse(df.rows) {
      r := Ok(DropUndated(df.rows));
    } else {
      r := Err(UnparseableDate);
    }
  }
}

module LoadingFacts {
  import opened Wrappers
  import opened Calendar
  import opened Records
  import opened Loading

  /** Dropping date-less rows keeps the order: it works row by row, left to right. */
  lemma {:induction false} DropUndatedAppend(a: seq<Row>, b: seq<Row>)
    requires AllInSchema(a) && AllInSchema(b)
    ensures AllInSchema(a + b)
    ensures DropUndated(a + b) == DropUndated(a) + DropUndated(b)
  {
    if a == [] {
      assert a + b == b;
    } else {
      assert (a + b)[1..] == a[1..] + b;
      DropUndatedAppend(a[1..], b);
    }
  }

  /** An entry survives exactly when some row with a date produced it. */
  lemma {:induction false} DropUndatedMembers(rows: seq<Row>, e: Entry)
    requires AllInSchema(rows)
    ensures e in DropUndated(rows) <==> exists i :: 0 <= i < |rows| && Dated(rows[i]) && EntryOf(rows[i]) == e
  {
    if rows != [] {
      DropUndatedMembers(rows[1..], e);
      if e in DropUndated(rows[1..]) {
        var i :| 0 <= i < |rows[1..]| && Dated(rows[1..][i]) && EntryOf(rows[1..][i]) == e;
        assert rows[i + 1] == rows[1..][i];
      }
      if exists i :: 0 <= i < |rows| && Dated(rows[i]) && EntryOf(rows[i]) == e {
        var i :| 0 <= i < |rows| && Dated(rows[i]) && EntryOf(rows[i]) == e;
        if i > 0 {
          assert rows[1..][i - 1] == rows[i];
        }
      }
    }
  }

  /** When every row has a date, nothing is dropped and the rows become entries one for one. */
  lemma {:induction false} DropUndatedKeepsAll(rows: seq<Row>)
    requires AllInSchema(rows)
    requires forall i :: 0 <= i < |rows| ==> Dated(rows[i])
    ensures |DropUndated(rows)| == |rows|
    ensures forall i :: 0 <= i < |rows| ==> DropUndated(rows)[i] == EntryOf(rows[i])
  {
    if rows != [] {
      DropUndatedKeepsAll(rows[1..]);
      forall i | 0 < i < |rows| ensures DropUndated(rows)[i] == EntryOf(rows[i]) {
        assert rows[1..][i - 1] == rows[i];
      }
    }
  }

  /** A load fails exactly when some date cell holds text that is not a date. */
  lemma LoadFailsOnlyOnBadDate(f: Frame)
    requires WellFormed(f)
    ensures Load(Some(f)).Err? <==>
              Paiva in f.columns
              && exists i :: 0 <= i < |f.rows| && f.rows[i][Paiva].Some? && f.rows[i][Paiva].value.Text?
  {
    var rows := seq(|f.rows|, i requires 0 <= i < |f.rows| => NormalRow(f, f.rows[i]));
    if Paiva in f.columns {
      forall i | 0 <= i < |f.rows| ensures rows[i][Paiva] == f.rows[i][Paiva] {
      }
    }
  }

  /** A missing file loads as the empty table. */
  lemma LoadMissingFile()
    ensures Load(None) == Ok([])
  {
  }

  /** A file without a `Päivä` column loads as the empty table: every row lacks a date. */
  lemma {:induction false} LoadWithoutDateColumn(f: Frame)
    requires WellFormed(f) && Paiva !in f.columns
    ensures Load(Some(f)) == Ok([])
  {
    var rows := seq(|f.rows|, i requires 0 <= i < |f.rows| => NormalRow(f, f.rows[i]));
    if DropUndated(rows) != [] {
      DropUndatedMembers(rows, DropUndated(rows)[0]);
    }
  }

  /**
   * Every loaded entry comes from a row of the file that has a date: its
   * fields are that row's cells, and a column the file lacks is empty.
   */
  lemma LoadedEntryOrigin(f: Frame, e: Entry)
    requires WellFormed(f)
    requires Load(Some(f)).Ok? && e in Load(Some(f)).value
    ensures exists i :: 0 <= i < |f.rows| && Paiva in f.columns && f.rows[i][Paiva] == Some(Day(e.date))
              && e.sleep == CellOf(f, f.rows[i], UniH) && e.mood == CellOf(f, f.rows[i], Mieliala)
              && e.stress == CellOf(f, f.rows[i], Stressi) && e.notes == CellOf(f, f.rows[i], Huomiot)
  {
    var rows := seq(|f.rows|, i requires 0 <= i < |f.rows| => NormalRow(f, f.rows[i]));
    DropUndatedMembers(rows, e);
    var i :| 0 <= i < |rows| && Dated(rows[i]) && EntryOf(rows[i]) == e;
    assert rows[i][Paiva] == CellOf(f, f.rows[i], Paiva);
  }

  /** Every row of the file with a date is loaded, with the cells of the schema's columns. */
  lemma LoadKeepsDatedRow(f: Frame, i: nat)
    requires WellFormed(f) && Load(Some(f)).Ok?
    requires i < |f.rows| && Paiva in f.columns && f.rows[i][Paiva].Some? && f.rows[i][Paiva].value.Day?
    ensures Entry(f.rows[i][Paiva].value.d, CellOf(f, f.rows[i], UniH), CellOf(f, f.rows[i], Mieliala),
                  CellOf(f, f.rows[i], Stressi), CellOf(f, f.rows[i], Huomiot)) in Load(Some(f)).value
  {
    var rows := seq(|f.rows|, i requires 0 <= i < |f.rows| => NormalRow(f, f.rows[i]));
    assert rows[i][Paiva] == f.rows[i][Paiva];
    DropUndatedMembers(rows, EntryOf(rows[i]));
  }
}
