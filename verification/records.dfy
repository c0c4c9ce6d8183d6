/**
 * The table the app keeps in data.csv: its five columns, the raw frame that
 * reading the file gives, and the normalised entry that the rest of the app
 * works on.
 */
module Records {
  import opened Wrappers
  import opened Calendar

  /**
   * One non-empty cell. Sleep is a float that the form's slider moves in
   * 0.5 steps, so it is kept as a count of half-hours. `Day(d)` is a date cell
   * in a form that `pd.to_datetime` parses to `d`.
   */
  datatype Value = Int(i: int) | HalfSteps(halves: int) | Text(s: string) | Day(d: Date)

  /** A cell of the frame; `None` is an empty cell (None, NaN or NaT). */
  type Cell = Option<Value>

  /**
   * A column of the file: one of the five the app knows (`Päivä`, `Uni_h`,
   * `Mieliala_0_10`, `Stressi_0_10`, `Huomiot`), or any other header a
   * hand-edited file may carry.
   */
  datatype Column = Paiva | UniH | Mieliala | Stressi | Huomiot | Other(header: string)

  /** The header texts of the five known columns; an `Other` column has none of them. */
  const KNOWN_HEADERS: set<string> := {"Päivä", "Uni_h", "Mieliala_0_10", "Stressi_0_10", "Huomiot"}

  /** The schema, in the order the file's columns are kept. */
  const COLUMNS: seq<Column> := [Paiva, UniH, Mieliala, Stressi, Huomiot]

  /** The schema's columns as a set. */
  const SCHEMA: set<Column> := {Paiva, UniH, Mieliala, Stressi, Huomiot}

  /** A row of a frame, keyed by column. */
  type Row = map<Column, Cell>

  /** A data frame: an ordered list of columns and its rows. */
  datatype Frame = Frame(columns: seq<Column>, rows: seq<Row>)

  /**
   * A frame as `read_csv` can return it, with the date column as
   * `pd.to_datetime` sees it: distinct columns (`read_csv` renames a repeated
   * header), an `Other` column is not one of the five known ones, every row
   * has a cell for exactly the frame's columns, no cell is text that
   * `read_csv` reads as missing, and no date cell is a number or a text that
   * `pd.to_datetime` reads as NaT (those are given as the `Day` or the empty
   * cell they become).
   */
  predicate WellFormed(f: Frame) {
    (forall i, j :: 0 <= i < j < |f.columns| ==> f.columns[i] != f.columns[j])
    && (forall c :: c in f.columns && c.Other? ==> c.header !in KNOWN_HEADERS)
    && (forall i :: 0 <= i < |f.rows| ==> Fits(f.rows[i], f.columns))
    && (forall i, c :: 0 <= i < |f.rows| && c in f.rows[i] ==> !MissingText(f.rows[i][c]))
    && forall i :: 0 <= i < |f.rows| && Paiva in f.rows[i] ==>
         !NumberCell(f.rows[i][Paiva]) && !NotATimeText(f.rows[i][Paiva])
  }

  /** Text that `read_csv` never returns, because it reads it as a missing value. */
  predicate MissingText(c: Cell) {
    c.Some? && c.value.Text? && c.value.s in MISSING_MARKERS
  }

  /**
   * Text that `read_csv` keeps but `pd.to_datetime` reads as NaT, so that
   * `dropna` drops its row; such a date cell is given as the empty cell.
   */
  predicate NotATimeText(c: Cell) {
    c.Some? && c.value.Text? && c.value.s in {"NaT", "nat", "NAT", "NAN"}
  }

  /**
   * A number. `pd.to_datetime` reads a number in the date column as
   * nanoseconds since 1970 instead of raising, so such a cell is given in a
   * frame as the `Day` it becomes, never as a number.
   */
  predicate NumberCell(c: Cell) {
    c.Some? && (c.value.Int? || c.value.HalfSteps?)
  }

  /** The row has a cell for each of the columns and for nothing else. */
  predicate Fits(r: Row, columns: seq<Column>) {
    (forall c :: c in r ==> c in columns) && (forall c :: c in columns ==> c in r)
  }

  /** One row of the normalised table: a date that is present and the other four cells. */
  datatype Entry = Entry(date: Date, sleep: Cell, mood: Cell, stress: Cell, notes: Cell)

  /** No two entries share a date: the invariant that upsert by date aims at. */
  predicate UniqueDates(t: seq<Entry>) {
    forall i, j :: 0 <= i < j < |t| ==> t[i].date != t[j].date
  }

  /**
   * Strings that `read_csv` reads back as an empty cell by default. The empty
   * string is among them, so an entry saved with empty notes comes back with
   * no notes at all.
   */
  const MISSING_MARKERS: set<string> :=
    {"", "#N/A", "#N/A N/A", "#NA", "-1.#IND", "-1.#QNAN", "-NaN", "-nan", "1.#IND",
     "1.#QNAN", "<NA>", "N/A", "NA", "NULL", "NaN", "None", "n/a", "nan", "null"}

  /** A cell as it reads back after `to_csv` and `read_csv`. */
  function Reread(c: Cell): (r: Cell)
    ensures !MissingText(r)
  {
    match c
    case Some(Text(s)) => if s in MISSING_MARKERS then None else c
    case _ => c
  }

  /** An entry as it reads back from the file it was written to. */
  function RereadEntry(e: Entry): Entry {
    Entry(e.date, Reread(e.sleep), Reread(e.mood), Reread(e.stress), Reread(e.notes))
  }

  /** The row `to_csv` writes for an entry, as `read_csv` gives it back. */
  function WrittenRow(e: Entry): Row {
    map[Paiva := Some(Day(e.date)), UniH := Reread(e.sleep), Mieliala := Reread(e.mood),
        Stressi := Reread(e.stress), Huomiot := Reread(e.notes)]
  }

  /**
   * The frame that reading data.csv back gives after `df.to_csv(DATA_PATH,
   * index=False)` wrote the table `t`: the columns in schema order, one row per
   * entry, in table order.
   */
  function Written(t: seq<Entry>): (f: Frame)
    ensures f.columns == COLUMNS && |f.rows| == |t|
    ensures WellFormed(f)
    ensures forall i :: 0 <= i < |t| ==> f.rows[i][Paiva] == Some(Day(t[i].date))
  {
    Frame(COLUMNS, seq(|t|, i requires 0 <= i < |t| => WrittenRow(t[i])))
  }
}
