# Mieli & Uni record store, modelled in Dafny

Mieli & Uni is a personal daily log of sleep, mood and stress. It keeps one
table in `data.csv` with the columns `Päivä` (date), `Uni_h` (hours of
sleep), `Mieliala_0_10` (mood), `Stressi_0_10` (stress) and `Huomiot`
(notes). The few parts of the app that hold logic are three helpers, and
this project models them:

- `load_data` reads the file if it exists. It adds every schema column the
  file lacks as an empty column, cuts the frame down to exactly the schema's
  columns in schema order, parses the date column, and drops the rows that
  have no date. A missing file gives an empty table.
- `save_row` loads the table and upserts the new row by date. Every row that
  already has that date is overwritten in place. If no row has it, the row is
  appended. The whole table is then written back.
- `filter_month` keeps the rows of one (year, month), sorted ascending by
  date. An empty table comes back unchanged. The monthly summary shows how
  many rows were kept.

Files:

- `wrappers.dfy`: `Option` and `Result`.
- `calendar.dfy`: dates and their chronological order.
- `records.dfy`: cells, columns, raw frames, the normalised `Entry`, and what
  a table reads back as after it was written to the file.
- `loading.dfy`: `load_data` (the column loop as a method, projection, date
  parsing, dropping undated rows) and lemmas about the result.
- `upsert.dfy`: the insert-or-replace change that `save_row` makes, as a
  method proved against a specification function, with lemmas about it.
- `month_filter.dfy`: `filter_month` as a function (mask, then an insertion
  sort by date), its lemmas, and the proof that with one row per date the
  result does not depend on the sort algorithm.
- `data_file.dfy`: the file as a `DataFile` class whose `SaveRow` loads,
  upserts and writes back, plus the save-then-load round trip.

Modelling choices:

- A cell is `Option<Value>`, where `None` is an empty cell (None, NaN or NaT).
  Sleep moves in 0.5 steps on the form, so it is stored as a count of
  half-hours (`HalfSteps`). A date cell that `pd.to_datetime` parses to `d`
  is `Day(d)`. That includes a number in the date column: `pd.to_datetime`
  reads it as nanoseconds since 1970 rather than raising. A well-formed
  frame therefore never holds a number in the date column. Such a cell is
  given as the `Day` it becomes (in practice 1970-01-01). A date cell that
  `pd.to_datetime` reads as NaT, such as the text `NaT`, `nat`, `NAT` or
  `NAN`, is given as an empty cell, because its row is dropped the same way.
- The file is represented by the frame `read_csv` would return for it, with
  the date column's cells given as described above. Such a frame never holds
  text that `read_csv` reads as a missing value.
  `Written(t)` is the frame that reading back the file gives after `to_csv`
  wrote table `t`. Text that `read_csv` treats as a missing-value marker by
  default comes back as an empty cell. The empty string is one such marker.
- `save_row` overwrites the matching rows with the new row's values by
  position. The form builds the row in schema order, so an `Entry`'s fields
  line up with the columns one for one.
- `pd.to_datetime` raises when a date cell holds text that it cannot parse
  and that is not one of its NaT spellings.
  The model returns `Err(UnparseableDate)` in that case. `save_row` then writes
  nothing.

Some behaviour one might expect of a sleep and mood log is not what the code
does, and the model follows the code:

- The code has no 1–5 mood migration and no value clamping. Mood and stress
  stay in the `*_0_10` columns, and no range is checked on save or load.
- The code does not silently drop rows with unparseable dates. Only empty
  dates are dropped, together with dates written as NaT. Any other date that
  cannot be parsed makes the load raise.
- One would expect that saving `e` and then loading gives back an entry
  equal to `e`. That is not true when a text cell is a missing-value marker,
  and most commonly when the notes are left empty: they load as a missing
  cell (`EmptyNotesLoadAsMissing`). The model proves the round trip for the
  entry as it reads back (`SaveThenLoad`). A table that has been through the
  file once then stays unchanged by every later write and load
  (`RereadStable`, `LoadedTableSurvives`).

## Model

| member | source | states |
|---|---|---|
| `Records.Written` | mieliuni_app.py:31 | The file written from a table has the schema's columns in order, one well-formed row per entry in table order, each carrying its entry's date |
| `Loading.AddColumn` | mieliuni_app.py:18 | `df[col] = None` appends the column at the end, keeps every row and gives each row an empty cell in it |
| `Loading.AddMissingColumns` | mieliuni_app.py:16-18 | After the loop the file's columns come first in their original order, every schema column exists, no column other than the file's and the schema's appears, and each cell is the file's cell or empty for a column the file lacked |
| `Loading.NormaliseColumns` | mieliuni_app.py:16-19 | The normalised frame has exactly the schema's columns in order and one row per file row; each cell is the file's cell, or empty where the file lacked the column |
| `Loading.LoadData` | mieliuni_app.py:13-22 | The method computes the load result: empty table for a missing file, error for an unparseable date, otherwise the dated rows as entries |
| `LoadingFacts.DropUndatedAppend` | mieliuni_app.py:21 | Dropping undated rows works row by row from left to right, so the kept rows stay in their original order |
| `LoadingFacts.DropUndatedMembers` | mieliuni_app.py:21 | An entry is kept exactly when some row with a date produced it: no undated row survives and no dated row is lost |
| `LoadingFacts.DropUndatedKeepsAll` | mieliuni_app.py:21 | When every row has a date nothing is dropped and row i becomes entry i |
| `LoadingFacts.LoadFailsOnlyOnBadDate` | mieliuni_app.py:20 | Loading fails exactly when the file has a date column holding text that is not a date |
| `LoadingFacts.LoadMissingFile` | mieliuni_app.py:22 | A missing file loads as the empty table |
| `LoadingFacts.LoadWithoutDateColumn` | mieliuni_app.py:16-21 | A file without a `Päivä` column loads as the empty table, because the added date column is all empty |
| `LoadingFacts.LoadedEntryOrigin` | mieliuni_app.py:16-21 | Every loaded entry comes from a file row with that date; its cells are that row's cells, and empty for columns the file lacks |
| `LoadingFacts.LoadKeepsDatedRow` | mieliuni_app.py:16-21 | Every file row with a date is loaded, with its schema cells |
| `Upsert.UpsertRow` | mieliuni_app.py:26-30 | The mask-and-overwrite loop, or the append, yields exactly the upserted table |
| `Upsert.UpsertReplaces` | mieliuni_app.py:27-28 | If the date is present, the length is unchanged and every row with that date becomes the new row |
| `Upsert.UpsertAppends` | mieliuni_app.py:29-30 | If the date is new, the row is appended: the length grows by one and all earlier rows keep their positions and values |
| `Upsert.UpsertFrame` | mieliuni_app.py:26-28 | Rows with another date are left unchanged |
| `Upsert.UpsertStores` | mieliuni_app.py:24-30 | After the upsert the new row is in the table and every row with its date equals it |
| `Upsert.UpsertDates` | mieliuni_app.py:24-30 | The dates present after the upsert are the old dates plus the saved one |
| `Upsert.UpsertKeepsUniqueDates` | mieliuni_app.py:24-30 | If dates were unique before they are unique after, and exactly one row has the saved date and equals the saved row |
| `Upsert.UpsertLastWins` | mieliuni_app.py:24-30 | Saving two rows with the same date gives what saving only the second would |
| `Upsert.UpsertIdempotent` | mieliuni_app.py:24-30 | Saving the same row twice is the same as saving it once |
| `MonthFilter.Insert` | mieliuni_app.py:37 | Inserting into an ascending table gives an ascending table that holds the old rows plus the new one |
| `MonthFilter.SortByDate` | mieliuni_app.py:37 | `sort_values("Päivä")` gives an ascending permutation of its input |
| `MonthFilter.FilterMonth` | mieliuni_app.py:33-37 | The month view is ascending by date and a permutation of the input rows that fall in the month |
| `MonthFilter.MonthRowsMembers` | mieliuni_app.py:36 | The mask keeps a row exactly when it is in the table and its date has the given year and month |
| `MonthFilter.FilterMonthExact` | mieliuni_app.py:36-37 | Every row in the month view is in the table and in the month, and every such table row is in the view |
| `MonthFilter.FilterMonthEmpty` | mieliuni_app.py:34-37 | The view is empty exactly when no row of the table falls in the month, including when the table is empty |
| `MonthFilter.MonthCount` | mieliuni_app.py:110 | The count shown is the number of rows of the month, counted with repeats; it is at most the table's length |
| `MonthFilter.MonthRowsCount` | mieliuni_app.py:36 | The mask keeps every occurrence of each row of the month |
| `MonthFilterUnique.MonthRowsSubMultiset` | mieliuni_app.py:36 | The mask only takes rows the table has, never more often than it has them |
| `MonthFilterUnique.StrictlyAscendingUnique` | mieliuni_app.py:37 | Two strictly date-ascending arrangements of the same rows are identical |
| `MonthFilterUnique.FilterMonthDetermined` | mieliuni_app.py:37 | With one row per date the view is strictly ascending, and it is the only strictly ascending arrangement of the month's rows, whatever sort is used |
| `DataFileStore.RereadAll` | mieliuni_app.py:31 | The table read back from the file has the same length and the same date in every position |
| `DataFileStore.LoadWritten` | mieliuni_app.py:31 | Loading a written table gives its rows back in order, each as it reads back from the file |
| `DataFileStore.SaveThenLoad` | mieliuni_app.py:24-31 | For any table, repeated dates included, a save followed by a load succeeds, holds the saved entry as it reads back, and every row with its date equals that entry |
| `DataFileStore.SaveThenLoadUnique` | mieliuni_app.py:24-31 | With one row per date before a save, the table loaded after it still has one row per date |
| `DataFileStore.RereadStable` | mieliuni_app.py:15 | A table that has been through the file once reads back as itself |
| `DataFileStore.LoadedTableSurvives` | mieliuni_app.py:13-31 | For any file that loads, its table written back and loaded again is the same table, so rows that a save leaves alone never change, the first save included |
| `DataFileStore.EmptyNotesLoadAsMissing` | mieliuni_app.py:31 | A row saved with empty notes loads with missing notes, so it is not equal to the saved row |
| `DataFileStore.DataFile.constructor` | mieliuni_app.py:9 | The store starts with the given file contents, or with no file |
| `DataFileStore.DataFile.LoadData` | mieliuni_app.py:13-22 | `load_data()` on the current file returns the load result of its contents |
| `DataFileStore.DataFile.SaveRow` | mieliuni_app.py:24-31 | If loading fails, nothing is written and the error is returned; otherwise the file becomes the written upserted table |

## Left out

- The Streamlit user interface (page setup, form, sliders, month selector, expanders, table view, download button) is presentation only. This includes the descending sort of the full table for display and export.
- Chart drawing with matplotlib is foreign plotting calls.
- The monthly means of sleep, mood and stress are floating-point `mean` plus `round(…, 2)`. Only the row count is modelled (`MonthCount`).
- CSV text parsing and type inference are left out. The model keeps a value's kind across a write and a read. pandas may read a number column back as floats, or a text column that looks numeric back as numbers.
- A file that exists but that `read_csv` cannot read (a corrupt or empty file) is I/O failure and is not modelled.
- A sleep value off the form's 0.5 grid, such as a hand-edited 7.25 in `Uni_h`, has no `Value` to stand for it. The program passes such values through unchanged, and no contract depends on a cell's number.
- The date parser itself is not modelled. A cell that `pd.to_datetime` parses is given directly as `Day(d)`. This includes numeric date cells, which it reads as nanoseconds since 1970.
- The final chart block of the file refers to a name that is never defined and to columns outside the schema. It would fail when run, so it is not modelled as behaviour.
- MonthFilter.SortByDate: fixes one order among rows with the same date, which `sort_values` leaves unspecified. No contract relies on it: the contracts state only ascending order and permutation.
