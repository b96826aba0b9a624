# Clone-traffic table reconciliation, modelled in Dafny

This project models the `HandleData` class of GithubStats2Chart, the part
that keeps a repository-by-day table of clone counts up to date. The table
is a pandas DataFrame: its rows are repository names, its columns are
`%Y-%m-%d` day keys, and its cells are integer counts or NaN. One run of
`save_data` does four things:

1. **window** (`__convert_date__`): the day keys from `today - period` up to
   and including `today`, built by `pd.date_range(..., freq="D")`;
2. **load** (`__get_local_data__`): read the stored table, or start from an
   empty frame when the file is missing or empty. Then add every window day
   that is not yet a column, filled with 0;
3. **loop** (`__get_data__`): go through the account's repositories in
   order. Private repositories, responses without a `"clones"` list and
   failed requests are skipped. For any other repository:
   - add a zero row when the repository is new;
   - write each reported window day's count into its row;
   - cast the whole table with `fillna(0).astype(np.int16)`;
4. **save**: hand the table to the converter. If the shutdown flag is seen
   first, the run exits and nothing is saved.

The Dafny files and the modules they declare:

| file | module | models |
|---|---|---|
| `text_order.dfy` | `TextOrder` | Python's `<` on strings |
| `sequences.dfy` | `Sequences` | repeat-free sequences and prefix facts shared by the table labels and the day window |
| `calendar.dfy` | `Calendar` | proleptic Gregorian day ordinals (`date.toordinal`), `strftime("%Y-%m-%d")`, and the day span a pandas timestamp can hold |
| `traffic_table.dfy` | `Optional`, `TrafficTable` | the DataFrame: labels, cells with NaN as `None`, column and row insertion, `df.at`, and the int16 cast with its wrap-around written out |
| `date_window.dfy` | `DateWindow` | `__convert_date__` |
| `table_store.dfy` | `TableStore` | `__get_local_data__` |
| `reconciler.dfy` | `Reconciler` | one pass of the repository loop |
| `handle_data.dfy` | `HandleData` | the whole loop as a fold, and `save_data` with shutdown |

The clock reading `datetime.now()` is the parameter `today`, a day ordinal
with 0001-01-01 as day 1. The stored file is the parameter `stored`, which
says what `pd.read_csv` met. The account's repository listing and each
traffic response are the parameter `repos`. Where shutdown is requested is
the parameter `stop`.

### Where the code differs from its own comments

The model follows the code in each of these places:

- **Unreadable input.** The message at `data_processor/data_handler.py:73`
  says the stored file "does not exist or is corrupted". The `except` at
  line 72 catches only `FileNotFoundError` and `EmptyDataError`. Any other
  read error escapes `save_data`, so the model gives
  `Raised(UnreadableInput)`.
- **Shutdown.** The docstring at line 86 says `__get_data__` returns `None`
  when shutdown is triggered, and `save_data` skips saving on `None` at
  line 139. The code never returns `None`: it calls `exit(0)` at line 93
  (and at line 137 before loading), so the model gives `Exited`.
- **NaN cells.** The comment at line 119 says all NaN values are replaced
  with 0. The cast at line 120 runs only after a merge that goes ahead, so
  a run where no repository reports a `"clones"` list saves the loaded NaN
  cells unchanged (`ReconcileNoData`).
- **Empty `"clones"` list.** An empty list still inserts the repository as
  a zero row. Only a missing `"clones"` entry, or an empty payload, counts
  as no data.
- **New repository into a frame with no columns.** `df.loc[name] = 0` on a
  frame without columns raises `ValueError`. The handler's `except` catches
  it, so the repository is not added (`Admits`).

## Model

| member | source | states |
|---|---|---|
| DateWindow.Window | data_processor/data_handler.py:56-58 | The window exists exactly when its first and last day are representable pandas timestamps. It has `period + 1` keys for a non-negative period and none for a negative one. |
| DateWindow.WindowAscending | data_processor/data_handler.py:56-58 | Position `i` holds the key of day `today - period + i`, so there are no gaps. Every key sorts strictly before all later ones under Python string order. |
| DateWindow.WindowEnds | data_processor/data_handler.py:56-58 | For `period >= 0`, the first key is `today - period`'s and the last is `today`'s. |
| DateWindow.WindowDistinct | data_processor/data_handler.py:56-58 | No day key occurs twice in the window. |
| DateWindow.WindowMembers | data_processor/data_handler.py:56-58 | A key is in the window exactly when it is the key of some day between `today - period` and `today`. |
| DateWindow.Days | data_processor/data_handler.py:58 | `pd.date_range` over `n` days gives exactly `n` keys. DaysKeys and DaysAscending give their content and order. |
| DateWindow.DaysAscending | data_processor/data_handler.py:58 | Consecutive days give strictly ascending keys. |
| Calendar.KeyOrder | data_processor/data_handler.py:58 | `strftime("%Y-%m-%d")` is strictly increasing in the day: a later day has a lexicographically greater key. |
| Calendar.FormatOrder | data_processor/data_handler.py:58 | `%Y-%m-%d` text of four-digit-year dates sorts in chronological order. |
| Calendar.Format | data_processor/data_handler.py:58 | `strftime("%Y-%m-%d")` gives ten characters: digits everywhere except `-` at positions 4 and 7. |
| Calendar.KeyInjective | data_processor/data_handler.py:58 | Two distinct days never share a key. |
| Calendar.Key | data_processor/data_handler.py:58 | A key has ten characters, with `-` at positions 4 and 7. |
| Calendar.NextDayOrdinal | data_processor/data_handler.py:58 | The day after a date is the next ordinal, the step `freq="D"` takes. |
| Calendar.NextDay | data_processor/data_handler.py:58 | The `freq="D"` step: the next date is chronologically later, and the next date of a valid date is valid. |
| Calendar.Civil | data_processor/data_handler.py:58 | Every ordinal from 1 on names a valid date whose ordinal is that number, so `Civil` inverts `Ordinal`. |
| Calendar.FirstDayDate | data_processor/data_handler.py:58 | Ordinal 612412 is 1677-09-22, the earliest whole day of a pandas timestamp. |
| Calendar.LastDayDate | data_processor/data_handler.py:58 | Ordinal 825913 is 2262-04-10, the latest whole day of a pandas timestamp. |
| Calendar.DaysBeforeYearClosed | data_processor/data_handler.py:58 | The days before year `y` are `365(y-1)` plus the leap days: `(y-1)/4 - (y-1)/100 + (y-1)/400`. |
| TableStore.AddMissingDates | data_processor/data_handler.py:75-78 | Backfill keeps the rows and the old columns, as a prefix. The columns become exactly the old ones plus the window's days. Every old cell is unchanged, and every cell in a new column is 0. |
| TableStore.AddDate | data_processor/data_handler.py:77-78 | One pass of the backfill: an existing column is left alone. A missing day is appended as a column, and every row holds 0 in it. Every old cell is unchanged. |
| TableStore.AddMissingDatesOrder | data_processor/data_handler.py:75-78 | With a window free of repeats, the new columns are the window days that were missing, in window order, after the existing ones. |
| TableStore.Absent | data_processor/data_handler.py:76-77 | A day is added exactly when it is in the window and not already a column. |
| TableStore.Load | data_processor/data_handler.py:61-79 | Loading fails exactly when the read raises an error that is not caught. A missing or empty file gives zero rows with exactly the window as columns. A stored table keeps its rows, its columns as a prefix and its cells, and gets zero-filled new columns. Either way every window day becomes a column. |
| Reconciler.DayOf | data_processor/data_handler.py:108 | A timestamp's day key is its first ten characters, or the whole text when shorter. |
| Reconciler.CountMap | data_processor/data_handler.py:108 | The count dict has exactly the days some record reports as keys. |
| Reconciler.CountMapLast | data_processor/data_handler.py:108 | A day reported more than once keeps the count of its last record. |
| Reconciler.Put | data_processor/data_handler.py:116-117 | One `df.at` write sets the reported day of row `n`, adds a missing column as NaN in every other row, and leaves all else unchanged. |
| Reconciler.Overwrite | data_processor/data_handler.py:115-117 | The write loop keeps the rows and the old columns as a prefix. The columns become the old ones plus the reported window days. |
| Reconciler.OverwriteCell | data_processor/data_handler.py:115-117 | After the write loop, row `n` holds the count for each reported window day. Every other cell is as before, or NaN in a column the loop added. |
| Reconciler.OverwriteKeepsColumns | data_processor/data_handler.py:115-117 | When every reported day is already a column, the write loop adds no column. |
| Reconciler.EnsureRow | data_processor/data_handler.py:109-112 | Every existing row, NaN cells included, is unchanged. A known repository keeps its row. A new one is appended with 0, not NaN, in every column. |
| Reconciler.Merge | data_processor/data_handler.py:107-120 | A merge that goes ahead gives a normalised table. Its rows are the old ones plus the repository when new, its old columns are kept as a prefix, and a column is added only for a reported window day. A new repository and a frame without columns leave the table unchanged. |
| Reconciler.MergeCell | data_processor/data_handler.py:109-120 | After a merge, each cell holds the int16 cast of the reported count (for a reported day of that row), or of the old value with NaN read as 0, or of 0 in a new row. |
| Reconciler.MergeReports | data_processor/data_handler.py:114-120 | After a merge that goes ahead, every reported window day of the repository holds the int16 cast of its count. |
| Reconciler.MergeOthers | data_processor/data_handler.py:109-120 | After a merge that goes ahead, every existing cell that the response does not report for its row holds the cast of its old value, with NaN read as 0. |
| Reconciler.MergeFrame | data_processor/data_handler.py:114-120 | Cells other than the reported window days of the merged row keep their value up to the int16 cast, and keep it exactly once the table is normalised. |
| Reconciler.MergeKeepsColumns | data_processor/data_handler.py:115-117 | Once every window day is a column, a merge adds no column. |
| Reconciler.MergeNewRow | data_processor/data_handler.py:109-120 | A newly inserted repository holds the cast count on each reported day and 0 in every other column. |
| Reconciler.MergeFixpoint | data_processor/data_handler.py:107-120 | A merge changes nothing when the table is normalised and the row already holds the cast counts. |
| Reconciler.MergeIdempotent | data_processor/data_handler.py:107-120 | Merging the same response twice gives the same table as merging it once. |
| Reconciler.Apply | data_processor/data_handler.py:94-124 | A private repository, a response without a "clones" list, a failed request, and a new repository that a frame without columns cannot take all leave the table unchanged. Otherwise the table ends up normalised. Each reported window day of the repository holds the int16 cast of its count. Every other existing cell holds the cast of its old value, with NaN read as 0. |
| Reconciler.ApplyIdempotent | data_processor/data_handler.py:94-124 | Handling the same repository twice in a row is the same as handling it once. |
| Reconciler.ApplyLabels | data_processor/data_handler.py:109-112 | One repository appends its name as a row exactly when it reports a "clones" list, is new, and the table admits it. The column count never shrinks. |
| Reconciler.ApplyFrame | data_processor/data_handler.py:100-124 | Handling a repository leaves each cell it does not report, for its own row, unchanged or cast. |
| Reconciler.ApplyReport | data_processor/data_handler.py:114-120 | Once the table has a column, a repository's reported window day holds the cast count in its row. |
| TrafficTable.AddColumn | data_processor/data_handler.py:78 | `df[d] = fill` appends column `d`, filled in every row, and keeps every other cell. |
| TrafficTable.InsertZeroRow | data_processor/data_handler.py:112 | `df.loc[n] = 0` appends row `n` with 0 in every column and leaves the other rows unchanged. |
| TrafficTable.ZeroRow | data_processor/data_handler.py:112 | The row `df.loc[n] = 0` writes has a cell for exactly the frame's columns, each 0. |
| TrafficTable.SetCell | data_processor/data_handler.py:117 | `df.at[n, d] = v` changes only that cell. A new label `d` becomes a column that is NaN in every other row. |
| TrafficTable.Wrap16 | data_processor/data_handler.py:120 | The cast lands in the int16 range, differs from the input by a multiple of 2^16, and leaves int16 values unchanged. |
| TrafficTable.NormTwice | data_processor/data_handler.py:120 | Casting a cast cell again changes nothing. |
| TrafficTable.Normalize | data_processor/data_handler.py:120 | `fillna(0).astype(int16)` keeps the labels and fills every cell with an int16 value: the cast of the old value, with NaN as 0. |
| TrafficTable.NormalizeFixesNormalized | data_processor/data_handler.py:120 | A table already cast is left unchanged by the cast. |
| TrafficTable.NormalizeIdempotent | data_processor/data_handler.py:120 | Casting twice is the same as casting once. |
| HandleData.Reconcile | data_processor/data_handler.py:89-124 | The loop keeps labels unique, and every row has a cell, possibly NaN, for each column. Loaded rows and columns stay first, in order. |
| HandleData.ReconcileConcat | data_processor/data_handler.py:89-124 | Running the loop over two listings one after the other is the same as running it over their concatenation. |
| HandleData.ReconcileSkip | data_processor/data_handler.py:94-105 | A skipped repository (private, no "clones" entry, or failed) changes nothing, and the loop continues as if it were not listed. |
| HandleData.ReconcileNoData | data_processor/data_handler.py:89-125 | When no repository reports a "clones" list, the run returns the loaded table unchanged, NaN cells included. |
| HandleData.ReconcileKeepsColumns | data_processor/data_handler.py:114-117 | Once every window day is a column, the columns after loading are the columns after the loop. |
| HandleData.Appended | data_processor/data_handler.py:109-112 | The appended names were not rows before. Every repository that reports a "clones" list ends up as a row. |
| HandleData.ReconcileRows | data_processor/data_handler.py:109-112 | Once there is a column, the rows after the loop are the loaded rows followed by the newly seen repositories, each once, in listing order. |
| HandleData.ReconcileRowsWithoutColumns | data_processor/data_handler.py:109-112 | With no column and an empty window, no repository can be inserted and the rows stay as loaded. |
| HandleData.ReconcileNormalized | data_processor/data_handler.py:119-120 | The table ends up normalised once some repository reports a "clones" list with a column to write into, and stays normalised once it is. |
| HandleData.ReconcileFrame | data_processor/data_handler.py:114-120 | A cell that no response for its row reports keeps its value up to the int16 cast. |
| HandleData.ReconcileLastReport | data_processor/data_handler.py:114-117 | The last report wins: a row's cell for a window day holds the cast count from the last response for that repository that reports the day. |
| HandleData.ReconcileAt | data_processor/data_handler.py:89-124 | The loop reaches each repository with the table the earlier ones left, and continues from the table it leaves. |
| HandleData.SaveData | data_processor/data_handler.py:127-143 | The run exits exactly when shutdown is seen before it starts, or before a listed repository once loading succeeded. It raises exactly when the stored file cannot be read or the window is out of range. A saved table has every window day as a column. |
| HandleData.SavedShape | data_processor/data_handler.py:138-142 | A saved table keeps the loaded columns. For a non-negative period, its rows are the loaded ones followed by the new repositories. It is normalised when some repository reported a "clones" list. |
| HandleData.FirstRun | data_processor/data_handler.py:68-120 | With no stored file and one repository, the saved table has that repository as its only row and the window as its columns. Each reported day holds the cast count and every other day holds 0. |

## Left out

- The GitHub client, authentication, `check_env` and `g.close()` are left out. The repository listing and each traffic response are the input `repos`. A traffic request at line 102, inside the `try`, that raises is `Failed`. The listing request at line 89 is outside the `try`, so the model assumes it succeeds.
- The console messages (`print`) are left out. `exit(0)` is the outcome `Exited`.
- `ConvertData` and its writers in `data_processor/convert_data.py` are not part of this model. The saved table is the model's output.
- `main.py` and `data_processor/__init__.py` are not part of this model. `main.py` is the application shell; the `stop()` it calls at lines 55 and 81 is not defined on `HandleData` and stands for `HandleData.shutdown` (`data_processor/data_handler.py:145-150`), which clears the running flag. `__init__.py` only re-exports names. Where the cleared flag is seen is the input `stop`.
- CSV parsing by `pd.read_csv` is not modelled. A parsed file is assumed to give a well-formed table: unique labels and a full grid. Duplicate labels and repository names that pandas would parse as numbers are left out.
- NaN is modelled as `None`. pandas holds a column with NaN as floats. `Wrap16` models the cast of an integer value only. The result numpy gives for an out-of-range float is platform-dependent.
- TrafficTable.Wrap16: the model lets `df.at[n, d] = count` store any integer and wraps it only at the cast on line 120. From the second merge on, the columns are int16. This follows pandas releases that upcast an int16 column when an assigned value does not fit, warning that this is deprecated. A pandas that enforces the deprecation raises `TypeError` at line 117 for a count outside the int16 range. The `except` at line 122 then swallows it: the zero row from line 112 stays, the remaining days are not written, and no cast happens. That behaviour is not modelled.
- HandleData.SaveData: line 115 calls `__convert_date__` once per repository that reaches it, so the clock at line 56 is read again for each merged repository. The model uses one `today` for the whole run. If midnight passes between two merged repositories, a later one that reports the new day writes it through `df.at` at line 117, which adds a column that loading did not add (NaN in the other rows, 0 after the cast at line 120). SavedShape and ReconcileKeepsColumns, which keep the loaded columns, rest on that single reading.
- DateWindow.Window: a window whose first or last day lies on the partial edge day of the pandas timestamp range counts as out of range.
- HandleData.ReconcileRows: stated only once the table has a column. ReconcileRowsWithoutColumns covers a table without columns and an empty window.
- The `period` range 1 to 14 given in the `__init__` docstring is not enforced by the code, so the model accepts any integer period.
