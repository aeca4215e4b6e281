# Expense tracker: the expense log and the month-end total

A Dafny model of the logic inside the `ExpenseTracker` class of `expence.py`, a
small desktop application that records personal expenses in a CSV file
(`expenses.csv`) and announces the month's total on the last day of a month.

The file is modelled as what the csv module reads back from it: a sequence of
rows, each a sequence of text fields, the first row being the header
`Amount,Category,Description,Date`. It is held by the class
`Tracker.ExpenseLog` (fields `present`, for whether the file exists, and
`rows`), whose methods run the application's four operations step by step:

- `AddExpense`: rejects a form whose amount or category is empty. Otherwise it
  creates the file if it is missing, writes the header when the file is empty,
  and appends the record. There is no uniqueness check.
- `LoadExpenses`: returns every row after the first, in file order. A missing
  file gives no rows.
- `DeleteExpense`: reads the file and keeps its first row. It keeps every data
  row that equals no selected row, in the original order, and rewrites the file
  as the first row followed by the kept rows. Matching is by value, so every
  copy of a selected row goes.
- `CalculateMonthlyTotal`: only on the last day of a month, it sums the amounts
  of the data rows whose date field starts with today's `YYYY-MM`.

Each method is proved against a value-level definition in module
`ExpenseRows` (`Appended`, `Added`, `DataRows`, `Survivors`/`Rewritten`,
`MonthTotal`). The properties are proved as lemmas about those definitions:
round trips, order preservation, removal of duplicates, idempotence, and an
independent reference selection for the total.

Module `Calendar` models `is_last_day_of_month`: `date + timedelta(days=1)`
is `NextDay` on proleptic Gregorian dates in years 1 to 9999. It is proved to
be the unique valid date whose ordinal day number (0001-01-01 is day 1) is one
more. The month-end test is proved equivalent to "the day is the month's last
day".

Files: `calendar.dfy` (module `Calendar`), `expense_rows.dfy` (module
`ExpenseRows`), `tracker.dfy` (module `Tracker`).

Four behaviours of the code are easy to miss. The model keeps all of them:
- Deleting from a file that exists but has no rows raises `IndexError`, because
  `reader[0]` is read (expence.py:115).
- The monthly scan raises `IndexError` on a data row with fewer than four fields
  (`row[3]`, expence.py:141). It raises `ValueError` only for a row that matches
  the month and whose amount does not parse.
- On 9999-12-31, adding a day overflows the date type, so the month-end check
  raises `OverflowError`.
- Loading puts the rows into the table widget rather than returning them. The
  model returns the rows that would be inserted.

## Model

| member | source | states |
|---|---|---|
| `Calendar.NextDay` | expence.py:128 | the day after a valid date is a valid date; there is none (overflow) exactly for 9999-12-31 |
| `Calendar.IsLastDayOfMonth` | expence.py:127-129 | true exactly when the day is the last day of its month under Gregorian leap-year rules; undefined (OverflowError) exactly on 9999-12-31 |
| `Calendar.NextDayIsSuccessor` | expence.py:128 | adding one day gives the date whose ordinal day number is one more, and no other valid date has that ordinal |
| `Calendar.LastDayOfMonthByOrdinal` | expence.py:127-129 | against the ordinal reference: the month-end test holds iff the next day's month differs, iff the day is the month's last |
| `Calendar.MonthEndExamples` | expence.py:127-129 | 2024-02-29, 2023-02-28, 1900-02-28 and 2023-12-31 are month ends; 2024-02-28, 2000-02-28 and 2024-01-30 are not; 9999-12-31 overflows |
| `ExpenseRows.Record` | expence.py:80 | the written record has one field per header column |
| `ExpenseRows.RejectedAddKeepsRows` | expence.py:72-74 | a form with an empty amount or category leaves the rows unchanged |
| `ExpenseRows.AppendKeepsRows` | expence.py:76-80 | an append keeps every existing row, puts the record last, starts with the header exactly when the file was empty, and adds the record to the loaded rows even if it is already there |
| `ExpenseRows.AppendedAllExtends` | expence.py:76-80 | appends to a non-empty file only extend it by the records, in order |
| `ExpenseRows.AppendedAllFromEmpty` | expence.py:76-80 | appends to an empty file give the header followed by exactly the records, in order |
| `ExpenseRows.LoadAfterAppends` | expence.py:89-96 | round trip: load after appending records to an empty file returns exactly those records in order |
| `ExpenseRows.LoadAfterSubmissions` | expence.py:72-80 | after a series of form submissions on an empty file, the file is the header plus exactly the accepted records in order (nothing if none was accepted), and load returns the accepted records |
| `ExpenseRows.SurvivorsConcat` | expence.py:117-120 | the delete filter distributes over concatenation, so kept rows keep their relative order |
| `ExpenseRows.SurvivorsCount` | expence.py:117-120 | a row survives iff it is a data row equal to no selected row; every copy of a selected row goes, and every other row keeps all its copies |
| `ExpenseRows.SurvivorsNoneDoomed` | expence.py:117-120 | when no data row is selected, the filter keeps the data unchanged |
| `ExpenseRows.SurvivorsIdempotent` | expence.py:117-120 | filtering twice with the same selection equals filtering once |
| `ExpenseRows.Rewritten` | expence.py:113-125 | a file without rows fails with IndexError; otherwise the new file starts with the old first row and its data rows are exactly the survivors of the old data rows |
| `ExpenseRows.RewriteAbsentKeepsFile` | expence.py:113-125 | deleting rows that are not in the file leaves the file unchanged |
| `ExpenseRows.RewriteIdempotent` | expence.py:113-125 | deleting the same selection twice gives the same file as deleting it once |
| `ExpenseRows.DeleteUndoesAppend` | expence.py:113-125 | deleting a freshly appended record that was not present before restores the previous file (the header alone if the file was empty) |
| `ExpenseRows.DeleteOnlyRecord` | expence.py:117-125 | deleting the only record, or a record present twice, leaves only the header |
| `ExpenseRows.MonthTotalFaultSticks` | expence.py:140-143 | the first exception ends the monthly scan: a failing prefix makes the whole scan fail with the same exception |
| `ExpenseRows.MonthTotalIsSumOfMonthRows` | expence.py:140-143 | on rows with date fields, the total is the sum of the amounts of exactly the rows whose date starts with the month, and fails with ValueError exactly when one of those amounts does not parse |
| `ExpenseRows.MonthTotalOkMeansWellFormed` | expence.py:141 | a total only comes out when every scanned row has a date field |
| `ExpenseRows.OtherMonthRowIgnored` | expence.py:142 | a row from another month, at any position, never changes the total |
| `ExpenseRows.MonthTotalExample` | expence.py:135-143 | rows for 2024-05-01 (10.50), 2024-05-31 (5) and 2024-06-01 (3) under a header total 15.50 for 2024-05 |
| `Tracker.ExpenseLog.AddExpense` | expence.py:66-80 | accepted iff amount and category are non-empty; a rejected form changes nothing; an accepted one creates the file if needed, writes the header on an empty file, and appends the record |
| `Tracker.ExpenseLog.LoadExpenses` | expence.py:89-96 | returns every row after the first in file order, and nothing for a missing or empty file |
| `Tracker.ExpenseLog.DeleteExpense` | expence.py:104-125 | an empty selection returns before the file is touched; a missing file raises FileNotFoundError and a file without rows raises IndexError, both leaving it unchanged; otherwise the file becomes its first row followed by the data rows equal to no selected row |
| `Tracker.ExpenseLog.CalculateMonthlyTotal` | expence.py:131-143 | nothing is computed unless today is a month end; on one, the result is the total over the data rows only (header skipped, 0 for a missing file) of the rows dated in the given month, or the scan's exception |

## Left out

- The tkinter widgets, layout, message boxes, the "Other" category dialog
  (expence.py:18-64), the table refresh (expence.py:98-102) and the form reset
  after an add (expence.py:82-87). The methods return what the dialogs would
  show, and a caller runs load and the month-end check again after an add.
- File I/O is replaced by the `present`/`rows` fields. An empty file is one
  with no rows (`os.path.getsize == 0`). Partial writes, crashes in the middle
  of a rewrite and access from several processes are not modelled.
- CSV quoting and parsing: rows are already-split text fields, and writing then
  reading a row is assumed to give the same fields back.
- How selected rows' values come back from the table widget before `str()` is
  applied (expence.py:110, 119). `DeleteExpense` takes the selected rows as
  exact text. Removing the selected items from the widget (expence.py:111) is
  UI and is not modelled.
- `datetime.now()` and `strftime("%Y-%m")`: today's date and its `YYYY-MM` text
  are both parameters of `CalculateMonthlyTotal`, and the model does not tie
  one to the other.
- `float()` is the `parse` parameter, an arbitrary function from text to an
  optional number.
- Tracker.ExpenseLog.CalculateMonthlyTotal: the total is an exact sum of reals,
  not a sum of binary floating-point numbers, and the `:.2f` rounding of the
  announcement (expence.py:144) is not modelled.
- ExpenseRows.MonthTotal: uses the same exact real sum as
  `CalculateMonthlyTotal`, so it does not model floating-point rounding.
