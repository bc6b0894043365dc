# B1 forecast report: a Dafny model of its report-building core

The B1 scripts build a daily "must-watch" report on a few instruments: one Hong
Kong stock, one ETF and one A-share. `gen_fcast.py` fetches daily, weekly and
monthly price series. It adds the KDJ indicator and keeps one row per
(symbol, period). The row is the latest bar, or the one before it when the
week or month is still open. The rows are written as a CSV table.
`fcast2md.py` reads that table back. It colours negative J values and pivots
the table to one wide row per instrument, keeping the instruments in their
original order. It selects the rows with a coloured value and renders both
tables as Markdown.

This project models that pipeline and proves what it does:

- `wrappers.dfy`, module `Wrappers`: `Option` (a NaN cell, a failed lookup) and
  `Result` (a step that raises).
- `calendar.dfy`, module `Calendar`: dates as CPython holds them. `Ordinal` is
  `date.toordinal()` and `Weekday` is `date.weekday()`, with Monday = 0.
  `NextDay` is `+ timedelta(days=1)`. It also holds the `next_workday` loop and
  the two flags `LAST_DAY_OF_WEEK` and `LAST_DAY_OF_MONTH`.
- `gen_fcast.dfy`, module `GenFcast`: the `LAST_N` table and pandas'
  `iloc`. `GenerateRecords` is the run on a given day: the nested loop over
  `SYMBOLS` × `PERIODS` that appends one record per pair.
- `fcast2md.dfy`, module `Fcast2Md`: `with_color` and the `"**"` marker test.
  `Ordered` is `df_ordered`: the pivot on (代码, 名称) by period, then the merge
  that restores first-appearance order. `Filtered` is `filtered_df`.
- `pipeline.dfy`, module `Pipeline`: the two scripts together. With distinct
  codes, the report has one row per symbol, in `SYMBOLS` order.
- `print_md.dfy`, module `PrintMd`: `str.strip`, `str.split(',')`, the
  `MAPPDING` dictionary loop, the Markdown table loop and the placeholder
  table.

Inputs the scripts read from the outside world are parameters:

- "today" (`datetime.now()`) is a `Date`.
- The data provider plus the KDJ computation is `fetch(kind, code, period)`,
  which returns a sequence of `Bar(date, close, j)`.
- `{x:.2f}` and `str(float)` are functions from `real` to `string`.
- The symbol file is a sequence of lines.

## Behaviour of the code worth knowing

- The month flag compares the next workday's month with this month + 1.
  On a December day the right side is 13, so the flag is never true in
  December. This holds even on the last workday of the year. On that day the
  monthly row is then the second-to-last bar (`Calendar.LastDayOfMonthIff`,
  `Calendar.DecemberExample`: 2026-12-31, a Thursday, is followed by the
  workday 2027-01-01, yet the flag is false). The model keeps this as written.
- The code does not do the following, and the model follows the code:
  - There is no retry or backoff around the fetch. The only rate shaping is
    the fixed 2-second `time.sleep` after each (symbol, period) pair, which
    the model leaves out.
  - A series too short for its offset does not give an absent value:
    `iloc` raises and ends the run (`GenerateRecords` returns `Err`).
  - An empty symbol list does not give an empty table: `pd.concat` of no
    records raises (`GenerateRecords` returns `Err(NoObjectsToConcatenate)`).
  - Duplicate symbols are not rejected.
  - A symbol line without exactly three fields raises `ValueError`. It is not
    skipped.
  - J = -5 is not highlighted. Only J < -5 (dark red) and -5 < J < 0 (light
    red) are.
- The must-watch test looks for `"**"` in every string cell: the code, the
  name and the three coloured J values. The closes and missing (NaN) cells are
  floats and never match. `MustWatchIffFlagged` therefore assumes that codes
  and names contain no `*`.

## Model

| member | source | states |
|---|---|---|
| `Calendar.NextDay` | gen_fcast.py:19-21 | the day after a valid date is a valid date whose ordinal is one more, so the weekday advances by one |
| `Calendar.DaysBeforeYearClosedForm` | gen_fcast.py:20 | the ordinal's year count equals CPython's closed form `p*365 + p//4 - p//100 + p//400`, so `Weekday` is `date.weekday()` |
| `Calendar.Weekday` | gen_fcast.py:20 | the weekday is a number from 0 (Monday) to 6 (Sunday) |
| `Calendar.WeekdayAfter` | gen_fcast.py:19-21 | k days later the weekday has advanced by k modulo 7 |
| `Calendar.NextWorkdayIsFirst` | gen_fcast.py:18-22 | the next workday is 1 to 3 days later, falls on Monday to Friday, and every date strictly between is a Saturday or Sunday |
| `Calendar.NextWorkdayLoop` | gen_fcast.py:18-22 | the `while` loop terminates and returns exactly the first Monday-to-Friday date after the input (gap 3 from Friday, 2 from Saturday, 1 otherwise) |
| `Calendar.LastDayOfWeekIff` | gen_fcast.py:26-27 | `LAST_DAY_OF_WEEK` (next workday is a Monday) holds exactly when today is Friday, Saturday or Sunday |
| `Calendar.AddDaysShape` | gen_fcast.py:19-21 | up to 28 days later is either later in the same month or in the following month, with the day number carried over |
| `Calendar.LastDayOfMonthIff` | gen_fcast.py:26-28 | `LAST_DAY_OF_MONTH` holds exactly when the next workday is in another month and today is not in December; the month changes exactly when day + gap exceeds the month length |
| `Calendar.DecemberExample` | gen_fcast.py:28 | on 2026-12-31 the next workday is 2027-01-01, a new month, and the month flag is still false |
| `GenFcast.LastN` | gen_fcast.py:35-39 | every `LAST_N` offset is -1 or -2 |
| `GenFcast.LastNOnDay` | gen_fcast.py:25-39 | the daily offset is always -1; the weekly one is -1 exactly from Friday to Sunday; the monthly one is -1 exactly when the next workday opens a month other than January; otherwise -2 |
| `GenFcast.ILoc` | gen_fcast.py:80 | positional `iloc` succeeds exactly for positions from -len to len-1 and returns an element of the series |
| `GenFcast.SelectedRow` | gen_fcast.py:80 | with a `LAST_N` offset, a row is selected exactly when the series has at least that many rows, and it is the last row for -1 and the second-to-last for -2 |
| `GenFcast.RecordsLayout` | gen_fcast.py:54-84 | the records are 3 × len(SYMBOLS), symbol-major and period-minor; record 3i+j carries symbol i's code and name, period j, adjust `qfq`, and the selected row's date, close and J |
| `GenFcast.GenerateRecords` | gen_fcast.py:25-84 | the run succeeds exactly when there is at least one symbol and every (symbol, period) series is long enough for its offset, and then returns those records in loop order; otherwise it fails with `IndexError` naming the first pair, in loop order, whose selection raises, or, with no symbols, with the error `pd.concat` raises on an empty list |
| `Fcast2Md.WithColor` | fcast2md.py:12-18 | dark-red bold form exactly when x < -5; light-red bold form exactly when -5 < x < 0; the bare text exactly when x >= 0 or x == -5 |
| `Fcast2Md.MarkerIffFlagged` | fcast2md.py:12-18 | for any number text without `*`, the result contains `"**"` exactly when x < -5 or -5 < x < 0 |
| `Fcast2Md.Label` | fcast2md.py:33-37 | each period label is two characters ending in 线 (日线, 周线, 月线) |
| `Fcast2Md.ColumnNameInjective` | fcast2md.py:58 | the flattened pivot columns `<label>_<measure>` are distinct for distinct (period, measure) pairs, so the rename loses no column |
| `Fcast2Md.SelectSpec` | fcast2md.py:65 | a boolean-mask selection lists, in increasing order, exactly the positions the mask accepts |
| `Fcast2Md.FirstOccurrence` | fcast2md.py:62 | every (代码, 名称) pair has a first occurrence at or before each of its occurrences, which `drop_duplicates()` keeps |
| `Fcast2Md.CellForSpec` | fcast2md.py:57-59 | a pivot cell is present exactly when a record has that key and period, and without duplicate entries it holds that record's close and coloured J |
| `Fcast2Md.OrderedSpec` | fcast2md.py:54-62 | the pivot fails exactly on duplicate (代码, 名称, 周期) entries; otherwise `df_ordered` has one row per distinct (代码, 名称), no pair twice, every pair of the input present, in order of first appearance |
| `Fcast2Md.OrderedCells` | fcast2md.py:57-62 | a wide row's period cell is present exactly when a record for its pair and period exists, and equals that record's close and coloured J |
| `Fcast2Md.FilteredSpec` | fcast2md.py:65 | `filtered_df` keeps exactly the rows with a string cell containing `"**"`, each once, in their original order |
| `Fcast2Md.CellMarkedIff` | fcast2md.py:50-65 | a wide row's period cell carries the marker exactly when its record's J is flagged |
| `Fcast2Md.MustWatchIffFlagged` | fcast2md.py:50-65 | a row of `df_ordered` is must-watch exactly when one of its instrument's records has J < -5 or -5 < J < 0 |
| `Pipeline.RecordsLaidOut` | gen_fcast.py:54-84 | the run's records are laid out symbol-major and period-minor by key and period |
| `Pipeline.LaidOutNoDuplicates` | fcast2md.py:57 | with distinct codes the written table has no duplicate pivot entries, so the pivot does not raise |
| `Pipeline.LaidOutFirsts` | fcast2md.py:62 | with distinct codes the first occurrences are exactly each symbol's daily record |
| `Pipeline.ReportFollowsSymbols` | fcast2md.py:54-62 | with distinct codes, `df_ordered` of a run's records has one row per symbol in `SYMBOLS` order, each with all three period cells from its own records |
| `PrintMd.StripStart` | fcast2md.py:74 | removing leading whitespace leaves a suffix that does not start with whitespace, and only whitespace was removed |
| `PrintMd.StripEnd` | fcast2md.py:74 | removing trailing whitespace leaves a prefix that does not end with whitespace, and only whitespace was removed |
| `PrintMd.Strip` | fcast2md.py:74 | `strip()` returns a slice of the line, with only whitespace removed around it, that neither starts nor ends with whitespace |
| `PrintMd.Split` | fcast2md.py:74 | `split(',')` gives at least one field, no field contains a comma, and joining the fields with commas gives the line back |
| `PrintMd.SplitCount` | fcast2md.py:74 | there is one more field than commas, so a line unpacks into three names exactly when it has two commas |
| `PrintMd.SplitJoin` | fcast2md.py:74 | splitting undoes joining fields without the separator |
| `PrintMd.MapOfErr` | fcast2md.py:72-76 | reading fails exactly when some line does not split into three fields, with `ValueError` naming the first such line |
| `PrintMd.MapOfOk` | fcast2md.py:72-76 | after a successful read, the keys are exactly the lines' codes and each maps to the third field of the last line with that code |
| `PrintMd.ReadSymbols` | fcast2md.py:71-76 | the dictionary-filling loop yields exactly that map, or the `ValueError` of the first bad line |
| `PrintMd.RenderErr` | fcast2md.py:101-102 | rendering raises exactly when some row's code has no short name, with `KeyError` naming the first such row's code |
| `PrintMd.RenderOk` | fcast2md.py:99-103 | a successful rendering is the title line, the alignment line and one line per row in row order, each ended by a line break |
| `PrintMd.RenderLines` | fcast2md.py:99-103 | when names and cells have no line breaks, the rendered text splits into exactly the two header lines plus one line per row, in order |
| `PrintMd.RenderRows` | fcast2md.py:99-103 | the table-growing loop produces that rendering, or the `KeyError` of the first row without a short name |
| `PrintMd.EmptyTableSaysNone` | fcast2md.py:78-97 | the placeholder table contains 暂无 |
| `PrintMd.PrintMdSpec` | fcast2md.py:68-103 | `ValueError` exactly on a bad symbol line; otherwise the placeholder when there are no rows; otherwise `KeyError` exactly on an unmapped code; otherwise two header lines and one line per row |
| `PrintMd.PrintMarkdown` | fcast2md.py:68-103 | `print_md` reads the symbol file before looking at the table, then returns the placeholder or the rendered rows, as `PrintMdOf` describes |

## Left out

- Data fetching through akshare (gen_fcast.py:41-45, 68) and the KDJ computation through stock_pandas (gen_fcast.py:69-73, 78) are foreign libraries. They are the `fetch` parameter, and J arrives as a given number.
- Start and end dates (`START_DATE`, `CURRENT_DATE`) only shape the fetch request, so they are folded into `fetch`.
- `time.sleep`, the progress `print`, and all CSV, Markdown and HTML file I/O are left out, including the `markdown` library conversion and the `HEADER` and `NOTICE` constants.
- The CSV write and read-back between the two scripts is treated as the identity on records. The adjustment column's mapping to 前复权 is dropped, because the code pops that column right away.
- `daily_date`, `weekly_date` and `monthly_date` (fcast2md.py:39-41) only feed `NOTICE`, so they are left out. That includes the `IndexError` they raise when a period has no rows.
- Floating-point rendering (`{x:.2f}`, `str(float)`) is modelled as function parameters. NaN J values are not modelled; J is a `real`.
- `Fcast2Md.Ordered` represents a missing pivot cell as `None`, printed as `nan`. Whether pandas keeps a period column that no row fills is not modelled; all three columns are always present.
- `Calendar.NextDay` uses unbounded years, so Python's `OverflowError` after 9999-12-31 is not modelled. The time of day of `datetime.now()` does not affect the weekday or month, so a date suffices.
- Text read from the symbol file arrives as already-split lines. Universal-newline translation and file decoding are not modelled.
- upload_wxmp.py, md2img.py and upload_bilibili.py are HTTP clients and are not part of this model. Their `next_workday` copies are the same as gen_fcast.py:18-22, which `Calendar.NextWorkdayLoop` models.
