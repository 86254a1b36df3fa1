# LST_series: quality report, export polling and Drive selection

This project models the sequential logic at the core of the LST_series
scripts and proves properties about it. The Earth Engine, Google Drive, pandas
and openpyxl calls are replaced by the values they report.

It covers three parts of the source:

- **`parse_record` (parseRecord.py).**
  - Quality records (city, year, month and four metrics) are sorted by
    (city, year, month). A sort on several columns in pandas is stable, so
    the model sorts with a stable insertion sort over Python's code-point
    string order. When two records share city, year and month, the later
    one in the input therefore wins the cell, as in the source.
  - Each distinct city gets one sheet.
  - Each year from 1986 to 2023 fills a five-row block. The block starts
    with `date_line(year)` and is followed by one row per metric in
    `property_list` order.
  - A metric row is the metric's name followed by twelve cells. Each cell is
    `'/'` unless a record of that month overwrites it.
  - Each filled cell gets one font or fill from a threshold rule, at the
    1-based openpyxl address `(current_row + pid + 1, i + 1)`.
  - The month index `row['month'] - 1` uses Python list indexing: months
    -11..0 wrap to the end of the list, and any other month outside 1..12
    raises `IndexError`. The model keeps this behaviour. The error becomes a
    `Failure` result, and no workbook is produced.
- **`check_task_status` (fetch_drive.py).** This is a run over the finite
  sequence of task states that successive `task.status()` calls report. It
  also covers the selection rules of `get_folder_id_by_name` and
  `download_and_clean` over a Drive modelled as a sequence of entries. Each
  query is a filter that keeps the Drive's order. `download_and_clean`
  passes `maxResults`, so it sees only the first page of at most 1000
  entries. A parameter says whether the download returns normally or
  raises.
- **The process counter and `check_and_refresh_token` (constants.py).**
  - The counter is a value threaded through a run of increments and
    decrements.
  - The refresh decision takes three parameters: the current time, the
    reply of `gauth.Refresh()` (`None` when the refresh raises) and whether
    `gauth.SaveCredentialsFile` returns normally.

Modules: `Wrappers` (Option and Result), `StringOrder` (Python's `str` order),
`QualityRecords` (records, sort, `unique()`), `ReportLayout` (rows, pivot,
style rules), `ReportRender` (the row-by-row sheet building and the
workbook), `DriveTasks` and `Session`.

## Model

| member | source | states |
|---|---|---|
| StringOrder.LessTransitive | parseRecord.py:13 | The string order the sort uses is transitive. |
| StringOrder.LessTrichotomous | parseRecord.py:13 | For any two city names exactly one holds: they are equal, the first is smaller, or the second is smaller. |
| QualityRecords.SortRecords | parseRecord.py:13 | The sorted records are ordered by (city, year, month) and are a permutation of the input, as a multiset. |
| QualityRecords.SortStable | parseRecord.py:13 | The sort is stable: the records that share a city, year and month keep their input order in the sorted frame, as in pandas' multi-column `sort_values`. |
| QualityRecords.SortKeepsRecords | parseRecord.py:13 | A record is in the sorted frame exactly when it is in the input. |
| QualityRecords.Cities | parseRecord.py:14 | `unique()` lists each city of the frame exactly once, and lists nothing else. |
| QualityRecords.CitiesAscending | parseRecord.py:13-14 | Once the frame is sorted, the unique cities come out strictly ascending. |
| ReportLayout.MetricNamed | parseRecord.py:37 | Reading a row's name cell recovers the metric whose name it is, and only that metric. |
| ReportLayout.DateLine | parseRecord.py:6-8 | `date_line(year)` has 13 cells: the year, then 1, 2, …, 12. |
| ReportLayout.CloudStyle | parseRecord.py:48-53 | A cloud ratio gets the red font iff it is above 10, the green fill iff it is below 5, and the blue font iff it is between 5 and 10 inclusive. |
| ReportLayout.CoverStyle | parseRecord.py:57-60 | A coverage proportion gets the yellow fill iff it is below 0.9, and the green fill iff it is at least 0.9. |
| ReportLayout.Slot | parseRecord.py:41 | `value_list[month - 1]` addresses a position in 0..11 that is congruent to month - 1 modulo 12. This is how Python's negative indexing behaves. |
| ReportLayout.Select | parseRecord.py:25-36 | A record is in a year's selection exactly when it has that city and that year. The selection is never longer than the input. |
| ReportLayout.SelectSorted | parseRecord.py:13-36 | Selecting one city's year from the sorted frame keeps it sorted, so that year's records are iterated in month order. |
| ReportLayout.SelectKeyRecords | parseRecord.py:25-36 | The selection keeps every record of that city, year and a given month, in the same order as the frame. |
| ReportLayout.Pivot | parseRecord.py:39-41 | A metric row always has 12 month cells, and each one is `'/'` or a number. |
| ReportLayout.PivotCells | parseRecord.py:39-41 | A cell stays `'/'` exactly when no record's month indexes it. Month m and m - 12 index the same cell, so month 0 fills December. Otherwise the cell holds the value of the last record whose month indexes it. |
| ReportLayout.PivotOnlyOwnSlot | parseRecord.py:40-41 | A record writes only the cell its month indexes (December for month 0). Removing the record leaves every other cell unchanged. |
| ReportRender.StylesMatchHeader | parseRecord.py:35 | Appending a `date_line` row adds no style, and the styles still sit only on cells whose value calls for them. |
| ReportRender.StyleMetricRow | parseRecord.py:44-60 | After a metric row is styled, every styled cell holds a number and has the style its row's metric rule gives that number. Every such number is styled, and `'/'` cells and name cells are not. |
| ReportRender.LastAtGreatestMonth | parseRecord.py:40-41 | In one city's year, sorted by month, the last record that writes a cell has the greatest month of all records that write it. |
| ReportRender.LastAtIsLatest | parseRecord.py:13-41 | The record that writes a cell last is, among the input records of that city and year whose month indexes the cell, one with the greatest month. It is also the last record in input order with its city, year and month. |
| ReportRender.SelectedCell | parseRecord.py:36-41 | A year's pivoted cell, read against the unsorted input, is `'/'` iff no record of that city and year has a month that indexes that cell. Month m and m - 12 share a cell, so month 0 fills December. Otherwise the cell holds the metric value of the record the source leaves there. That record has the greatest month among those landing in the cell, and is the last in input order among the records with its city, year and month. |
| ReportRender.MetricRowAt | parseRecord.py:42-43 | In a sheet that follows the layout, 0-based row `5k + pid + 1` is metric `pid`'s name followed by the pivot of year k's records. |
| ReportRender.RenderedCell | parseRecord.py:32-43 | In a rendered sheet, a month cell of metric `pid` in year k's block shows `'/'` exactly when no input record of that city and year has a month that indexes that cell (month 0 lands in December). Otherwise it shows the value of the record with the greatest month landing there, and the last in input order when several share that city, year and month. A record of a year outside 1986..2023 never fills a cell. |
| ReportRender.AppendYear | parseRecord.py:34-60 | One pass of the year loop appends exactly five rows: the `date_line`, then the four metric rows. The sheet still follows the layout, and its styles still match its rows. |
| ReportRender.RenderCity | parseRecord.py:27-63 | A city's sheet has its city as title and 190 rows. Year k's block starts at sheet row 1 + 5k and holds that year's date line and four metric rows, and every styled cell is styled by its rule. |
| ReportRender.BadCityHasBadMonth | parseRecord.py:40-41 | A city whose pivot would raise `IndexError` has a record with a listed year and a month that cannot index the list. |
| ReportRender.WorkbookCities | parseRecord.py:14-27 | The workbook has a sheet titled c exactly when some record has city c. The sheets are in strictly ascending title order, so no two share a title. |
| ReportRender.ParseRecord | parseRecord.py:10-64 | It fails iff some record of a listed year has a month that cannot index the list. Otherwise it builds one sheet per distinct city, in ascending order, each following the layout and styling. |
| DriveTasks.CheckTaskStatus | fetch_drive.py:19-39 | Polling ends iff a terminal state (COMPLETED, FAILED or CANCELLED) is observed. It ends at the first one, after exactly that many polls, and reports success iff that state is COMPLETED. |
| DriveTasks.PollingStopsAtTerminal | fetch_drive.py:28-36 | Once a terminal state has been read, later states are never consulted: appending states does not change the outcome. |
| DriveTasks.ListFile | fetch_drive.py:62 | A listing holds exactly the entries the query matches. Its first entry is the first match, and it is empty iff nothing matches. |
| DriveTasks.Matches | fetch_drive.py:61-74 | The two query strings as filters: a folder by title under a parent and not trashed, and the non-folder entries of a folder, trashed ones included. Its meaning is stated through `ListFile`. |
| DriveTasks.FirstPage | fetch_drive.py:73-76 | With `maxResults` set, the listing is a prefix of the full listing, at most 1000 entries long. It is the whole listing when that is shorter. |
| DriveTasks.GetFolderIdByName | fetch_drive.py:59-65 | The result is the id of the first untrashed folder with that title under the parent, or `None` exactly when no such folder exists. |
| DriveTasks.DownloadAndClean | fetch_drive.py:67-88 | Nothing is done iff no file on the first page of the listing is titled `cloud_file_name + '.tif'`. Otherwise the first such file is downloaded under that name. If the download returns, the same file is then deleted. If it raises, the exception propagates and nothing is deleted. The function raises exactly when the download or the delete raises. |
| Session.ProcessCounter.ExceedsLimit | constants.py:6-7 | The limit test. Its meaning over a run of updates is stated by `LimitFromZero`: true iff the counter is above 100. |
| Session.ProcessCounter.Increment | constants.py:9-11 | An increment makes the limit test true only from exactly 100. `ApplyCount` states that it adds one. |
| Session.ProcessCounter.Decrement | constants.py:13-15 | A decrement makes the limit test false only from exactly 101. `ApplyCount` states that it subtracts one. |
| Session.IncrementDecrementInverse | constants.py:9-15 | An increment followed by a decrement, or a decrement followed by an increment, leaves the counter unchanged. |
| Session.ApplyCount | constants.py:9-15 | Each increment adds exactly 1 to the counter, and each decrement subtracts exactly 1, in any order. |
| Session.BalancedRunRestores | constants.py:9-15 | A run with as many decrements as increments leaves the counter unchanged. |
| Session.LimitFromZero | constants.py:4-7 | Starting from 0, the limit test is true iff increments minus decrements exceed 100. |
| Session.CheckAndRefreshToken | constants.py:17-22 | With no refresh token it fails and does not refresh. With fewer than 300 seconds left, it refreshes and then saves to the configured path. It fails if the refresh fails. If the save fails, it fails carrying the renewed credentials, which the refresh has already put in place. Otherwise it does nothing and keeps the credentials. |
| Session.CheckAndRefreshTokenAsWritten | constants.py:18-20 | As written, with the expiry held as a `datetime`: every call fails, with `TypeError` whenever a refresh token is present. |
| Session.AsWrittenNeverRefreshes | constants.py:20-22 | For an expired token, the code as written raises `TypeError`, while the intended rule refreshes and saves. |
| Session.RefreshedTokenIsLeftAlone | constants.py:20-22 | After a refresh that returns a token valid for at least 300 more seconds, a later check before that point does nothing. |

## Left out

- CSV and xlsx output: the `records/<city>.csv` lines written with `','.join(map(str, …))`, and `note_city.save(...)`, are file I/O. The model stops at the rows and the style map.
- `print`, `logging`, `time.sleep(gap)` and `os.makedirs` are I/O and timing. The `gap` parameter has no effect on the outcome.
- Floating-point and NaN: metric values are Dafny `real`. A blank CSV cell, which pandas reads as NaN, is not modelled; in the source a NaN cloud ratio would get the blue font, because both comparisons are false, and a NaN coverage proportion would get the green fill, because `< 0.9` is false.
- ReportRender.WorkbookCities: openpyxl's rules for sheet titles are not modelled. These are the length limit, the forbidden characters, and the renaming of a title that equals an existing one up to letter case. So cities `Abc` and `abc` would get sheets `Abc` and `abc1` in the source, while the model titles each sheet with its city.
- openpyxl's ARGB normalisation of colours is not modelled. The colours are kept as the source writes them.
- ReportRender.StyleMetricRow: a cell's font and fill are kept as a single style. This is enough because the source sets at most one of them per cell.
- ReportRender.ParseRecord: an input with no records gives an empty workbook here. openpyxl refuses to save a workbook with no visible sheet, and that refusal is not modelled. `create_sheet(title=city)` also raises `ValueError` for a city name containing any of `\ * ? : / [ ]`. The model does not have that failure, so its "fails iff" covers only the month `IndexError`.
- The `day` field is carried by the records but never read.
- DriveTasks.CheckTaskStatus: a task that never reaches a terminal state polls forever. Over a finite run of states this shows up only as `StillPolling`. A `task.status()` call that raises (fetch_drive.py:21) is not modelled: every poll is taken to return a state.
- DriveTasks.DownloadAndClean: the first page is taken to hold the first 1000 matches. The Drive service may return a shorter page, and then the source searches fewer entries than the model does. `os.path.join(save_path, name)` is kept as a (directory, name) pair. Quoting inside Drive query strings is not modelled: titles containing `'` are treated as plain values. A listing call (`GetList()`, fetch_drive.py:62 and 73-76) that raises is not modelled: the listing is taken to return.
- DriveTasks.GetFolderIdByName: the parent id is a required parameter, matched literally against each entry's parents. The source's default `'root'` is the Drive's alias for the user's root folder, and the service resolves it to that folder's real id. The model does not resolve aliases, so a caller must pass the real id.
- `create_folder`, the Earth Engine export, the thread pools and the map display are outside this model.
- Session.CheckAndRefreshToken: `token_expiry` is modelled as seconds since the epoch, the unit `time.time()` returns (see Findings). The value read from `CREDENTIALS_FILE_PATH` is a parameter. Why a save fails is not modelled, only that it does.

## Findings

| source | as written | input that shows it | evidently intended | confidence | as-written member | corrected member |
|---|---|---|---|---|---|---|
| constants.py:20 | `gauth.credentials.token_expiry - time.time()` subtracts a float from oauth2client's `datetime` expiry. That raises `TypeError`, so any credentials with a refresh token make the check raise. | credentials with a refresh token and any expiry, e.g. one already past | refresh when fewer than 300 seconds of validity remain, otherwise leave the credentials alone | high, not executed | Session.CheckAndRefreshTokenAsWritten (shown by Session.AsWrittenNeverRefreshes) | Session.CheckAndRefreshToken |
