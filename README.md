# Work Time Logger — a Dafny model

The Work Time Logger is a small desktop tool (`scripts/main.py`). A user types a
project name and presses Start. Pressing Stop later appends a row to
`work_log.csv`. The row holds the date, the project, the start and end clock
times and the duration in minutes, rounded to two decimals. The tool can also
show an overview: the log rows of the last seven days, and each project's total
minutes. The log also feeds a dropdown of past project names.

This project models the core of that tool in Dafny and proves properties of it.
The core is:

- the table of sessions in progress (`active_sessions`);
- the Start and Stop handlers;
- creating the log at start-up;
- the two readers of the log, `load_data` and `update_project_list`.

The modules are:

- `Text` (`text.dfy`): Python's `str.strip()`, which both handlers apply to the
  project entry, proved to remove exactly the surrounding whitespace.
- `WorkLog` (`worklog.dfy`): the log as a value. It has rows (a well-formed
  `Entry` or any other line of `Cells`) and may be `Absent` from disk. The
  module also holds:
  - start-up initialisation and appending;
  - the duration and clock-time computations;
  - the specification functions of the readers: `Recent` is the table,
    `Projects` the order in which the totals dictionary first sees each project,
    `TotalsMap` the totals, `OverviewOf` the whole outcome of one press of
    "Show Overview", and `ProjectListOf` the dropdown;
  - the lemmas relating them.
- `LogReaders` (`readers.dfy`): `load_data` and `update_project_list` as methods
  that loop over the rows. Each is proved equal to its specification function.
- `Sessions` (`sessions.dfy`): the class `Tracker`. Its fields are the sessions
  in progress, the log and the dropdown values. Its methods are the Start and
  Stop handlers, which update those fields in place. Two client methods follow a
  tracker through Start then Stop, and through a Stop without a Start.

The model keeps several behaviours that are easy to miss:

- **Totals cover the whole log.** The summary is headed "Last 7 Days", but
  `load_data` adds every data row to the totals. Only the table rows are
  filtered by date. `TotalsIgnoreWindow` and `WindowExample` state this.
- **A bad row stops the read midway.** In the source, a data row that does not
  unpack into five cells, or whose date or duration does not parse, raises
  inside the loop. The table keeps the rows inserted so far and the summary is
  not updated. This is the outcome `Aborted(rows)`.
- **An empty log file raises.** A log file that exists but is empty makes
  `next(reader)` raise. That is `Aborted([])` for the overview and `ListFailed`
  for the dropdown. A failed dropdown read keeps its old values.
- **Rows written without a header are skipped.** When the log is deleted while
  the tool runs, the next Stop recreates it with no header. Both readers then
  skip that first row as if it were the header (`FirstAppendToMissingLogIsSkipped`).

## Model

| member | source | states |
|---|---|---|
| Text.Strip | scripts/main.py:21 | the project name is the entry with a whitespace-only prefix and suffix removed, and it neither begins nor ends with whitespace |
| Text.StripEmptyIffBlank | scripts/main.py:21-24 | a start is refused as having no project name exactly when the entry holds nothing but whitespace |
| Text.StripIdempotent | scripts/main.py:21-30 | stripping a stored name again gives the same name, so re-entering it finds the running session |
| WorkLog.InitializeKeepsExisting | scripts/main.py:10-14 | at start-up a missing log is created holding only the header row; an existing log is left untouched; initialising twice is the same as once |
| WorkLog.Append | scripts/main.py:44-47 | appending adds exactly one row at the end and keeps every earlier row; a missing file is created holding only that row, with no header |
| WorkLog.Duration | scripts/main.py:42 | the duration is the elapsed time rounded to the nearest hundredth of a minute (within half a unit), and it is not negative when the end is not before the start |
| WorkLog.ClockOf | scripts/main.py:46-47 | the logged start and end times are the seconds since local midnight of each instant: below 24 hours, and differing from the whole seconds since the epoch, shifted by the zone offset, by a whole number of days |
| WorkLog.ClockOfTick | scripts/main.py:46-47 | one second later the logged time of day is the next second, wrapping to 00:00:00 after 23:59:59 |
| WorkLog.Recent | scripts/main.py:60-70 | the table holds no more rows than were read, and every row shown is dated at most seven days before today |
| WorkLog.RecentMembership | scripts/main.py:65-70 | a record is in the table if and only if it is a data row read so far and its date is on or after today minus seven days |
| WorkLog.RecentCount | scripts/main.py:65-70 | the table shows each record exactly as many times as the rows read hold it when it is within the window, and not at all otherwise: identical rows are each inserted |
| WorkLog.RecentOfPrefix | scripts/main.py:65-70 | rows are inserted in log order: the table after fewer rows is a prefix of the table after more |
| WorkLog.Projects | scripts/main.py:72-75 | the totals dictionary holds each project once |
| WorkLog.ProjectsMembership | scripts/main.py:72-75 | the projects in the totals are exactly the project fields of the data rows read |
| WorkLog.ProjectsOfPrefix | scripts/main.py:72-79 | the summary lists projects in the order they were first read; reading more rows only adds to the end |
| WorkLog.TotalsMapIsPerProjectSum | scripts/main.py:72-75 | the totals dictionary has one key per project read, and each value is the sum of that project's durations |
| WorkLog.TotalsKeysAreProjects | scripts/main.py:72-75 | the `project in project_totals` test matches membership in the order of first appearance |
| WorkLog.TotalsAddUp | scripts/main.py:72-80 | the per-project totals add up to the sum of all durations read |
| WorkLog.FirstMalformed | scripts/main.py:65-67 | locates the first data row that makes the reader raise: every row before it is well formed |
| WorkLog.OverviewOfWellFormed | scripts/main.py:53-82 | a log with a header and only well-formed data rows shows the windowed table and the totals of all its rows |
| WorkLog.OverviewOfMalformed | scripts/main.py:62-70 | when data row j is the first malformed one, the overview stops there, holding the windowed rows read before j and no new summary |
| WorkLog.TotalsIgnoreWindow | scripts/main.py:69-80 | the totals and their order do not depend on today's date: only the table is filtered by the seven-day window |
| WorkLog.TotalsExample | scripts/main.py:53-80 | sessions of 30 and 45 minutes on one project and 10 minutes on another total 75 and 10 minutes, listed in the order first logged |
| WorkLog.WindowExample | scripts/main.py:60-75 | a row dated eight days ago is left out of the table, one dated seven days ago is shown, and both are totalled |
| WorkLog.DropdownMatchesTotals | scripts/main.py:84-94 | whenever the overview can be shown, the dropdown offers exactly the projects of its totals |
| WorkLog.FirstAppendToMissingLogIsSkipped | scripts/main.py:44-47 | a row appended to a missing log becomes its first row, which both readers skip as the header |
| WorkLog.AppendedRecordsReadBack | scripts/main.py:11-82 | records appended to a freshly created log are read back as written: the windowed ones are shown in order and all are totalled |
| LogReaders.LoadData | scripts/main.py:53-82 | the loop over the rows produces exactly the specified overview: no log, the partial table of an aborted read, or the full table with the project order and totals |
| LogReaders.UpdateProjectList | scripts/main.py:84-94 | the loop produces the set of second cells of the rows after the header; a missing log gives no names; an empty log or a row without a second cell fails |
| Sessions.Tracker.constructor | scripts/main.py:10-17 | start-up creates the log if it is missing, and no session is running |
| Sessions.Tracker.RefreshProjects | scripts/main.py:84-94 | the dropdown takes the names read from the log; a failed read leaves it unchanged |
| Sessions.Tracker.StartTracking | scripts/main.py:19-31 | refused if and only if the stripped name is empty; otherwise reported as already running if and only if a session for it is in progress, which then keeps its start time; otherwise a session for the stripped name starts now; no running name is ever empty or padded with whitespace |
| Sessions.Tracker.StopTracking | scripts/main.py:33-51 | refused if and only if no session runs for the stripped name, and then nothing changes; otherwise the session is removed, exactly one row (today, name, start and end clock times, rounded duration) is appended to the log, and the dropdown is refreshed from the new log |
| Sessions.StartThenStop | scripts/main.py:19-47 | a start followed by a later stop appends exactly one record, for the stripped name, dated today, with a non-negative duration |
| Sessions.StopWithoutStart | scripts/main.py:33-38 | a stop with no matching start is refused and leaves the log unchanged |

## Left out

- The tkinter window, its widgets, the message boxes and the text of the summary
  label (`scripts/main.py:55`, `:77-82`, `:96-133`) are not modelled. The handlers
  return their warnings and confirmations as outcome values instead.
  `load_data` clears the table before reading. The model returns the rows the
  table ends up with and does not model the widget.
- The entry text, `time.time()`, `datetime.date.today()` and the local time
  zone are parameters of the handlers. Dates are day ordinals. Instants are
  integer milliseconds.
- `scripts/prototype_executable.py` is not part of this model.
- The CSV format is not modelled. That covers quoting, the written date and
  `%H:%M:%S` strings, and parsing them back. A log row is either a well-formed
  `Entry` or some other line, `Cells`. A data row in `Cells` is a row on which
  `load_data` raises. Its second cell, if it has one, is what
  `update_project_list` reads.
- WorkLog.Record: the start and end cells are clock times. A hand-edited row
  with other text in those cells, but a valid date and duration, is shown by
  the source. The model has no such row.
- WorkLog.Duration: the source divides floating-point seconds by 60 and rounds
  to two decimals with Python's `round`. That rounds ties to even on binary
  floats. The model rounds integer milliseconds half up, to hundredths of a
  minute.
- WorkLog.TotalsMap: the totals are exact sums of hundredths. The source adds
  floats, and the display's `int(float(...))` and `round(total / 60, 2)`
  conversions are not modelled.
- WorkLog.ClockOf: the time zone is a fixed offset. Daylight-saving changes
  between the start and the stop are not modelled.
- File system errors are not modelled: the append always succeeds. In the
  source, a failed write after `active_sessions.pop` loses the session.
- If `update_project_list` raises at start-up (`scripts/main.py:106`), the
  program stops before its window appears. The model shows this as a
  `ListFailed` listing. A client that sees it at start-up has no tracker to go
  on with.
- Mid-session toggling and dual-category sessions are not part of
  `scripts/main.py`, so they are not modelled.
