/**
  The work log (`work_log.csv`): its rows, how it is created and appended to,
  and what the two readers of the time logger compute from it — the table and
  the per-project totals of the overview, and the project names offered by the
  dropdown. The readers themselves, which loop over the rows, are in module
  LogReaders; the functions here are their specifications.

  Calendar dates are day ordinals and are passed in (`datetime.date.today()`);
  instants are integer milliseconds since the epoch and are passed in
  (`time.time()`); durations are integer hundredths of a minute, the precision
  to which the source rounds them.
 */
module WorkLog {

  type Day = int
  type Instant = int

  /** The overview shows rows dated at most this many days before today. */
  const Window: int := 7

  const MillisPerSecond: int := 1000
  const SecondsPerDay: int := 86400
  /** One hundredth of a minute, the unit of a duration, in milliseconds. */
  const MillisPerUnit: int := 600

  /** A completed session as the log stores it. `start` and `end` are times of
      day in seconds since midnight; `duration` is in hundredths of a minute. */
  datatype Record = Record(date: Day, project: string, start: nat, end: nat, duration: int)

  /** One row of the log. `Entry` is a row of five cells whose date and
      duration parse; `Cells` is any other row, as its text cells: a row of
      another width, or one whose date or duration does not parse. The header
      is such a row. */
  datatype Row = Entry(rec: Record) | Cells(cells: seq<string>)

  /** The log file: absent, or present with its rows in file order. */
  datatype LogFile = Absent | Present(rows: seq<Row>)

  const Header: Row := Cells(["Date", "Project", "Start Time", "End Time", "Duration (mins)"])

  /** Start-up: create the log with its header row only when there is none. */
  function Initialize(file: LogFile): (r: LogFile)
  {
    if file.Absent? then Present([Header]) else file
  }

  /** Initialising never truncates an existing log and never writes a second
      header; an absent log gets exactly the header. */
  lemma InitializeKeepsExisting(file: LogFile)
    ensures Initialize(file).Present?
    ensures file.Present? ==> Initialize(file) == file
    ensures file.Absent? ==> Initialize(file).rows == [Header]
    ensures Initialize(Initialize(file)) == Initialize(file)
  {
  }

  /** Opening the log in append mode and writing one row; a missing file is
      created, without a header. */
  function Append(file: LogFile, row: Row): (r: LogFile)
    ensures r.Present? && |r.rows| > 0 && r.rows[|r.rows| - 1] == row
    ensures file.Present? ==> r.rows[..|r.rows| - 1] == file.rows
    ensures file.Absent? ==> r.rows == [row]
  {
    match file
    case Absent => Present([row])
    case Present(rows) => Present(rows + [row])
  }

  /** `round((end - start) / 60, 2)` minutes as hundredths of a minute: the
      nearest whole number of units, halves rounded up. */
  function Duration(start: Instant, end: Instant): (r: int)
    ensures -MillisPerUnit / 2 <= (end - start) - MillisPerUnit * r < MillisPerUnit / 2
    ensures start <= end ==> r >= 0
  {
    (end - start + MillisPerUnit / 2) / MillisPerUnit
  }

  /** `time.localtime(t)` reduced to `%H:%M:%S`, as seconds since midnight, for
      a fixed offset `zone` (in milliseconds) from UTC. */
  function ClockOf(t: Instant, zone: int): (r: nat)
    ensures r < SecondsPerDay
    ensures exists day :: (t + zone) / MillisPerSecond == day * SecondsPerDay + r
  {
    var q := (t + zone) / MillisPerSecond;
    assert q == (q / SecondsPerDay) * SecondsPerDay + q % SecondsPerDay;
    q % SecondsPerDay
  }

  /** One second later the clock shows the next second, wrapping to midnight. */
  lemma ClockOfTick(t: Instant, zone: int)
    ensures ClockOf(t + MillisPerSecond, zone) == (ClockOf(t, zone) + 1) % SecondsPerDay
  {
    var q := (t + zone) / MillisPerSecond;
    assert (t + MillisPerSecond + zone) / MillisPerSecond == q + 1;
    var r := q % SecondsPerDay;
    assert q == (q / SecondsPerDay) * SecondsPerDay + r;
    if r + 1 < SecondsPerDay {
      assert (q + 1) % SecondsPerDay == r + 1;
    } else {
      assert q + 1 == (q / SecondsPerDay + 1) * SecondsPerDay;
      assert (q + 1) % SecondsPerDay == 0;
    }
  }

  /** The rows after the header: what both readers scan. */
  function Data(rows: seq<Row>): seq<Row>
    requires rows != []
  {
    rows[1..]
  }

  // ---------------------------------------------------------------------------
  // The table: records dated within the window, in log order
  //
  // The functions below describe what the readers have computed after the
  // first `n` data rows; the whole log is `n == |rows|`.

  predicate InWindow(rec: Record, today: Day) {
    rec.date >= today - Window
  }

  /** The table rows taken from the first `n` rows. */
  function Recent(rows: seq<Row>, n: nat, today: Day): (r: seq<Record>)
    requires n <= |rows|
    ensures |r| <= n
    ensures forall i :: 0 <= i < |r| ==> InWindow(r[i], today)
  {
    if n == 0 then []
    else
      var prefix := Recent(rows, n - 1, today);
      match rows[n - 1]
      case Entry(rec) => if InWindow(rec, today) then prefix + [rec] else prefix
      case Cells(_) => prefix
  }

  /** The table holds a record exactly when the log holds it and it is dated
      within the window. */
  lemma {:induction false} RecentMembership(rows: seq<Row>, n: nat, today: Day, rec: Record)
    requires n <= |rows|
    ensures rec in Recent(rows, n, today) <==> Entry(rec) in rows[..n] && InWindow(rec, today)
  {
    if n > 0 {
      RecentMembership(rows, n - 1, today, rec);
      assert rows[..n] == rows[..n - 1] + [rows[n - 1]];
    }
  }

  /** The table shows each record as many times as the log holds it within the
      window: identical rows are each inserted. */
  lemma {:induction false} RecentCount(rows: seq<Row>, n: nat, today: Day, rec: Record)
    requires n <= |rows|
    ensures multiset(Recent(rows, n, today))[rec]
            == if InWindow(rec, today) then multiset(rows[..n])[Entry(rec)] else 0
  {
    if n > 0 {
      RecentCount(rows, n - 1, today, rec);
      assert rows[..n] == rows[..n - 1] + [rows[n - 1]];
    }
  }

  /** Reading more rows only adds to the end of the table: the records keep
      the order of the log. */
  lemma {:induction false} RecentOfPrefix(rows: seq<Row>, m: nat, n: nat, today: Day)
    requires m <= n <= |rows|
    ensures Recent(rows, m, today) <= Recent(rows, n, today)
  {
    if m < n {
      RecentOfPrefix(rows, m, n - 1, today);
    }
  }

  // ---------------------------------------------------------------------------
  // The totals: one per project, over every row read

  /** The projects of the first `n` rows, as a set: the reference definition of
      "the distinct projects of the log". */
  function ProjectSet(rows: seq<Row>, n: nat): set<string>
    requires n <= |rows|
  {
    set i | 0 <= i < n && rows[i].Entry? :: rows[i].rec.project
  }

  lemma ProjectSetStep(rows: seq<Row>, n: nat)
    requires 0 < n <= |rows|
    ensures ProjectSet(rows, n)
            == ProjectSet(rows, n - 1) + (if rows[n - 1].Entry? then {rows[n - 1].rec.project} else {})
  {
  }

  predicate Distinct(ps: seq<string>) {
    forall i, j :: 0 <= i < j < |ps| ==> ps[i] != ps[j]
  }

  /** The projects of the first `n` rows in the order they are first met: the
      key order of the source's `project_totals` dictionary. */
  function Projects(rows: seq<Row>, n: nat): (r: seq<string>)
    requires n <= |rows|
    ensures Distinct(r)
  {
    if n == 0 then []
    else
      var ps := Projects(rows, n - 1);
      var last := rows[n - 1];
      if last.Cells? || last.rec.project in ps then ps else ps + [last.rec.project]
  }

  /** The order lists every project read, and nothing else. */
  lemma {:induction false} ProjectsMembership(rows: seq<Row>, n: nat)
    requires n <= |rows|
    ensures forall p :: p in Projects(rows, n) <==> p in ProjectSet(rows, n)
  {
    if n > 0 {
      ProjectsMembership(rows, n - 1);
      ProjectSetStep(rows, n);
    }
  }

  /** The order of the projects met in the first `m` rows is a prefix of the
      order after more rows: a project comes before another exactly when it is
      met first. */
  lemma {:induction false} ProjectsOfPrefix(rows: seq<Row>, m: nat, n: nat)
    requires m <= n <= |rows|
    ensures Projects(rows, m) <= Projects(rows, n)
  {
    if m < n {
      ProjectsOfPrefix(rows, m, n - 1);
    }
  }

  /** Sum of the durations logged for project `p` in the first `n` rows. */
  function Total(rows: seq<Row>, n: nat, p: string): int
    requires n <= |rows|
  {
    if n == 0 then 0
    else
      var last := rows[n - 1];
      Total(rows, n - 1, p) + (if last.Entry? && last.rec.project == p then last.rec.duration else 0)
  }

  lemma {:induction false} TotalOfUnseen(rows: seq<Row>, n: nat, p: string)
    requires n <= |rows|
    requires p !in ProjectSet(rows, n)
    ensures Total(rows, n, p) == 0
  {
    if n > 0 {
      ProjectSetStep(rows, n);
      TotalOfUnseen(rows, n - 1, p);
    }
  }

  /** Sum of every duration in the first `n` rows. */
  function GrandTotal(rows: seq<Row>, n: nat): int
    requires n <= |rows|
  {
    if n == 0 then 0
    else GrandTotal(rows, n - 1) + (if rows[n - 1].Entry? then rows[n - 1].rec.duration else 0)
  }

  /** The dictionary `project_totals`, built as the source builds it: each
      entry adds its duration to its project's total, creating the total when
      the project is new. */
  function TotalsMap(rows: seq<Row>, n: nat): map<string, int>
    requires n <= |rows|
  {
    if n == 0 then map[]
    else
      var m := TotalsMap(rows, n - 1);
      match rows[n - 1]
      case Entry(rec) =>
        m[rec.project := (if rec.project in m then m[rec.project] else 0) + rec.duration]
      case Cells(_) => m
  }

  /** The dictionary holds one total per project read, and that total is the
      sum of the durations logged for the project. */
  lemma {:induction false} TotalsMapIsPerProjectSum(rows: seq<Row>, n: nat)
    requires n <= |rows|
    ensures TotalsMap(rows, n).Keys == ProjectSet(rows, n)
    ensures forall p :: p in TotalsMap(rows, n) ==> TotalsMap(rows, n)[p] == Total(rows, n, p)
  {
    if n > 0 {
      TotalsMapIsPerProjectSum(rows, n - 1);
      ProjectSetStep(rows, n);
      var last := rows[n - 1];
      if last.Entry? && last.rec.project !in ProjectSet(rows, n - 1) {
        TotalOfUnseen(rows, n - 1, last.rec.project);
      }
    }
  }

  /** The dictionary's keys are the projects of the order. */
  lemma TotalsKeysAreProjects(rows: seq<Row>, n: nat)
    requires n <= |rows|
    ensures forall p :: p in TotalsMap(rows, n) <==> p in Projects(rows, n)
  {
    TotalsMapIsPerProjectSum(rows, n);
    ProjectsMembership(rows, n);
  }

  /** Sum of the totals of the projects `ps` over the first `n` rows. */
  function SumOver(ps: seq<string>, rows: seq<Row>, n: nat): int
    requires n <= |rows|
  {
    if ps == [] then 0 else SumOver(ps[..|ps| - 1], rows, n) + Total(rows, n, ps[|ps| - 1])
  }

  lemma {:induction false} SumOverStep(ps: seq<string>, rows: seq<Row>, n: nat)
    requires 0 < n <= |rows|
    requires Distinct(ps)
    ensures var last := rows[n - 1];
            SumOver(ps, rows, n)
            == SumOver(ps, rows, n - 1) + (if last.Entry? && last.rec.project in ps then last.rec.duration else 0)
  {
    if ps != [] {
      var init := ps[..|ps| - 1];
      SumOverStep(init, rows, n);
      assert ps == init + [ps[|ps| - 1]];
    }
  }

  /** The per-project totals account for every logged duration exactly once:
      summed over all projects they give the sum of everything read. */
  lemma {:induction false} TotalsAddUp(rows: seq<Row>, n: nat)
    requires n <= |rows|
    ensures SumOver(Projects(rows, n), rows, n) == GrandTotal(rows, n)
  {
    if n > 0 {
      TotalsAddUp(rows, n - 1);
      var ps := Projects(rows, n - 1);
      SumOverStep(ps, rows, n);
      var last := rows[n - 1];
      if last.Entry? && last.rec.project !in ps {
        ProjectsMembership(rows, n - 1);
        TotalOfUnseen(rows, n - 1, last.rec.project);
        assert Projects(rows, n) == ps + [last.rec.project];
        assert (ps + [last.rec.project])[..|ps|] == ps;
      }
    }
  }

  // ---------------------------------------------------------------------------
  // What the overview shows

  /** Index of the first row at or after `from` that is not a well-formed
      entry, or the number of rows when there is none. */
  function FirstMalformed(rows: seq<Row>, from: nat): (k: nat)
    requires from <= |rows|
    ensures from <= k <= |rows|
    ensures forall i :: from <= i < k ==> rows[i].Entry?
    ensures k < |rows| ==> rows[k].Cells?
    decreases |rows| - from
  {
    if from == |rows| || rows[from].Cells? then from else FirstMalformed(rows, from + 1)
  }

  /** What one press of "Show Overview" leaves behind. */
  datatype Overview =
    /** No log file: the table is cleared and the summary left as it was. */
    | NoLog
    /** The table rows, and the totals with their keys in first-seen order. */
    | Shown(rows: seq<Record>, order: seq<string>, totals: map<string, int>)
    /** The read stopped with an exception: the table holds the rows inserted
        before the first malformed row and the summary is left as it was. */
    | Aborted(rows: seq<Record>)

  function OverviewOf(file: LogFile, today: Day): Overview {
    match file
    case Absent => NoLog
    case Present(rows) =>
      if rows == [] then Aborted([])
      else
        var data := Data(rows);
        var k := FirstMalformed(data, 0);
        if k < |data| then Aborted(Recent(data, k, today))
        else Shown(Recent(data, k, today), Projects(data, k), TotalsMap(data, k))
  }

  /** A log whose data rows are all entries is shown in full. */
  lemma OverviewOfWellFormed(file: LogFile, today: Day)
    requires file.Present? && file.rows != []
    requires forall k :: 0 <= k < |Data(file.rows)| ==> Data(file.rows)[k].Entry?
    ensures var data := Data(file.rows);
            OverviewOf(file, today) == Shown(Recent(data, |data|, today), Projects(data, |data|), TotalsMap(data, |data|))
  {
  }

  /** A log whose data row `j` is the first one that is not an entry shows the
      records before it and stops. */
  lemma OverviewOfMalformed(file: LogFile, today: Day, j: nat)
    requires file.Present? && file.rows != []
    requires j < |Data(file.rows)| && Data(file.rows)[j].Cells?
    requires forall k :: 0 <= k < j ==> Data(file.rows)[k].Entry?
    ensures OverviewOf(file, today) == Aborted(Recent(Data(file.rows), j, today))
  {
  }

  /** The totals ignore the window: two overviews of the same log taken on
      different days show the same totals, in the same order. */
  lemma TotalsIgnoreWindow(file: LogFile, today: Day, other: Day)
    requires OverviewOf(file, today).Shown?
    ensures OverviewOf(file, other).Shown?
    ensures OverviewOf(file, other).order == OverviewOf(file, today).order
    ensures OverviewOf(file, other).totals == OverviewOf(file, today).totals
  {
  }

  /** Sessions of 30 and 45 minutes on one project and 10 minutes on another
      total 75 and 10 minutes, in the order the projects were first logged. */
  lemma TotalsExample(today: Day)
    ensures var a := Record(today, "P1", 0, 1800, 3000);
            var b := Record(today, "P1", 3600, 6300, 4500);
            var c := Record(today, "P2", 7200, 7800, 1000);
            OverviewOf(Present([Header, Entry(a), Entry(b), Entry(c)]), today)
            == Shown([a, b, c], ["P1", "P2"], map["P1" := 7500, "P2" := 1000])
  {
    var a := Record(today, "P1", 0, 1800, 3000);
    var b := Record(today, "P1", 3600, 6300, 4500);
    var c := Record(today, "P2", 7200, 7800, 1000);
    var file := Present([Header, Entry(a), Entry(b), Entry(c)]);
    var data := [Entry(a), Entry(b), Entry(c)];
    assert Data(file.rows) == data;
    assert Recent(data, 3, today) == [a, b, c] by {
      assert Recent(data, 1, today) == [a];
      assert Recent(data, 2, today) == [a, b];
    }
    assert Projects(data, 3) == ["P1", "P2"] by {
      assert "P1" != "P2" by { assert "P1"[1] != "P2"[1]; }
      assert Projects(data, 1) == ["P1"];
      assert Projects(data, 2) == ["P1"];
    }
    assert TotalsMap(data, 3) == map["P1" := 7500, "P2" := 1000] by {
      assert "P1" != "P2" by { assert "P1"[1] != "P2"[1]; }
      assert TotalsMap(data, 1) == map["P1" := 3000];
      assert TotalsMap(data, 2) == map["P1" := 7500];
    }
    OverviewOfWellFormed(file, today);
  }

  /** With today eight days after one session and seven days after another,
      the table shows only the later one, while the totals count both. */
  lemma WindowExample(today: Day)
    ensures var old8 := Record(today - 8, "P", 0, 60, 100);
            var old7 := Record(today - 7, "P", 0, 60, 100);
            OverviewOf(Present([Header, Entry(old8), Entry(old7)]), today)
            == Shown([old7], ["P"], map["P" := 200])
  {
    var old8 := Record(today - 8, "P", 0, 60, 100);
    var old7 := Record(today - 7, "P", 0, 60, 100);
    var file := Present([Header, Entry(old8), Entry(old7)]);
    var data := Data(file.rows);
    OverviewOfWellFormed(file, today);
    assert data[0] == Entry(old8) && data[1] == Entry(old7);
    assert Recent(data, 1, today) == [];
    assert Projects(data, 1) == ["P"];
    assert TotalsMap(data, 1) == map["P" := 100];
  }

  // ---------------------------------------------------------------------------
  // The project dropdown

  /** A row has a second cell, which the dropdown reads as its project. */
  predicate HasName(row: Row) {
    row.Entry? || |row.cells| >= 2
  }

  function NameOf(row: Row): string
    requires HasName(row)
  {
    if row.Entry? then row.rec.project else row.cells[1]
  }

  datatype Listing =
    /** The names offered by the dropdown. */
    | Listed(names: set<string>)
    /** The read stopped with an exception; the dropdown keeps its values. */
    | ListFailed

  function ProjectListOf(file: LogFile): Listing {
    match file
    case Absent => Listed({})
    case Present(rows) =>
      if rows == [] then ListFailed
      else if forall i :: 1 <= i < |rows| ==> HasName(rows[i])
      then Listed(set i | 1 <= i < |rows| :: NameOf(rows[i]))
      else ListFailed
  }

  /** Whenever the overview can be shown, the dropdown offers exactly the
      projects of its totals: the distinct project fields of the data rows. */
  lemma DropdownMatchesTotals(file: LogFile, today: Day)
    requires OverviewOf(file, today).Shown?
    ensures ProjectListOf(file) == Listed(set p | p in OverviewOf(file, today).order)
  {
    var rows := file.rows;
    var data := Data(rows);
    var names := set i | 1 <= i < |rows| :: NameOf(rows[i]);
    ProjectsMembership(data, |data|);
    forall p | p in names ensures p in ProjectSet(data, |data|) {
      var i :| 1 <= i < |rows| && NameOf(rows[i]) == p;
      assert data[i - 1] == rows[i];
    }
    forall p | p in ProjectSet(data, |data|) ensures p in names {
      var i :| 0 <= i < |data| && data[i].Entry? && data[i].rec.project == p;
      assert rows[i + 1] == data[i];
    }
  }

  /** A row appended to a missing log becomes its first row, which both readers
      skip as the header: the session is logged but neither shown nor totalled
      nor offered. */
  lemma FirstAppendToMissingLogIsSkipped(rec: Record, today: Day)
    ensures OverviewOf(Append(Absent, Entry(rec)), today) == Shown([], [], map[])
    ensures ProjectListOf(Append(Absent, Entry(rec))) == Listed({})
  {
    assert Data([Entry(rec)]) == [];
  }

  // ---------------------------------------------------------------------------
  // Appending and reading back

  function AppendAll(file: LogFile, recs: seq<Record>): (r: LogFile)
    ensures r.Present? || (file.Absent? && recs == [])
  {
    if recs == [] then file else Append(AppendAll(file, recs[..|recs| - 1]), Entry(recs[|recs| - 1]))
  }

  function Entries(recs: seq<Record>): (r: seq<Row>)
    ensures |r| == |recs|
    ensures forall i :: 0 <= i < |recs| ==> r[i] == Entry(recs[i])
  {
    if recs == [] then [] else Entries(recs[..|recs| - 1]) + [Entry(recs[|recs| - 1])]
  }

  lemma {:induction false} AppendAllRows(rows: seq<Row>, recs: seq<Record>)
    ensures AppendAll(Present(rows), recs) == Present(rows + Entries(recs))
  {
    if recs != [] {
      AppendAllRows(rows, recs[..|recs| - 1]);
      assert rows + Entries(recs) == rows + Entries(recs[..|recs| - 1]) + [Entry(recs[|recs| - 1])];
    }
  }

  /** Records appended to a freshly initialised log are read back as they were
      written: the overview shows those of them within the window, in order,
      and totals all of them. */
  lemma {:induction false} AppendedRecordsReadBack(recs: seq<Record>, today: Day)
    ensures OverviewOf(AppendAll(Initialize(Absent), recs), today)
            == Shown(Recent(Entries(recs), |recs|, today), Projects(Entries(recs), |recs|),
                     TotalsMap(Entries(recs), |recs|))
  {
    AppendAllRows([Header], recs);
    var rows := [Header] + Entries(recs);
    assert Data(rows) == Entries(recs);
    OverviewOfWellFormed(Present(rows), today);
  }
}
