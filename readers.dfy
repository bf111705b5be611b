/**
  The two readers of the work log: `load_data`, behind the "Show Overview"
  button, and `update_project_list`, which fills the project dropdown. Each
  scans the rows after the header in one loop and is proved to compute the
  specification of module WorkLog.
 */
module LogReaders {
  import opened WorkLog

  /** `load_data`: the records of the last seven days for the table, and the
      total duration of every project over the whole log for the summary. A
      data row that is not a well-formed entry raises, leaving the table with
      the rows inserted before it. */
  method LoadData(file: LogFile, today: Day) returns (view: Overview)
    ensures view == OverviewOf(file, today)
  {
    if file.Absent? {
      return NoLog;
    }
    var rows := file.rows;
    if |rows| == 0 {
      // `next(reader)` finds no header to skip
      return Aborted([]);
    }
    var data := rows[1..];
    var shown: seq<Record> := [];
    var order: seq<string> := [];
    var totals: map<string, int> := map[];
    for j := 0 to |data|
      invariant forall k :: 0 <= k < j ==> data[k].Entry?
      invariant shown == Recent(data, j, today)
      invariant order == Projects(data, j)
      invariant totals == TotalsMap(data, j)
    {
      if data[j].Cells? {
        OverviewOfMalformed(file, today, j);
        return Aborted(shown);
      }
      var rec := data[j].rec;
      assert rec.project in totals <==> rec.project in order by {
        TotalsKeysAreProjects(data, j);
      }
      if InWindow(rec, today) {
        shown := shown + [rec];
      }
      if rec.project in totals {
        totals := totals[rec.project := totals[rec.project] + rec.duration];
      } else {
        totals := totals[rec.project := rec.duration];
        order := order + [rec.project];
      }
    }
    OverviewOfWellFormed(file, today);
    return Shown(shown, order, totals);
  }

  /** `update_project_list`: the set of second cells of the rows after the
      header. A row with fewer than two cells raises. */
  method UpdateProjectList(file: LogFile) returns (listing: Listing)
    ensures listing == ProjectListOf(file)
  {
    if file.Absent? {
      return Listed({});
    }
    var rows := file.rows;
    if |rows| == 0 {
      return ListFailed;
    }
    var projects: set<string> := {};
    var i := 1;
    while i < |rows|
      invariant 1 <= i <= |rows|
      invariant forall k :: 1 <= k < i ==> HasName(rows[k])
      invariant projects == set k | 1 <= k < i :: NameOf(rows[k])
    {
      if !HasName(rows[i]) {
        return ListFailed;
      }
      projects := projects + {NameOf(rows[i])};
      i := i + 1;
    }
    return Listed(projects);
  }
}
