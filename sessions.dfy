/**
  The running time logger: the sessions in progress (`active_sessions`), the
  log on disk and the values of the project dropdown, with the handlers of the
  Start and Stop buttons. The text of the project entry, the clock and today's
  date are parameters of the handlers; the warnings and confirmations the
  source shows in dialog boxes are their outcomes.
 */
module Sessions {
  import opened Text
  import opened WorkLog
  import LogReaders

  datatype StartOutcome =
    /** "Please enter a project name." */
    | EmptyName
    /** "Already tracking '<project>'!" */
    | AlreadyTracking(project: string)
    /** "Tracking started for: <project>" */
    | Started(project: string)

  datatype StopOutcome =
    /** "No active tracking for this project." */
    | NoActiveTracking
    /** The record appended to the log, and what refreshing the dropdown read. */
    | Logged(rec: Record, listing: Listing)

  class Tracker {
    /** `active_sessions`: project name to the instant its session started. */
    var active: map<string, Instant>
    /** `work_log.csv`. */
    var log: LogFile
    /** The values of the project dropdown. */
    var offered: set<string>

    /** No session runs under an empty name, or under a name that still has
        whitespace around it. */
    ghost predicate Valid()
      reads this
    {
      forall p :: p in active ==> p != "" && Strip(p) == p
    }

    /** Start-up: the log is created with its header when it is missing, and no
        session runs. The dropdown is then filled by RefreshProjects. */
    constructor (disk: LogFile)
      ensures Valid()
      ensures active == map[] && log == Initialize(disk) && offered == {}
    {
      active := map[];
      log := Initialize(disk);
      offered := {};
    }

    /** `update_project_list`: the dropdown gets the names read from the log;
        when the read raises, it keeps its values. */
    method RefreshProjects() returns (listing: Listing)
      modifies this`offered
      ensures listing == ProjectListOf(log)
      ensures offered == if listing.Listed? then listing.names else old(offered)
    {
      listing := LogReaders.UpdateProjectList(log);
      if listing.Listed? {
        offered := listing.names;
      }
    }

    /** `start_tracking`: a session starts for the stripped entry unless it is
        empty or already running; a rejected start changes nothing, so the
        running session keeps its start instant. */
    method StartTracking(entry: string, now: Instant) returns (outcome: StartOutcome)
      requires Valid()
      modifies this`active
      ensures Valid()
      ensures outcome == EmptyName <==> AllSpace(entry)
      ensures outcome.AlreadyTracking? <==> !AllSpace(entry) && Strip(entry) in old(active)
      ensures !outcome.EmptyName? ==> outcome.project == Strip(entry)
      ensures active == if outcome.Started? then old(active)[outcome.project := now] else old(active)
    {
      var project := Strip(entry);
      StripEmptyIffBlank(entry);
      if project == "" {
        return EmptyName;
      }
      if project in active {
        return AlreadyTracking(project);
      }
      StripIdempotent(entry);
      active := active[project := now];
      return Started(project);
    }

    /** `stop_tracking`: the session of the stripped entry ends, and one row
        with its date, project, start and end times and rounded duration is
        appended to the log; then the dropdown is refreshed. Stopping a
        project that is not running changes nothing. */
    method StopTracking(entry: string, now: Instant, today: Day, zone: int) returns (outcome: StopOutcome)
      requires Valid()
      modifies this`active, this`log, this`offered
      ensures Valid()
      ensures outcome == NoActiveTracking <==> Strip(entry) !in old(active)
      ensures outcome == NoActiveTracking ==>
                active == old(active) && log == old(log) && offered == old(offered)
      ensures outcome.Logged? ==>
                var project := Strip(entry);
                var start := old(active)[project];
                && outcome.rec == Record(today, project, ClockOf(start, zone), ClockOf(now, zone), Duration(start, now))
                && active == old(active) - {project}
                && log == Append(old(log), Entry(outcome.rec))
                && outcome.listing == ProjectListOf(log)
                && offered == if outcome.listing.Listed? then outcome.listing.names else old(offered)
    {
      var project := Strip(entry);
      if project !in active {
        return NoActiveTracking;
      }
      var start := active[project];
      active := active - {project};
      var rec := Record(today, project, ClockOf(start, zone), ClockOf(now, zone), Duration(start, now));
      log := Append(log, Entry(rec));
      var listing := RefreshProjects();
      return Logged(rec, listing);
    }
  }

  /** Starting a project and stopping it later appends exactly one record to
      the log, for that project, dated the day of the stop, with a duration
      that is not negative. */
  method StartThenStop(disk: LogFile, entry: string, t0: Instant, t1: Instant, today: Day, zone: int)
    returns (before: LogFile, after: LogFile, rec: Record)
    requires !AllSpace(entry)
    requires t0 <= t1
    ensures before == Initialize(disk)
    ensures after == Append(before, Entry(rec))
    ensures rec.project == Strip(entry) && rec.date == today && rec.duration >= 0
  {
    var tracker := new Tracker(disk);
    before := tracker.log;
    var started := tracker.StartTracking(entry, t0);
    var stopped := tracker.StopTracking(entry, t1, today, zone);
    after := tracker.log;
    rec := stopped.rec;
  }

  /** Stopping a project that was never started is rejected and the log is
      left as it was. */
  method StopWithoutStart(disk: LogFile, entry: string, now: Instant, today: Day, zone: int)
    returns (outcome: StopOutcome, before: LogFile, after: LogFile)
    ensures outcome == NoActiveTracking
    ensures after == before
  {
    var tracker := new Tracker(disk);
    before := tracker.log;
    outcome := tracker.StopTracking(entry, now, today, zone);
    after := tracker.log;
  }
}
