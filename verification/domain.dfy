/** The entities of the dashboard's event feed and of the metrics snapshot
    that the aggregation engine produces from it (src/App.jsx). */
module Domain {

  datatype Option<+T> = None | Some(value: T)

  /** One millisecond-based day; timestamps are integer milliseconds since the epoch. */
  const DayMs: int := 86400000
  const HourMs: int := 3600000

  datatype Developer = Developer(id: int, username: string, name: string, role: string, avatarUrl: string)

  datatype Repository = Repository(id: int, name: string)

  /** A team owns its developers and its repositories, in the order they are listed. */
  datatype Team = Team(id: int, name: string, developers: seq<Developer>, repositories: seq<Repository>)

  /** A merge request. `createdAt` may be absent, in which case the time window
      falls back to `mergedAt`; `firstReviewTime` may be null. Cycle and
      review times are fractional milliseconds. */
  datatype MergeRequest = MergeRequest(
    id: int,
    projectId: int,
    authorId: int,
    createdAt: Option<int>,
    mergedAt: int,
    cycleTime: real,
    leadTimeForChange: int,
    firstReviewTime: Option<real>,
    changesCount: int)

  datatype Commit = Commit(id: int, createdAt: int, authorId: int, projectId: int)

  /** `status` is the feed's string: "success", "failed" or anything else. */
  datatype Deployment = Deployment(id: int, createdAt: int, status: string, projectId: int, authorId: int)

  /** An incident is open while `closedAt` is null. */
  datatype Incident = Incident(id: int, projectId: int, createdAt: int, closedAt: Option<int>, authorId: int)

  /** The four collections the engine consumes. */
  datatype EventLog = EventLog(
    mrs: seq<MergeRequest>,
    commits: seq<Commit>,
    deployments: seq<Deployment>,
    incidents: seq<Incident>)

  /** Two feeds one after the other, collection by collection. */
  function Concat(a: EventLog, b: EventLog): EventLog
  {
    EventLog(a.mrs + b.mrs, a.commits + b.commits, a.deployments + b.deployments, a.incidents + b.incidents)
  }

  /** The query: a team id (None stands for the 'org' sentinel, which no team
      carries) and an optional developer id to drill into. */
  datatype Config = Config(teamId: Option<int>, developerId: Option<int>)

  /** The period filter: all time, or every record stamped at or after a cutoff
      that the clock computed. */
  datatype Window = AllTime | Since(cutoff: int)

  /** One point of the lead-time chart: the local calendar day of the merge
      (as a day index since the epoch) and the lead time in hours. */
  datatype TimelinePoint = TimelinePoint(day: int, leadTimeHours: real)

  /** The snapshot returned for one query. */
  datatype Metrics = Metrics(
    name: string,
    team: Option<Team>,
    developer: Option<Developer>,
    mrs: seq<MergeRequest>,
    avgLeadTime: real,
    avgCycleTime: real,
    avgReviewTime: real,
    avgMrSize: real,
    deploymentFrequency: nat,
    changeFailureRate: real,
    avgTimeToRestore: real,
    codingDays: nat,
    commitThroughput: nat,
    timeline: seq<TimelinePoint>)

  /** The local-time day index of instant `t`, where `offset(t)` is the local
      zone's offset from UTC at that instant (daylight saving included). */
  function LocalDay(t: int, offset: int -> int): int
  {
    (t + offset(t)) / DayMs
  }

  /** The local weekday of instant `t`, Sunday = 0; the epoch fell on a Thursday. */
  function Weekday(t: int, offset: int -> int): (d: int)
    ensures 0 <= d < 7
    ensures (d - 4 - LocalDay(t, offset)) % 7 == 0
  {
    (LocalDay(t, offset) + 4) % 7
  }
}
