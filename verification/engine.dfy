/** `calculateMetricsFor` (src/App.jsx:113-175): resolve the scope, apply the
    period filter, keep the in-scope records, accumulate the KPIs and build
    the lead-time series. `MetricsOf` is the snapshot as a function of the
    query; `CalculateMetrics` computes it step by step as the source does. */
module Engine {

  import opened Domain
  import opened Seqs
  import opened Scope
  import opened Period
  import opened Kpis
  import opened Sorting

  /** The timeline comparator `new Date(a.merged_at) - new Date(b.merged_at)`
      orders by merge time, ascending. */
  function MergedKey(m: MergeRequest): SortValue
  {
    MergeTime(m.mergedAt)
  }

  function MergeTime(t: int): SortValue
  {
    Num(t as real)
  }

  /** One chart point per merge request: its local merge day and
      `leadTimeForChange / 3600000`, negative lead times included. */
  function Point(m: MergeRequest, offset: int -> int): TimelinePoint
  {
    TimelinePoint(LocalDay(m.mergedAt, offset), m.leadTimeForChange as real / HourMs as real)
  }

  function PointOf(offset: int -> int): MergeRequest -> TimelinePoint
  {
    (m: MergeRequest) => Point(m, offset)
  }

  function Timeline(mrs: seq<MergeRequest>, offset: int -> int): seq<TimelinePoint>
  {
    Map(mrs, PointOf(offset))
  }

  /** The in-window, in-scope collections of a query. */
  function Scoped(org: seq<Team>, log: EventLog, cfg: Config, w: Window): EventLog
  {
    ScopeLog(ApplyWindow(log, w), Resolve(org, cfg))
  }

  /** The snapshot of one query. */
  function MetricsOf(org: seq<Team>, log: EventLog, cfg: Config, w: Window, offset: int -> int): Metrics
  {
    var s := Resolve(org, cfg);
    var d := Scoped(org, log, cfg, w);
    var sorted := SortSeq(d.mrs, MergedKey, true);
    Metrics(
      s.name, s.team, s.developer, sorted,
      Mean(SumOf(d.mrs, LeadTime), |d.mrs|),
      Mean(SumOf(d.mrs, CycleTime), |d.mrs|),
      Mean(SumOf(d.mrs, ReviewTime), |Filter(d.mrs, Reviewed)|),
      Mean(SumOf(d.mrs, MrSize), |d.mrs|),
      |Filter(d.deployments, IsSuccess)|,
      FailureRate(d.deployments),
      Mean(SumOf(d.incidents, RestoreTime), |d.incidents|),
      |Weekdays(d.commits, offset)|,
      |d.commits|,
      Timeline(sorted, offset))
  }

  /** `mrs.sort((a, b) => new Date(a.merged_at) - new Date(b.merged_at))`, in place. */
  method SortByMergeTime(mrs: seq<MergeRequest>) returns (sorted: seq<MergeRequest>)
    ensures sorted == SortSeq(mrs, MergedKey, true)
  {
    var n := |mrs|;
    var a := new MergeRequest[n](i requires 0 <= i < n reads {} => mrs[i]);
    assert a[..] == mrs;
    SortInPlace(a, MergedKey, true);
    sorted := a[..];
  }

  /** The engine's own sequence of steps, proved to produce `MetricsOf`. */
  method CalculateMetrics(org: seq<Team>, log: EventLog, cfg: Config, w: Window, offset: int -> int)
    returns (m: Metrics)
    ensures m == MetricsOf(org, log, cfg, w, offset)
  {
    var scope := Resolve(org, cfg);
    var data := log;
    if w.Since? {
      data := ApplyWindow(data, w);
    }
    data := ScopeLog(data, scope);
    var totals := SumMergeRequests(data.mrs);
    var successful := Filter(data.deployments, IsSuccess);
    var restore := SumRestoreTime(data.incidents);
    var days := CollectWeekdays(data.commits, offset);
    var n := |data.mrs|;
    var mrs := SortByMergeTime(data.mrs);
    m := Metrics(
      scope.name, scope.team, scope.developer, mrs,
      Mean(totals.lead, n),
      Mean(totals.cycle, n),
      Mean(totals.review, totals.reviewed),
      Mean(totals.size, n),
      |successful|,
      FailureRate(data.deployments),
      Mean(restore, |data.incidents|),
      |days|,
      |data.commits|,
      Timeline(mrs, offset));
  }

  /** A record is counted exactly when it lies in the window AND its project
      AND its author are in scope. */
  lemma RetainedExactly(org: seq<Team>, log: EventLog, cfg: Config, w: Window)
    ensures var d, s := Scoped(org, log, cfg, w), Resolve(org, cfg);
      && (forall x :: x in d.mrs <==> x in log.mrs && InWindow(MrStamp(x), w) && InScope(s, x.projectId, x.authorId))
      && (forall x :: x in d.commits <==> x in log.commits && InWindow(x.createdAt, w) && InScope(s, x.projectId, x.authorId))
      && (forall x :: x in d.deployments <==> x in log.deployments && InWindow(x.createdAt, w) && InScope(s, x.projectId, x.authorId))
      && (forall x :: x in d.incidents <==> x in log.incidents && InWindow(x.createdAt, w) && InScope(s, x.projectId, x.authorId))
  {
    WindowKeepsExactly(log, w);
    ScopeKeepsExactly(ApplyWindow(log, w), Resolve(org, cfg));
  }

  /** A truthy developer id narrows every counted record, merge requests of
      the series included, to that developer's own. */
  lemma DeveloperOwnRecords(org: seq<Team>, log: EventLog, cfg: Config, w: Window, offset: int -> int)
    requires Truthy(cfg.developerId)
    ensures var d, m, id := Scoped(org, log, cfg, w), MetricsOf(org, log, cfg, w, offset), cfg.developerId.value;
      && (forall x :: x in m.mrs ==> x.authorId == id)
      && (forall x :: x in d.commits ==> x.authorId == id)
      && (forall x :: x in d.deployments ==> x.authorId == id)
      && (forall x :: x in d.incidents ==> x.authorId == id)
  {
    var d := Scoped(org, log, cfg, w);
    SingleAuthorScope(ApplyWindow(log, w), Resolve(org, cfg), cfg.developerId.value);
    SortedMembers(d.mrs);
  }

  /** The series' merge requests are the retained ones. */
  lemma SortedMembers(mrs: seq<MergeRequest>)
    ensures forall x :: x in SortSeq(mrs, MergedKey, true) ==> x in mrs
  {
    SortSeqPermutation(mrs, MergedKey, true);
    forall x | x in SortSeq(mrs, MergedKey, true) ensures x in mrs {
      assert x in multiset(SortSeq(mrs, MergedKey, true));
    }
  }

  /** The scalar fields of a snapshot, one by one. */
  lemma SnapshotFields(org: seq<Team>, log: EventLog, cfg: Config, w: Window, offset: int -> int)
    ensures var d, m := Scoped(org, log, cfg, w), MetricsOf(org, log, cfg, w, offset);
      && m.avgLeadTime == Mean(SumOf(d.mrs, LeadTime), |d.mrs|)
      && m.avgCycleTime == Mean(SumOf(d.mrs, CycleTime), |d.mrs|)
      && m.avgReviewTime == Mean(SumOf(d.mrs, ReviewTime), |Filter(d.mrs, Reviewed)|)
      && m.avgMrSize == Mean(SumOf(d.mrs, MrSize), |d.mrs|)
      && m.avgTimeToRestore == Mean(SumOf(d.incidents, RestoreTime), |d.incidents|)
      && m.deploymentFrequency == |Filter(d.deployments, IsSuccess)|
      && m.changeFailureRate == FailureRate(d.deployments)
      && m.codingDays == |Weekdays(d.commits, offset)|
      && m.commitThroughput == |d.commits|
  {
  }

  /** Each merge-request mean is the sum over the retained merge requests
      divided by their count, and 0 when none is left; review time averages
      over the merge requests with a truthy review time only. Without merge
      requests the series is empty. */
  lemma MergeRequestMeans(org: seq<Team>, log: EventLog, cfg: Config, w: Window, offset: int -> int)
    ensures var d, m := Scoped(org, log, cfg, w), MetricsOf(org, log, cfg, w, offset);
      && IsMean(m.avgLeadTime, SumOf(d.mrs, LeadTime), |d.mrs|)
      && IsMean(m.avgCycleTime, SumOf(d.mrs, CycleTime), |d.mrs|)
      && IsMean(m.avgMrSize, SumOf(d.mrs, MrSize), |d.mrs|)
      && IsMean(m.avgReviewTime, SumOf(d.mrs, ReviewTime), |Filter(d.mrs, Reviewed)|)
      && (|d.mrs| == 0 ==> m.timeline == [])
  {
    SnapshotFields(org, log, cfg, w, offset);
  }

  /** Time to restore: the restore time of the closed incidents divided by the
      number of ALL in-scope incidents (open ones add to the count only), and 0
      without incidents. */
  lemma RestoreMean(org: seq<Team>, log: EventLog, cfg: Config, w: Window, offset: int -> int)
    ensures var d, m := Scoped(org, log, cfg, w), MetricsOf(org, log, cfg, w, offset);
      IsMean(m.avgTimeToRestore, SumOf(d.incidents, RestoreTime), |d.incidents|)
  {
    SnapshotFields(org, log, cfg, w, offset);
  }

  /** Cycle times that all lie between two bounds give an average cycle time
      between the same bounds, and 0 when no merge request is retained. */
  lemma CycleTimeBetween(org: seq<Team>, log: EventLog, cfg: Config, w: Window, offset: int -> int, lo: real, hi: real)
    requires forall x :: x in log.mrs ==> lo <= x.cycleTime <= hi
    ensures var d, m := Scoped(org, log, cfg, w), MetricsOf(org, log, cfg, w, offset);
      && (|d.mrs| > 0 ==> lo <= m.avgCycleTime <= hi)
      && (|d.mrs| == 0 ==> m.avgCycleTime == 0.0)
  {
    var d := Scoped(org, log, cfg, w);
    SnapshotFields(org, log, cfg, w, offset);
    if |d.mrs| > 0 {
      RetainedExactly(org, log, cfg, w);
      forall k | 0 <= k < |d.mrs| ensures lo <= CycleTime(d.mrs[k]) <= hi {
        assert d.mrs[k] in d.mrs;
      }
      MeanBetween(d.mrs, CycleTime, lo, hi);
    }
  }

  /** The count KPIs and their bounds. */
  lemma CountBounds(org: seq<Team>, log: EventLog, cfg: Config, w: Window, offset: int -> int)
    ensures var d, m := Scoped(org, log, cfg, w), MetricsOf(org, log, cfg, w, offset);
      && m.deploymentFrequency + |Filter(d.deployments, IsFailed)| <= |d.deployments|
      && 0.0 <= m.changeFailureRate <= 100.0
      && (m.changeFailureRate == 0.0 <==> |Filter(d.deployments, IsFailed)| == 0)
      && (m.changeFailureRate == 100.0 <==> |d.deployments| > 0 && |Filter(d.deployments, IsFailed)| == |d.deployments|)
      && m.commitThroughput == |d.commits|
      && m.codingDays <= 7 && m.codingDays <= m.commitThroughput
  {
    var d := Scoped(org, log, cfg, w);
    SnapshotFields(org, log, cfg, w, offset);
    StatusCounts(d.deployments);
    FailureRateBounds(d.deployments);
    CodingDaysBounds(d.commits, offset);
  }

  /** The series has one point per retained merge request, no deduplication:
      the merge requests are a permutation of the retained ones, ordered by
      merge time, ties in input order; each point carries the merge day and
      the lead time in hours. */
  lemma TimelineShape(org: seq<Team>, log: EventLog, cfg: Config, w: Window, offset: int -> int)
    ensures var d, m := Scoped(org, log, cfg, w), MetricsOf(org, log, cfg, w, offset);
      && |m.timeline| == |m.mrs| == |d.mrs|
      && multiset(m.mrs) == multiset(d.mrs)
      && (forall i, j :: 0 <= i <= j < |m.mrs| ==> m.mrs[i].mergedAt <= m.mrs[j].mergedAt)
      && (forall t: int :: SameKey(m.mrs, MergedKey, MergeTime(t)) == SameKey(d.mrs, MergedKey, MergeTime(t)))
      && (forall k :: 0 <= k < |m.mrs| ==>
            && m.timeline[k].day == LocalDay(m.mrs[k].mergedAt, offset)
            && m.timeline[k].leadTimeHours * 3600000.0 == m.mrs[k].leadTimeForChange as real)
  {
    var d := Scoped(org, log, cfg, w);
    var sorted := SortSeq(d.mrs, MergedKey, true);
    SortSeqPermutation(d.mrs, MergedKey, true);
    SortSeqOrdered(d.mrs, MergedKey, true);
    forall t: int ensures SameKey(sorted, MergedKey, MergeTime(t)) == SameKey(d.mrs, MergedKey, MergeTime(t)) {
      SortSeqStable(d.mrs, MergedKey, true, MergeTime(t));
    }
    MergeTimesPairwise(sorted);
    MapAt(sorted, PointOf(offset));
  }

  /** Adjacent order by merge time extends to every pair. */
  lemma {:induction false} MergeTimesPairwise(s: seq<MergeRequest>)
    requires Ordered(s, MergedKey, true)
    ensures forall i, j :: 0 <= i <= j < |s| ==> s[i].mergedAt <= s[j].mergedAt
  {
    if |s| > 1 {
      var s' := s[..|s| - 1];
      assert Ordered(s', MergedKey, true) by {
        forall k | 0 <= k < |s'| - 1 ensures !Precedes(MergedKey(s'[k + 1]), MergedKey(s'[k]), true) {
          assert s'[k] == s[k] && s'[k + 1] == s[k + 1];
        }
      }
      MergeTimesPairwise(s');
      assert !Less(MergedKey(s[|s| - 1]), MergedKey(s[|s| - 2]));
      assert s[|s| - 2].mergedAt <= s[|s| - 1].mergedAt;
      forall i, j | 0 <= i <= j < |s| ensures s[i].mergedAt <= s[j].mergedAt {
        if j == |s| - 1 && i < j {
          assert s[i] == s'[i] && s[|s| - 2] == s'[|s'| - 1];
        } else if j < |s| - 1 {
          assert s[i] == s'[i] && s[j] == s'[j];
        }
      }
    }
  }
}
