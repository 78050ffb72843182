/** The KPI arithmetic of `calculateMetricsFor` (src/App.jsx:142-154,
    164-172): the accumulating `forEach` loops, the weekday set, and the
    zero-guarded means and ratio. Means are exact `real` quotients. */
module Kpis {

  import opened Domain
  import opened Seqs

  function LeadTime(m: MergeRequest): real { m.leadTimeForChange as real }

  function CycleTime(m: MergeRequest): real { m.cycleTime }

  /** `parseInt(mr.changes_count, 10)`; the count is already an integer here. */
  function MrSize(m: MergeRequest): real { m.changesCount as real }

  /** `if (mr.firstReviewTime)`: a null review time and a review time of 0 are both falsy. */
  predicate Reviewed(m: MergeRequest)
  {
    m.firstReviewTime.Some? && m.firstReviewTime.value != 0.0
  }

  /** What a merge request adds to the review-time total. */
  function ReviewTime(m: MergeRequest): real
  {
    if Reviewed(m) then m.firstReviewTime.value else 0.0
  }

  predicate IsSuccess(d: Deployment) { d.status == "success" }

  predicate IsFailed(d: Deployment) { d.status == "failed" }

  /** `if (i.closed_at)`: only closed incidents add restore time. */
  function RestoreTime(i: Incident): real
  {
    if i.closedAt.Some? then (i.closedAt.value - i.createdAt) as real else 0.0
  }

  /** `x` is the mean of `n` values that add up to `total`, or 0 when there are none. */
  predicate IsMean(x: real, total: real, n: nat)
  {
    (n == 0 && x == 0.0) || (n > 0 && x * (n as real) == total)
  }

  /** A zero-guarded mean: `n > 0 ? total / n : 0`. */
  function Mean(total: real, n: nat): (r: real)
    ensures IsMean(r, total, n)
  {
    if n > 0 then total / n as real else 0.0
  }

  /** `failed / deployments.length * 100`, or 0 without deployments. */
  function FailureRate(deployments: seq<Deployment>): real
  {
    if |deployments| > 0
    then (|Filter(deployments, IsFailed)| as real / |deployments| as real) * 100.0
    else 0.0
  }

  /** The set of local weekdays on which the commits were made. */
  function Weekdays(commits: seq<Commit>, offset: int -> int): set<int>
  {
    if commits == [] then {}
    else Weekdays(commits[..|commits| - 1], offset) + {Weekday(commits[|commits| - 1].createdAt, offset)}
  }

  /** The five running totals of the merge-request loop. */
  datatype MrTotals = MrTotals(lead: real, cycle: real, size: real, review: real, reviewed: nat)

  /** The `mrs.forEach` loop (src/App.jsx:142-148). */
  method SumMergeRequests(mrs: seq<MergeRequest>) returns (t: MrTotals)
    ensures t.lead == SumOf(mrs, LeadTime) && t.cycle == SumOf(mrs, CycleTime)
    ensures t.size == SumOf(mrs, MrSize)
    ensures t.review == SumOf(mrs, ReviewTime) && t.reviewed == |Filter(mrs, Reviewed)|
  {
    var lead, cycle, size, review, reviewed := 0.0, 0.0, 0.0, 0.0, 0;
    var i := 0;
    while i < |mrs|
      invariant 0 <= i <= |mrs|
      invariant lead == SumOf(mrs[..i], LeadTime) && cycle == SumOf(mrs[..i], CycleTime)
      invariant size == SumOf(mrs[..i], MrSize)
      invariant review == SumOf(mrs[..i], ReviewTime) && reviewed == |Filter(mrs[..i], Reviewed)|
    {
      var mr := mrs[i];
      assert mrs[..i + 1][..i] == mrs[..i];
      lead := lead + mr.leadTimeForChange as real;
      cycle := cycle + mr.cycleTime;
      size := size + mr.changesCount as real;
      if mr.firstReviewTime.Some? && mr.firstReviewTime.value != 0.0 {
        review := review + mr.firstReviewTime.value;
        reviewed := reviewed + 1;
      }
      i := i + 1;
    }
    assert mrs[..i] == mrs;
    t := MrTotals(lead, cycle, size, review, reviewed);
  }

  /** The `incidents.forEach` loop (src/App.jsx:151-152). */
  method SumRestoreTime(incidents: seq<Incident>) returns (total: real)
    ensures total == SumOf(incidents, RestoreTime)
  {
    total := 0.0;
    var i := 0;
    while i < |incidents|
      invariant 0 <= i <= |incidents|
      invariant total == SumOf(incidents[..i], RestoreTime)
    {
      assert incidents[..i + 1][..i] == incidents[..i];
      if incidents[i].closedAt.Some? {
        total := total + (incidents[i].closedAt.value - incidents[i].createdAt) as real;
      }
      i := i + 1;
    }
    assert incidents[..i] == incidents;
  }

  /** The `commits.forEach` loop that fills the weekday `Set` (src/App.jsx:153-154). */
  method CollectWeekdays(commits: seq<Commit>, offset: int -> int) returns (days: set<int>)
    ensures days == Weekdays(commits, offset)
  {
    days := {};
    var i := 0;
    while i < |commits|
      invariant 0 <= i <= |commits|
      invariant days == Weekdays(commits[..i], offset)
    {
      assert commits[..i + 1][..i] == commits[..i];
      days := days + {Weekday(commits[i].createdAt, offset)};
      i := i + 1;
    }
    assert commits[..i] == commits;
  }

  /** Every weekday is one of the seven, and each commit adds at most one. */
  lemma {:induction false} WeekdaysBounds(commits: seq<Commit>, offset: int -> int)
    ensures Weekdays(commits, offset) <= {0, 1, 2, 3, 4, 5, 6}
    ensures |Weekdays(commits, offset)| <= |commits|
  {
    if commits != [] {
      var init := commits[..|commits| - 1];
      var d := Weekday(commits[|commits| - 1].createdAt, offset);
      WeekdaysBounds(init, offset);
      assert Weekdays(commits, offset) == Weekdays(init, offset) + {d};
      assert d in {0, 1, 2, 3, 4, 5, 6};
      assert |Weekdays(init, offset) + {d}| <= |Weekdays(init, offset)| + 1;
    }
  }

  /** A weekday is in the set exactly when some commit was made on it. */
  lemma {:induction false} WeekdaysMembership(commits: seq<Commit>, offset: int -> int, d: int)
    ensures d in Weekdays(commits, offset) <==> exists c :: c in commits && Weekday(c.createdAt, offset) == d
  {
    if commits != [] {
      var init, last := commits[..|commits| - 1], commits[|commits| - 1];
      WeekdaysMembership(init, offset, d);
      assert commits == init + [last];
      assert forall c :: c in commits <==> c in init || c == last;
    }
  }

  /** At most seven distinct weekdays, and no more than there are commits. */
  lemma CodingDaysBounds(commits: seq<Commit>, offset: int -> int)
    ensures |Weekdays(commits, offset)| <= 7
    ensures |Weekdays(commits, offset)| <= |commits|
  {
    WeekdaysBounds(commits, offset);
    SubsetCardinality(Weekdays(commits, offset), {0, 1, 2, 3, 4, 5, 6});
  }

  lemma SubsetCardinality(a: set<int>, b: set<int>)
    requires a <= b
    ensures |a| <= |b|
  {
    assert b == a + (b - a);
    assert a * (b - a) == {};
  }

  /** The sum lies between `|s|` times a lower and an upper bound of its terms. */
  lemma {:induction false} SumOfBetween<T>(s: seq<T>, f: T -> real, lo: real, hi: real)
    requires forall k :: 0 <= k < |s| ==> lo <= f(s[k]) <= hi
    ensures (|s| as real) * lo <= SumOf(s, f) <= (|s| as real) * hi
  {
    if s != [] {
      var s' := s[..|s| - 1];
      assert forall k :: 0 <= k < |s'| ==> s'[k] == s[k];
      SumOfBetween(s', f, lo, hi);
      assert lo <= f(s[|s| - 1]) <= hi;
      assert SumOf(s, f) == SumOf(s', f) + f(s[|s| - 1]);
      assert (|s| as real) * lo == (|s'| as real) * lo + lo && (|s| as real) * hi == (|s'| as real) * hi + hi;
    }
  }

  /** A mean of terms bounded by `lo` and `hi` is itself bounded by them. */
  lemma MeanBetween<T>(s: seq<T>, f: T -> real, lo: real, hi: real)
    requires |s| > 0
    requires forall k :: 0 <= k < |s| ==> lo <= f(s[k]) <= hi
    ensures lo <= Mean(SumOf(s, f), |s|) <= hi
  {
    SumOfBetween(s, f, lo, hi);
    MeanOfBounded(SumOf(s, f), |s|, lo, hi);
  }

  lemma MeanOfBounded(total: real, n: nat, lo: real, hi: real)
    requires n > 0 && (n as real) * lo <= total <= (n as real) * hi
    ensures lo <= Mean(total, n) <= hi
  {
    var m := Mean(total, n);
    var r := n as real;
    assert m * r == total;
    assert lo * r <= total <= hi * r;
    ScaleMonotone(lo, m, r);
    ScaleMonotone(m, hi, r);
  }

  /** Dividing both sides by a positive factor keeps an inequality. */
  lemma ScaleMonotone(x: real, y: real, n: real)
    requires n > 0.0 && x * n <= y * n
    ensures x <= y
  {
  }

  /** The success and failure counts never exceed the deployment count. */
  lemma {:induction false} StatusCounts(deployments: seq<Deployment>)
    ensures |Filter(deployments, IsSuccess)| + |Filter(deployments, IsFailed)| <= |deployments|
  {
    if deployments != [] {
      StatusCounts(deployments[..|deployments| - 1]);
    }
  }

  /** The failure rate is a percentage: 0 when nothing failed (or nothing was
      deployed), 100 exactly when every deployment failed. */
  lemma FailureRateBounds(deployments: seq<Deployment>)
    ensures 0.0 <= FailureRate(deployments) <= 100.0
    ensures FailureRate(deployments) == 0.0 <==> |Filter(deployments, IsFailed)| == 0
    ensures FailureRate(deployments) == 100.0 <==>
              |deployments| > 0 && |Filter(deployments, IsFailed)| == |deployments|
  {
    if |deployments| > 0 {
      PercentBounds(|Filter(deployments, IsFailed)|, |deployments|);
    }
  }

  /** `f / n * 100` for `0 <= f <= n`, `n > 0`. */
  lemma PercentBounds(f: nat, n: nat)
    requires 0 < n && f <= n
    ensures var r := (f as real / n as real) * 100.0;
            0.0 <= r <= 100.0 && (r == 0.0 <==> f == 0) && (r == 100.0 <==> f == n)
  {
    var q := f as real / n as real;
    assert q * (n as real) == f as real;
    ScaleMonotone(q, 1.0, n as real);
    if q == 1.0 { assert f as real == n as real; }
    if q == 0.0 { assert f as real == 0.0; }
  }

  /** Review times 10, null (or 0) and 30 average to 20: only the two truthy
      ones are summed and counted. */
  lemma ReviewTimeExample(a: MergeRequest, b: MergeRequest, c: MergeRequest)
    requires a.firstReviewTime == Some(10.0) && c.firstReviewTime == Some(30.0)
    requires b.firstReviewTime == None || b.firstReviewTime == Some(0.0)
    ensures Mean(SumOf([a, b, c], ReviewTime), |Filter([a, b, c], Reviewed)|) == 20.0
  {
    assert [a, b, c][..2] == [a, b] && [a, b][..1] == [a] && [a][..0] == [];
    assert ReviewTime(a) == 10.0 && ReviewTime(b) == 0.0 && ReviewTime(c) == 30.0;
    assert SumOf([a], ReviewTime) == 10.0;
    assert SumOf([a, b], ReviewTime) == 10.0;
    assert SumOf([a, b, c], ReviewTime) == 40.0;
    assert Filter([a], Reviewed) == [a];
    assert Filter([a, b], Reviewed) == [a];
    assert Filter([a, b, c], Reviewed) == [a, c];
  }

  /** An open incident adds to the incident count and nothing to the restore total. */
  lemma OpenIncidentCountsOnly(incidents: seq<Incident>, open: Incident)
    requires open.closedAt.None?
    ensures SumOf(incidents + [open], RestoreTime) == SumOf(incidents, RestoreTime)
    ensures SumOf(incidents, RestoreTime) > 0.0 ==>
              Mean(SumOf(incidents + [open], RestoreTime), |incidents + [open]|) <
              Mean(SumOf(incidents, RestoreTime), |incidents|)
  {
    assert (incidents + [open])[..|incidents|] == incidents;
    var total := SumOf(incidents, RestoreTime);
    if total > 0.0 {
      assert incidents != [];
      MeanShrinks(total, |incidents|);
    }
  }

  /** Spreading a positive total over one more item lowers the mean. */
  lemma MeanShrinks(total: real, n: nat)
    requires total > 0.0 && n > 0
    ensures Mean(total, n + 1) < Mean(total, n)
  {
    var m, m' := Mean(total, n), Mean(total, n + 1);
    var r := n as real;
    assert m * r == total && m' * (r + 1.0) == total;
    assert m' * (r + 1.0) < m * (r + 1.0);
    ScaleMonotone(m', m, r + 1.0);
    assert m' != m;
  }

  /** Lead times of 2, 4 and 6 hours average to 4 hours (14400000 ms). */
  lemma LeadTimeExample(a: MergeRequest, b: MergeRequest, c: MergeRequest)
    requires a.leadTimeForChange == 2 * HourMs && b.leadTimeForChange == 4 * HourMs
    requires c.leadTimeForChange == 6 * HourMs
    ensures Mean(SumOf([a, b, c], LeadTime), |[a, b, c]|) == 14400000.0
  {
    assert [a, b, c][..2] == [a, b] && [a, b][..1] == [a] && [a][..0] == [];
    assert SumOf([a], LeadTime) == 7200000.0;
    assert SumOf([a, b], LeadTime) == 21600000.0;
    assert SumOf([a, b, c], LeadTime) == 43200000.0;
  }
}
