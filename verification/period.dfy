/** The period filter of `calculateMetricsFor` (src/App.jsx:121-133). The
    cutoff (`new Date()` moved back by the period's days) is computed by the
    clock and is an input here. */
module Period {

  import opened Domain
  import opened Seqs

  /** `d.created_at || d.merged_at` for a merge request: its creation time,
      or its merge time when the creation time is missing. */
  function MrStamp(m: MergeRequest): int
  {
    match m.createdAt
    case Some(t) => t
    case None => m.mergedAt
  }

  /** 'all' leaves the collections as they are; otherwise each keeps the
      records stamped at or after the cutoff, in their order. */
  function ApplyWindow(log: EventLog, w: Window): (r: EventLog)
    ensures w.AllTime? ==> r == log
  {
    match w
    case AllTime => log
    case Since(cutoff) =>
      EventLog(
        Filter(log.mrs, (m: MergeRequest) => MrStamp(m) >= cutoff),
        Filter(log.commits, (c: Commit) => c.createdAt >= cutoff),
        Filter(log.deployments, (d: Deployment) => d.createdAt >= cutoff),
        Filter(log.incidents, (i: Incident) => i.createdAt >= cutoff))
  }

  /** Whether a stamp lies in the window; the cutoff itself does. */
  predicate InWindow(stamp: int, w: Window)
  {
    w.AllTime? || stamp >= w.cutoff
  }

  /** A record survives the period filter exactly when its stamp is in the window. */
  lemma WindowKeepsExactly(log: EventLog, w: Window)
    ensures var r := ApplyWindow(log, w);
      && (forall x :: x in r.mrs <==> x in log.mrs && InWindow(MrStamp(x), w))
      && (forall x :: x in r.commits <==> x in log.commits && InWindow(x.createdAt, w))
      && (forall x :: x in r.deployments <==> x in log.deployments && InWindow(x.createdAt, w))
      && (forall x :: x in r.incidents <==> x in log.incidents && InWindow(x.createdAt, w))
  {
    if w.Since? {
      var c := w.cutoff;
      forall x: MergeRequest { FilterMembership(log.mrs, (m: MergeRequest) => MrStamp(m) >= c, x); }
      forall x: Commit { FilterMembership(log.commits, (m: Commit) => m.createdAt >= c, x); }
      forall x: Deployment { FilterMembership(log.deployments, (d: Deployment) => d.createdAt >= c, x); }
      forall x: Incident { FilterMembership(log.incidents, (i: Incident) => i.createdAt >= c, x); }
    }
  }

  /** Windowing commutes with concatenation, so records keep their relative order. */
  lemma WindowKeepsOrder(a: EventLog, b: EventLog, w: Window)
    ensures ApplyWindow(Concat(a, b), w) == Concat(ApplyWindow(a, w), ApplyWindow(b, w))
  {
    if w.Since? {
      var c := w.cutoff;
      FilterConcat(a.mrs, b.mrs, (m: MergeRequest) => MrStamp(m) >= c);
      FilterConcat(a.commits, b.commits, (x: Commit) => x.createdAt >= c);
      FilterConcat(a.deployments, b.deployments, (d: Deployment) => d.createdAt >= c);
      FilterConcat(a.incidents, b.incidents, (i: Incident) => i.createdAt >= c);
    }
  }
}
