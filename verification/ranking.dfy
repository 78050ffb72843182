/** The contributor table of one team (src/App.jsx:307-338): one row per
    developer with that developer's own snapshot, the role filter, the stable
    sort by a developer or snapshot column, and `requestSort`, which picks the
    next sort configuration when a column header is clicked. */
module Ranking {

  import opened Domain
  import opened Seqs
  import opened Scope
  import opened Sorting
  import opened Engine

  datatype Direction = Ascending | Descending

  /** The column the table is sorted by and the direction. */
  datatype SortConfig = SortConfig(key: string, direction: Direction)

  /** The table opens sorted by name, ascending. */
  const InitialSort: SortConfig := SortConfig("name", Ascending)

  /** Clicking a column header: the column currently sorted ascending turns
      descending; any other click (another column, or the same column while
      descending) sorts that column ascending. */
  function RequestSort(cur: SortConfig, key: string): (r: SortConfig)
    ensures r.key == key
    ensures r.direction == Descending <==> cur.key == key && cur.direction == Ascending
  {
    var direction := if cur.key == key && cur.direction == Ascending then Descending else Ascending;
    SortConfig(key, direction)
  }

  /** From the opening configuration, the first click on "name" sorts by name
      descending, and the first click on any other column sorts it ascending. */
  lemma InitialClicks(key: string)
    ensures RequestSort(InitialSort, key).direction == (if key == "name" then Descending else Ascending)
  {
  }

  /** Clicking the same header again always reverses the direction, and a
      third click restores the second click's configuration. */
  lemma RequestSortAlternates(cur: SortConfig, key: string)
    ensures RequestSort(RequestSort(cur, key), key).key == key
    ensures RequestSort(RequestSort(cur, key), key).direction != RequestSort(cur, key).direction
    ensures RequestSort(RequestSort(RequestSort(cur, key), key), key) == RequestSort(cur, key)
  {
  }

  /** A developer together with the snapshot of that developer in this team. */
  datatype Contributor = Contributor(dev: Developer, metrics: Metrics)

  /** The row of `dev`: the query narrowed to the team and the developer. */
  function Row(org: seq<Team>, log: EventLog, teamId: int, dev: Developer, w: Window, offset: int -> int): Contributor
  {
    Contributor(dev, MetricsOf(org, log, Config(Some(teamId), Some(dev.id)), w, offset))
  }

  /** `dev => ({ ...dev, metrics: ... })` for one team. */
  function RowOf(org: seq<Team>, log: EventLog, teamId: int, w: Window, offset: int -> int): Developer -> Contributor
  {
    (dev: Developer) => Row(org, log, teamId, dev, w, offset)
  }

  function HasRole(role: string): Contributor -> bool
  {
    (c: Contributor) => c.dev.role == role
  }

  /** The role filter: 'all' keeps every row, any other value the rows of that role. */
  function ByRole(rows: seq<Contributor>, roleFilter: string): seq<Contributor>
  {
    if roleFilter == "all" then rows else Filter(rows, HasRole(roleFilter))
  }

  predicate RoleMatches(roleFilter: string, dev: Developer)
  {
    roleFilter == "all" || dev.role == roleFilter
  }

  function Matches(roleFilter: string): Developer -> bool
  {
    (dev: Developer) => RoleMatches(roleFilter, dev)
  }

  const MetricsPrefix: string := "metrics."

  predicate StartsWith(s: string, prefix: string)
  {
    |prefix| <= |s| && s[..|prefix|] == prefix
  }

  /** The text before the first '.', or all of `s` when it has none. */
  function UpToDot(s: string): (r: string)
    ensures |r| <= |s| && r == s[..|r|]
    ensures '.' !in r
    ensures |r| == |s| || s[|r|] == '.'
  {
    if s == [] || s[0] == '.' then [] else [s[0]] + UpToDot(s[1..])
  }

  /** `key.split('.')[1]` for a key that starts with "metrics.". */
  function MetricName(key: string): string
    requires StartsWith(key, MetricsPrefix)
  {
    UpToDot(key[|MetricsPrefix|..])
  }

  /** A snapshot field by its property name. Numbers and the name compare;
      the team, the developer, the merge-request list, the series and any
      unknown name read as a value that compares with nothing. */
  function MetricValue(m: Metrics, name: string): SortValue
  {
    if name == "name" then Text(m.name)
    else if name == "avgLeadTime" then Num(m.avgLeadTime)
    else if name == "avgCycleTime" then Num(m.avgCycleTime)
    else if name == "avgReviewTime" then Num(m.avgReviewTime)
    else if name == "avgMrSize" then Num(m.avgMrSize)
    else if name == "deploymentFrequency" then Num(m.deploymentFrequency as real)
    else if name == "changeFailureRate" then Num(m.changeFailureRate)
    else if name == "avgTimeToRestore" then Num(m.avgTimeToRestore)
    else if name == "codingDays" then Num(m.codingDays as real)
    else if name == "commitThroughput" then Num(m.commitThroughput as real)
    else Missing
  }

  /** A developer field by its property name; `metrics` and unknown names
      compare with nothing. */
  function DeveloperValue(d: Developer, key: string): SortValue
  {
    if key == "id" then Num(d.id as real)
    else if key == "username" then Text(d.username)
    else if key == "name" then Text(d.name)
    else if key == "role" then Text(d.role)
    else if key == "avatar_url" then Text(d.avatarUrl)
    else Missing
  }

  /** The value the comparator reads from a row for the sort key. */
  function SortKeyOf(c: Contributor, key: string): SortValue
  {
    if StartsWith(key, MetricsPrefix) then MetricValue(c.metrics, MetricName(key))
    else DeveloperValue(c.dev, key)
  }

  function ContributorKey(key: string): Contributor -> SortValue
  {
    (c: Contributor) => SortKeyOf(c, key)
  }

  /** The rows the table shows, before sorting. */
  function Kept(org: seq<Team>, log: EventLog, team: Team, roleFilter: string, w: Window, offset: int -> int)
    : seq<Contributor>
  {
    ByRole(Map(team.developers, RowOf(org, log, team.id, w, offset)), roleFilter)
  }

  /** The table as shown. */
  function Ranked(org: seq<Team>, log: EventLog, team: Team, roleFilter: string, sc: SortConfig,
                  w: Window, offset: int -> int): seq<Contributor>
  {
    SortSeq(Kept(org, log, team, roleFilter, w, offset), ContributorKey(sc.key), sc.direction == Ascending)
  }

  lemma RowIs(org: seq<Team>, log: EventLog, teamId: int, dev: Developer, w: Window, offset: int -> int)
    ensures Contributor(dev, MetricsOf(org, log, Config(Some(teamId), Some(dev.id)), w, offset)) ==
            RowOf(org, log, teamId, w, offset)(dev)
  {
  }

  /** `team.developers.map(...)`: runs the engine once per developer, in team order. */
  method BuildRows(org: seq<Team>, log: EventLog, team: Team, w: Window, offset: int -> int)
    returns (rows: seq<Contributor>)
    ensures rows == Map(team.developers, RowOf(org, log, team.id, w, offset))
  {
    var devs := team.developers;
    ghost var f := RowOf(org, log, team.id, w, offset);
    rows := [];
    for i := 0 to |devs|
      invariant rows == Map(devs[..i], f)
    {
      var dev := devs[i];
      MapPrefix(devs, i, f);
      var m := CalculateMetrics(org, log, Config(Some(team.id), Some(dev.id)), w, offset);
      RowIs(org, log, team.id, dev, w, offset);
      rows := rows + [Contributor(dev, m)];
    }
    assert devs[..|devs|] == devs;
  }

  /** The role filter and the in-place `data.sort(...)` on the built rows. */
  method FilterAndSort(rows: seq<Contributor>, roleFilter: string, sc: SortConfig) returns (r: seq<Contributor>)
    ensures r == SortSeq(ByRole(rows, roleFilter), ContributorKey(sc.key), sc.direction == Ascending)
  {
    var data := rows;
    if roleFilter != "all" {
      data := Filter(data, HasRole(roleFilter));
    }
    var n := |data|;
    var a := new Contributor[n](k requires 0 <= k < n reads {} => data[k]);
    assert a[..] == data;
    SortInPlace(a, ContributorKey(sc.key), sc.direction == Ascending);
    r := a[..];
  }

  /** The `contributors` memo: the rows, the role filter, and the sort. */
  method RankContributors(org: seq<Team>, log: EventLog, team: Team, roleFilter: string, sc: SortConfig,
                          w: Window, offset: int -> int) returns (r: seq<Contributor>)
    ensures r == Ranked(org, log, team, roleFilter, sc, w, offset)
  {
    var rows := BuildRows(org, log, team, w, offset);
    r := FilterAndSort(rows, roleFilter, sc);
  }

  /** The table lists exactly the developers whose role passes the filter,
      each once per occurrence in the team, each with the snapshot of the
      query narrowed to that developer in this team. */
  lemma RankedMembers(org: seq<Team>, log: EventLog, team: Team, roleFilter: string, sc: SortConfig,
                      w: Window, offset: int -> int)
    ensures var r, kept := Ranked(org, log, team, roleFilter, sc, w, offset), Kept(org, log, team, roleFilter, w, offset);
      && multiset(r) == multiset(kept)
      && (forall c :: c in r ==>
            && c.dev in team.developers && RoleMatches(roleFilter, c.dev)
            && c.metrics == MetricsOf(org, log, Config(Some(team.id), Some(c.dev.id)), w, offset))
      && (forall dev :: dev in team.developers && RoleMatches(roleFilter, dev) ==>
            Row(org, log, team.id, dev, w, offset) in r)
      && |r| == |Filter(team.developers, Matches(roleFilter))|
      && (roleFilter == "all" ==> |r| == |team.developers|)
  {
    var kept := Kept(org, log, team, roleFilter, w, offset);
    SortSeqPermutation(kept, ContributorKey(sc.key), sc.direction == Ascending);
    FilterRows(team.developers, RowOf(org, log, team.id, w, offset), roleFilter);
    var r := Ranked(org, log, team, roleFilter, sc, w, offset);
    assert forall c :: c in r <==> c in kept by {
      forall c ensures c in r <==> c in kept {
        assert c in r <==> c in multiset(r);
      }
    }
    KeptRows(org, log, team, roleFilter, w, offset);
    KeptHasEveryDeveloper(org, log, team, roleFilter, w, offset);
  }

  /** Every row that passes the role filter is a matching team developer's, with that developer's snapshot. */
  lemma KeptRows(org: seq<Team>, log: EventLog, team: Team, roleFilter: string, w: Window, offset: int -> int)
    ensures forall c :: c in Kept(org, log, team, roleFilter, w, offset) ==>
              && c.dev in team.developers && RoleMatches(roleFilter, c.dev)
              && c.metrics == MetricsOf(org, log, Config(Some(team.id), Some(c.dev.id)), w, offset)
  {
    var f := RowOf(org, log, team.id, w, offset);
    forall c | c in Kept(org, log, team, roleFilter, w, offset)
      ensures c.dev in team.developers && RoleMatches(roleFilter, c.dev)
      ensures c.metrics == MetricsOf(org, log, Config(Some(team.id), Some(c.dev.id)), w, offset)
    {
      KeptMember(team.developers, f, roleFilter, c);
      var k :| 0 <= k < |team.developers| && f(team.developers[k]) == c;
      assert team.developers[k] in team.developers;
    }
  }

  /** Every team developer whose role passes the filter has a row. */
  lemma KeptHasEveryDeveloper(org: seq<Team>, log: EventLog, team: Team, roleFilter: string, w: Window, offset: int -> int)
    ensures forall dev :: dev in team.developers && RoleMatches(roleFilter, dev) ==>
              Row(org, log, team.id, dev, w, offset) in Kept(org, log, team, roleFilter, w, offset)
  {
    var f := RowOf(org, log, team.id, w, offset);
    forall dev | dev in team.developers && RoleMatches(roleFilter, dev)
      ensures Row(org, log, team.id, dev, w, offset) in Kept(org, log, team, roleFilter, w, offset)
    {
      var k :| 0 <= k < |team.developers| && team.developers[k] == dev;
      assert f(team.developers[k]) == f(dev);
      KeptMember(team.developers, f, roleFilter, f(dev));
      assert f(dev) == Row(org, log, team.id, dev, w, offset);
    }
  }

  /** Filtering the rows by role is building the rows of the developers that
      pass the filter, so there is one row per matching developer. */
  lemma {:induction false} FilterRows(devs: seq<Developer>, f: Developer -> Contributor, roleFilter: string)
    requires forall d :: f(d).dev == d
    ensures ByRole(Map(devs, f), roleFilter) == Map(Filter(devs, Matches(roleFilter)), f)
  {
    if roleFilter == "all" {
      FilterKeepsAll(devs, Matches(roleFilter));
    } else if devs != [] {
      var devs', x := devs[..|devs| - 1], devs[|devs| - 1];
      FilterRows(devs', f, roleFilter);
      assert Map(devs, f) == Map(devs', f) + [f(x)];
      FilterSnoc(Map(devs', f), f(x), HasRole(roleFilter));
      assert HasRole(roleFilter)(f(x)) == Matches(roleFilter)(x);
      assert Filter(devs, Matches(roleFilter)) ==
             Filter(devs', Matches(roleFilter)) + (if Matches(roleFilter)(x) then [x] else []);
      var kept' := Filter(devs', Matches(roleFilter));
      if Matches(roleFilter)(x) {
        MapSnoc(kept', x, f);
      } else {
        assert !HasRole(roleFilter)(f(x));
        assert Filter(Map(devs, f), HasRole(roleFilter)) == Filter(Map(devs', f), HasRole(roleFilter));
        assert Filter(devs, Matches(roleFilter)) == kept';
      }
    }
  }

  /** A row survives the role filter exactly when it is a developer's row and
      passes the filter. */
  lemma KeptMember(devs: seq<Developer>, f: Developer -> Contributor, roleFilter: string, c: Contributor)
    ensures c in ByRole(Map(devs, f), roleFilter) <==>
              (exists k :: 0 <= k < |devs| && f(devs[k]) == c) && (roleFilter == "all" || c.dev.role == roleFilter)
  {
    MapMembership(devs, f, c);
    if roleFilter != "all" {
      FilterMembership(Map(devs, f), HasRole(roleFilter), c);
    }
  }

  /** No row is preceded by the row after it, in the chosen direction. */
  lemma RankedOrdered(org: seq<Team>, log: EventLog, team: Team, roleFilter: string, sc: SortConfig,
                      w: Window, offset: int -> int)
    ensures Ordered(Ranked(org, log, team, roleFilter, sc, w, offset), ContributorKey(sc.key), sc.direction == Ascending)
  {
    SortSeqOrdered(Kept(org, log, team, roleFilter, w, offset), ContributorKey(sc.key), sc.direction == Ascending);
  }

  /** Rows with equal sort values keep their team order. */
  lemma RankedStable(org: seq<Team>, log: EventLog, team: Team, roleFilter: string, sc: SortConfig,
                     w: Window, offset: int -> int)
    ensures forall v :: SameKey(Ranked(org, log, team, roleFilter, sc, w, offset), ContributorKey(sc.key), v) ==
                        SameKey(Kept(org, log, team, roleFilter, w, offset), ContributorKey(sc.key), v)
  {
    forall v {
      SortSeqStable(Kept(org, log, team, roleFilter, w, offset), ContributorKey(sc.key), sc.direction == Ascending, v);
    }
  }
}
