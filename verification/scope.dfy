/** Scope resolution (src/App.jsx:114-119, 162) and the conjunctive scope
    filter (src/App.jsx:135-138) of `calculateMetricsFor`. */
module Scope {

  import opened Domain
  import opened Seqs

  /** `organization.teams.flatMap(t => t.developers)`. */
  function AllDevelopers(org: seq<Team>): (r: seq<Developer>)
    ensures forall d :: d in r <==> exists t :: t in org && d in t.developers
  {
    if org == [] then []
    else
      var init := org[..|org| - 1];
      var r := AllDevelopers(init) + org[|org| - 1].developers;
      assert forall t :: t in org <==> t in init || t == org[|org| - 1];
      r
  }

  /** `organization.teams.flatMap(t => t.repositories)`. */
  function AllRepositories(org: seq<Team>): (r: seq<Repository>)
    ensures forall p :: p in r <==> exists t :: t in org && p in t.repositories
  {
    if org == [] then []
    else
      var init := org[..|org| - 1];
      var r := AllRepositories(init) + org[|org| - 1].repositories;
      assert forall t :: t in org <==> t in init || t == org[|org| - 1];
      r
  }

  /** JavaScript truthiness of an optional numeric id: absent and 0 are falsy. */
  predicate Truthy(id: Option<int>)
  {
    id.Some? && id.value != 0
  }

  function RepoId(r: Repository): int { r.id }

  function DeveloperId(d: Developer): int { d.id }

  /** The team the query names: the first team whose id is the query's. */
  function TeamOf(org: seq<Team>, cfg: Config): Option<Team>
  {
    Find(org, (t: Team) => cfg.teamId.Some? && t.id == cfg.teamId.value)
  }

  /** The developer looked up in the whole organisation, only for a truthy id. */
  function DeveloperOf(org: seq<Team>, cfg: Config): Option<Developer>
  {
    if Truthy(cfg.developerId) then Find(AllDevelopers(org), (d: Developer) => d.id == cfg.developerId.value)
    else None
  }

  /** The resolved scope of a query. */
  datatype Resolved = Resolved(
    team: Option<Team>,
    developer: Option<Developer>,
    repoIds: seq<int>,
    authorIds: seq<int>,
    name: string)

  const OrganizationName: string := "Organization Average"

  /** Builds the repository ids and author ids of the query, and its display name.
      An unknown team falls back to every repository and developer. */
  function Resolve(org: seq<Team>, cfg: Config): (s: Resolved)
    ensures s.team == TeamOf(org, cfg) && s.developer == DeveloperOf(org, cfg)
    ensures Truthy(cfg.developerId) ==> s.authorIds == [cfg.developerId.value]
    ensures s.name == if s.developer.Some? then s.developer.value.name
                      else if s.team.Some? then s.team.value.name
                      else OrganizationName
  {
    var team := TeamOf(org, cfg);
    var developer := DeveloperOf(org, cfg);
    var repoIds := if team.Some? then Map(team.value.repositories, RepoId)
                   else Map(AllRepositories(org), RepoId);
    var teamAuthorIds := if team.Some? then Map(team.value.developers, DeveloperId)
                         else Map(AllDevelopers(org), DeveloperId);
    var authorIds := if Truthy(cfg.developerId) then [cfg.developerId.value] else teamAuthorIds;
    var name := if developer.Some? then developer.value.name
                else if team.Some? then team.value.name
                else OrganizationName;
    Resolved(team, developer, repoIds, authorIds, name)
  }

  /** A known team scopes to exactly its own repositories, and to its own
      developers unless a developer id narrows authorship to that one id. */
  lemma TeamScope(org: seq<Team>, cfg: Config, t: Team)
    requires TeamOf(org, cfg) == Some(t)
    ensures cfg.teamId == Some(t.id) && t in org
    ensures forall p :: p in Resolve(org, cfg).repoIds <==> exists r :: r in t.repositories && r.id == p
    ensures !Truthy(cfg.developerId) ==>
              forall a :: a in Resolve(org, cfg).authorIds <==> exists d :: d in t.developers && d.id == a
    ensures Truthy(cfg.developerId) ==> Resolve(org, cfg).authorIds == [cfg.developerId.value]
  {
    var s := Resolve(org, cfg);
    forall p ensures p in s.repoIds <==> exists r :: r in t.repositories && r.id == p {
      MapMembership(t.repositories, RepoId, p);
    }
    if !Truthy(cfg.developerId) {
      forall a ensures a in s.authorIds <==> exists d :: d in t.developers && d.id == a {
        MapMembership(t.developers, DeveloperId, a);
      }
    }
  }

  /** A team id that matches no team (the 'org' sentinel included) scopes to
      every repository and developer of the organisation; without a known
      developer the snapshot is called "Organization Average". */
  lemma OrganizationScope(org: seq<Team>, cfg: Config)
    requires cfg.teamId.None? || forall t :: t in org ==> t.id != cfg.teamId.value
    ensures Resolve(org, cfg).team.None?
    ensures forall p :: p in Resolve(org, cfg).repoIds <==>
              exists t, r :: t in org && r in t.repositories && r.id == p
    ensures !Truthy(cfg.developerId) ==>
              forall a :: a in Resolve(org, cfg).authorIds <==>
                exists t, d :: t in org && d in t.developers && d.id == a
    ensures DeveloperOf(org, cfg).None? ==> Resolve(org, cfg).name == OrganizationName
  {
    OrganizationRepositories(org);
    OrganizationDevelopers(org);
  }

  /** The ids of every repository of every team. */
  lemma OrganizationRepositories(org: seq<Team>)
    ensures forall p :: p in Map(AllRepositories(org), RepoId) <==>
              exists t, r :: t in org && r in t.repositories && r.id == p
  {
    var all := AllRepositories(org);
    forall p ensures p in Map(all, RepoId) <==> exists t, r :: t in org && r in t.repositories && r.id == p {
      MapMembership(all, RepoId, p);
      if p in Map(all, RepoId) {
        var k :| 0 <= k < |all| && RepoId(all[k]) == p;
        assert all[k] in all;
      }
      if exists t, r :: t in org && r in t.repositories && r.id == p {
        var t, r :| t in org && r in t.repositories && r.id == p;
        assert r in all;
        var k :| 0 <= k < |all| && all[k] == r;
        assert RepoId(all[k]) == p;
      }
    }
  }

  /** The ids of every developer of every team. */
  lemma OrganizationDevelopers(org: seq<Team>)
    ensures forall a :: a in Map(AllDevelopers(org), DeveloperId) <==>
              exists t, d :: t in org && d in t.developers && d.id == a
  {
    var devs := AllDevelopers(org);
    forall a ensures a in Map(devs, DeveloperId) <==> exists t, d :: t in org && d in t.developers && d.id == a {
      MapMembership(devs, DeveloperId, a);
      if a in Map(devs, DeveloperId) {
        var k :| 0 <= k < |devs| && DeveloperId(devs[k]) == a;
        assert devs[k] in devs;
      }
      if exists t, d :: t in org && d in t.developers && d.id == a {
        var t, d :| t in org && d in t.developers && d.id == a;
        assert d in devs;
        var k :| 0 <= k < |devs| && devs[k] == d;
        assert DeveloperId(devs[k]) == a;
      }
    }
  }

  /** The record with this project and author is in scope. */
  predicate InScope(s: Resolved, projectId: int, authorId: int)
  {
    projectId in s.repoIds && authorId in s.authorIds
  }

  /** Keeps, in each collection, the records whose project and author are in scope. */
  function ScopeLog(log: EventLog, s: Resolved): EventLog
  {
    EventLog(
      Filter(log.mrs, (m: MergeRequest) => InScope(s, m.projectId, m.authorId)),
      Filter(log.commits, (c: Commit) => InScope(s, c.projectId, c.authorId)),
      Filter(log.deployments, (d: Deployment) => InScope(s, d.projectId, d.authorId)),
      Filter(log.incidents, (i: Incident) => InScope(s, i.projectId, i.authorId)))
  }

  /** Scoping is conjunctive: a record stays exactly when its project AND its
      author are in scope; one without the other is dropped. */
  lemma ScopeKeepsExactly(log: EventLog, s: Resolved)
    ensures var r := ScopeLog(log, s);
      && (forall x :: x in r.mrs <==> x in log.mrs && InScope(s, x.projectId, x.authorId))
      && (forall x :: x in r.commits <==> x in log.commits && InScope(s, x.projectId, x.authorId))
      && (forall x :: x in r.deployments <==> x in log.deployments && InScope(s, x.projectId, x.authorId))
      && (forall x :: x in r.incidents <==> x in log.incidents && InScope(s, x.projectId, x.authorId))
  {
    forall x: MergeRequest { FilterMembership(log.mrs, (m: MergeRequest) => InScope(s, m.projectId, m.authorId), x); }
    forall x: Commit { FilterMembership(log.commits, (c: Commit) => InScope(s, c.projectId, c.authorId), x); }
    forall x: Deployment { FilterMembership(log.deployments, (d: Deployment) => InScope(s, d.projectId, d.authorId), x); }
    forall x: Incident { FilterMembership(log.incidents, (i: Incident) => InScope(s, i.projectId, i.authorId), x); }
  }

  /** A scope with the single author `id` keeps only records by `id`. */
  lemma SingleAuthorScope(log: EventLog, s: Resolved, id: int)
    requires s.authorIds == [id]
    ensures var r := ScopeLog(log, s);
      && (forall x :: x in r.mrs ==> x.authorId == id)
      && (forall x :: x in r.commits ==> x.authorId == id)
      && (forall x :: x in r.deployments ==> x.authorId == id)
      && (forall x :: x in r.incidents ==> x.authorId == id)
  {
    ScopeKeepsExactly(log, s);
  }

  /** The scope filter commutes with concatenation, so retained records keep
      their relative order. */
  lemma ScopeKeepsOrder(a: EventLog, b: EventLog, s: Resolved)
    ensures ScopeLog(Concat(a, b), s) == Concat(ScopeLog(a, s), ScopeLog(b, s))
  {
    FilterConcat(a.mrs, b.mrs, (m: MergeRequest) => InScope(s, m.projectId, m.authorId));
    FilterConcat(a.commits, b.commits, (c: Commit) => InScope(s, c.projectId, c.authorId));
    FilterConcat(a.deployments, b.deployments, (d: Deployment) => InScope(s, d.projectId, d.authorId));
    FilterConcat(a.incidents, b.incidents, (i: Incident) => InScope(s, i.projectId, i.authorId));
  }
}
