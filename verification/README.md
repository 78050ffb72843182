# Developer-analytics metrics engine, in Dafny

This project models the metrics engine of a developer-analytics dashboard
(`src/App.jsx`). For a team, a developer or the whole organisation, and for
a period, the engine turns a feed of merge requests, commits, deployments and
incidents into one snapshot of KPIs. The KPIs are lead, cycle and review
time, merge-request size, deployment frequency, change-failure rate, time to
restore, coding days and commit throughput, plus a lead-time series. Around
the engine the model also covers:

- the contributor table, which has one row per developer with that
  developer's own snapshot, a role filter, a stable sort by any column, and
  the `requestSort` rule for the sort direction;
- the `formatDuration` display of a duration;
- the KPI picker's toggle.

Modules, one file each:

- `Domain` (domain.dfy): the entities, the feed (`EventLog`), the query
  (`Config`), the period (`Window`) and the snapshot (`Metrics`).
- `Seqs` (seqs.dfy): `filter`, `map`, `find` and the summing loops, as
  functions on sequences.
- `Scope` (scope.dfy): resolves a query to repository ids, author ids and a
  display name, and applies the conjunctive scope filter.
- `Period` (period.dfy): the period filter on `created_at || merged_at`.
- `Kpis` (kpis.dfy): the accumulating `forEach` loops as methods with loop
  invariants, the weekday set, and the guarded means and ratio.
- `Sorting` (sorting.dfy): the stable comparator sort. `SortSeq` specifies
  it and `SortInPlace` implements it on an array.
- `Engine` (engine.dfy): `calculateMetricsFor`. `MetricsOf` is the snapshot
  as a function of the query. `CalculateMetrics` computes it step by step,
  as the source does, and is proved equal to it.
- `Ranking` (ranking.dfy): the contributor table and `requestSort`.
- `Format` (format.dfy): `formatDuration`.
- `KpiSelector` (kpiselector.dfy): `handleToggle`.

Representation choices:

- Timestamps are integer milliseconds. A merge request's `created_at` is
  optional; when it is missing, the period filter falls back to `merged_at`.
- The query's team id is `None` for the 'org' sentinel, which matches no team.
- A developer id is used only when it is truthy, as in JavaScript: `Some(0)`
  counts as absent.
- The period cutoff is an input (`Window.Since(cutoff)`).
- Local time is an input function `offset` from an instant to the zone's UTC
  offset. The chart date is the local day index and the weekday is
  `(day + 4) % 7`, because 1970-01-01 was a Thursday.
- Means are exact `real` quotients. Cycle and review times are `real`,
  because the feed carries fractional milliseconds; a review time of 0.4 is
  truthy and counted.
- Strings compare as JavaScript compares them: by UTF-16 code units. The
  characters from U+E000 to U+FFFF therefore sort after every character
  above U+FFFF.

Behaviours a reader might not expect, modelled as the code has them:

- An unknown team id silently falls back to organisation scope.
- Time to restore divides by ALL in-scope incidents, open ones included.
- A review time of 0 is excluded like a null one, because the test is
  JavaScript truthiness.

## Model

| member | source | states |
|---|---|---|
| Domain.Weekday | src/App.jsx:154 | the local weekday is one of 0..6 and agrees with the local day index modulo 7 |
| Seqs.FilterMembership | src/App.jsx:128-138 | an element survives a filter exactly when it occurs in the input and passes the predicate |
| Seqs.FilterConcat | src/App.jsx:128-138 | filtering a concatenation is the concatenation of the filtered parts, so relative order is kept |
| Seqs.FilterMultiset | src/App.jsx:128-138 | a filter keeps each passing element with its full multiplicity and drops every failing one |
| Seqs.FilterDistinct | src/App.jsx:418 | filtering a list without duplicates leaves a list without duplicates |
| Seqs.Find | src/App.jsx:115-116 | `find` returns nothing exactly when no element matches, and otherwise the first matching element |
| Seqs.MapMembership | src/App.jsx:117-118 | a value is among the mapped ids exactly when some element maps to it |
| Scope.AllDevelopers | src/App.jsx:50 | a developer is in the flattened list exactly when some team lists it |
| Scope.AllRepositories | src/App.jsx:51 | a repository is in the flattened list exactly when some team lists it |
| Scope.Resolve | src/App.jsx:114-119 | the team and developer are the ones looked up; a truthy developer id makes the authors exactly `[developerId]`; the name is the developer's, else the team's, else "Organization Average" |
| Scope.TeamScope | src/App.jsx:115-119 | for a known team: the repository ids are exactly the team's; without a developer id the authors are exactly the team's developers, and with one the authors are `[developerId]` while the repositories stay the team's |
| Scope.OrganizationScope | src/App.jsx:115-118 | an unknown team (or the 'org' sentinel) scopes to every repository and every developer of the organisation; without a found developer the name is "Organization Average" |
| Scope.OrganizationRepositories | src/App.jsx:117 | the organisation's repository ids are exactly the ids of the repositories of its teams |
| Scope.OrganizationDevelopers | src/App.jsx:118 | the organisation's author ids are exactly the ids of the developers of its teams |
| Scope.ScopeLog | src/App.jsx:135-138 | definition: each collection filtered to the records whose project is among the repository ids and whose author is among the author ids |
| Scope.ScopeKeepsExactly | src/App.jsx:135-138 | a record of each collection is kept exactly when its project AND its author are in scope |
| Scope.ScopeKeepsOrder | src/App.jsx:135-138 | the scope filter commutes with concatenation, so records keep their relative order |
| Scope.SingleAuthorScope | src/App.jsx:119 | a scope whose authors are exactly `[id]` keeps only records written by `id`, in every collection |
| Period.MrStamp | src/App.jsx:126 | definition: a merge request is stamped with `created_at`, or with `merged_at` when `created_at` is missing |
| Period.ApplyWindow | src/App.jsx:122 | the 'all' period leaves the feed unchanged |
| Period.WindowKeepsExactly | src/App.jsx:126-132 | a record is kept exactly when its stamp (`created_at`, else `merged_at`) is at or after the cutoff, the boundary included |
| Period.WindowKeepsOrder | src/App.jsx:127-132 | the period filter commutes with concatenation, so records keep their relative order |
| Kpis.FailureRate | src/App.jsx:169 | definition: failed deployments over all deployments, times 100, or 0 without deployments |
| Kpis.Weekdays | src/App.jsx:153-154 | definition: the set of local weekdays of the commits, built one commit at a time |
| Kpis.Mean | src/App.jsx:164-170 | the guarded mean is 0 for no items and otherwise the value whose product with the count is the total |
| Kpis.SumMergeRequests | src/App.jsx:142-148 | the loop's totals are the sums of lead time, cycle time and size over all merge requests, and the review total and count over the merge requests with a truthy review time |
| Kpis.SumRestoreTime | src/App.jsx:151-152 | the loop's total is the sum of `closed_at - created_at` over the closed incidents |
| Kpis.CollectWeekdays | src/App.jsx:153-154 | the loop's set is the set of local weekdays of the commits |
| Kpis.WeekdaysMembership | src/App.jsx:153-154 | a weekday is in the set exactly when some commit was made on it, so coding days count the distinct weekdays |
| Kpis.WeekdaysBounds | src/App.jsx:153-154 | the weekday set holds only values 0..6 and has at most one entry per commit |
| Kpis.CodingDaysBounds | src/App.jsx:153-154 | the number of coding days is at most 7 and at most the number of commits |
| Kpis.MeanBetween | src/App.jsx:164-167 | a mean of terms that lie between two bounds lies between them too |
| Kpis.MeanOfBounded | src/App.jsx:164-170 | a guarded mean of a total between `n*lo` and `n*hi` lies between `lo` and `hi` |
| Kpis.StatusCounts | src/App.jsx:150 | successful plus failed deployments never exceed all deployments |
| Kpis.FailureRateBounds | src/App.jsx:169 | the failure rate lies in [0, 100]; it is 0 exactly when nothing failed (or nothing was deployed) and 100 exactly when every deployment failed |
| Kpis.PercentBounds | src/App.jsx:169 | `f / n * 100` for `0 <= f <= n` lies in [0, 100], and is 0 iff `f = 0` and 100 iff `f = n` |
| Kpis.ReviewTimeExample | src/App.jsx:147 | review times 10, null (or 0) and 30 average to 20 |
| Kpis.OpenIncidentCountsOnly | src/App.jsx:151-152 | an open incident adds nothing to the restore total and, when that total is positive, lowers the time to restore |
| Kpis.MeanShrinks | src/App.jsx:170 | spreading a positive total over one more item lowers the mean |
| Kpis.LeadTimeExample | src/App.jsx:164 | lead times of 2, 4 and 6 hours average to 14400000 ms |
| Sorting.Utf16 | src/App.jsx:324-325 | a character below U+10000 is the one code unit equal to it; a larger one is a high surrogate followed by a low surrogate, which decode back to the character |
| Sorting.CodeUnits | src/App.jsx:324-325 | definition: the UTF-16 code units of a string, each character's `Utf16` units in order |
| Sorting.CodeUnitsConcat | src/App.jsx:324-325 | the code units of a concatenation are the code units of its parts, one after the other |
| Sorting.CodeUnitsOfChar | src/App.jsx:324-325 | a one-character string is encoded as that character's units |
| Sorting.TextLess | src/App.jsx:324-325 | definition: string `<` one character at a time, ranking U+E000..U+FFFF above the characters beyond U+FFFF |
| Sorting.TextLessIsCodeUnitOrder | src/App.jsx:324-325 | string `<` as modelled is exactly the lexicographic order of the UTF-16 code units, a proper prefix first |
| Sorting.CommonPrefix | src/App.jsx:324-325 | a common prefix of code units does not change their order |
| Sorting.FirstUnitsDecide | src/App.jsx:324-325 | two different characters order their code units as their ranks say |
| Sorting.SurrogateOrderExample | src/App.jsx:324-325 | U+1F600 sorts before U+FFFF, as its high surrogate 0xD83D does, although its code point is larger |
| Sorting.Less | src/App.jsx:324-325 | definition: `<` on two numbers or two strings; values of different kinds, and `undefined`, never compare below |
| Sorting.Precedes | src/App.jsx:324-325 | definition: the comparator is negative for `x` before `y` in the chosen direction |
| Sorting.SortSeq | src/App.jsx:314-327 | definition: the stable sort, inserting each element behind the last one it does not precede |
| Sorting.LexLessIrreflexive | src/App.jsx:324-325 | no code-unit sequence compares below itself |
| Sorting.LexLessAsymmetric | src/App.jsx:324-325 | two code-unit sequences never compare below each other both ways |
| Sorting.LessAsymmetric | src/App.jsx:324-325 | JavaScript `<` on numbers and on strings never holds both ways, and never between equal values |
| Sorting.PrecedesAsymmetric | src/App.jsx:324-325 | in either direction the comparator never puts each of two values before the other |
| Sorting.InsertBackMultiset | src/App.jsx:314 | inserting an element into a run adds exactly that element |
| Sorting.SortSeqPermutation | src/App.jsx:156 | the sort keeps the length and the multiset of its input |
| Sorting.InsertBackOrdered | src/App.jsx:314 | inserting into an ordered run keeps it ordered |
| Sorting.SortSeqOrdered | src/App.jsx:156 | in the sorted result no element is preceded by the one after it |
| Sorting.InsertBackSameKey | src/App.jsx:314 | insertion appends the element to the elements with its own key and leaves the other keys' elements as they were |
| Sorting.PassedKeepsSameKey | src/App.jsx:314 | moving an element past one with another key changes no key's sub-sequence |
| Sorting.SortSeqStable | src/App.jsx:156 | the elements with any one key keep their input order |
| Sorting.SortSeqOfTies | src/App.jsx:326 | keys that never compare below one another leave the order unchanged |
| Sorting.DescendingExample | src/App.jsx:324-326 | sorting values 2, 5, 5 descending gives the two 5s first, in input order, then the 2 |
| Sorting.InsertLast | src/App.jsx:314 | one in-place insertion step turns the array prefix into the insertion of the next element and leaves the rest untouched |
| Sorting.ShiftRight | src/App.jsx:314 | the inner loop moves every element that the new one precedes one place right and stops behind one it does not precede, or at the front |
| Sorting.InsertBackAt | src/App.jsx:314 | the new element lands right after the last element it does not precede, with everything it precedes after it |
| Sorting.SortInPlace | src/App.jsx:156 | the in-place sort leaves the array equal to `SortSeq` of its old contents |
| Engine.MetricsOf | src/App.jsx:113-175 | definition: the snapshot of a query: scope, period and scope filters, the guarded means, the counts and the series over the merge requests sorted by merge time |
| Engine.CalculateMetrics | src/App.jsx:113-175 | the step-by-step computation returns exactly the snapshot `MetricsOf` of the query |
| Engine.SortByMergeTime | src/App.jsx:156 | the in-place sort of the retained merge requests yields `SortSeq` by merge time, ascending |
| Engine.RetainedExactly | src/App.jsx:121-138 | a record is counted exactly when it is in the period AND its project AND its author are in scope |
| Engine.DeveloperOwnRecords | src/App.jsx:119 | with a truthy developer id, every counted record, and every merge request of the series, belongs to that developer |
| Engine.MergeRequestMeans | src/App.jsx:142-148 | lead time, cycle time and size are the sums over the retained merge requests divided by their count, or 0 without any; review time averages over the truthy review times only; no merge requests means an empty series |
| Engine.RestoreMean | src/App.jsx:151-152 | time to restore is the closed incidents' restore time divided by the number of all retained incidents, or 0 without incidents |
| Engine.CycleTimeBetween | src/App.jsx:143-165 | when every cycle time of the feed lies between two bounds, the average cycle time lies between them too, and it is 0 without merge requests |
| Engine.CountBounds | src/App.jsx:150-154 | deployment frequency plus failures is at most the deployment count; the failure rate is a percentage that is 0 and 100 in exactly the stated cases; commit throughput is the commit count; coding days are at most 7 and at most the commit throughput |
| Engine.TimelineShape | src/App.jsx:156-159 | one point per retained merge request, with no deduplication; the merge requests are a permutation of the retained ones, ordered by `merged_at` ascending, ties in input order; each point has the local merge day and the lead time in hours, sign included |
| Engine.MergeTimesPairwise | src/App.jsx:156 | adjacent order by merge time extends to every pair |
| Ranking.RequestSort | src/App.jsx:332-338 | the new key is the clicked one; the direction is descending exactly when that key was sorted ascending |
| Ranking.RequestSortAlternates | src/App.jsx:332-338 | repeated clicks on one header alternate the direction |
| Ranking.InitialClicks | src/App.jsx:305-338 | the table opens sorted by name ascending, so a first click on 'name' sorts descending and one on any other column ascending |
| Ranking.UpToDot | src/App.jsx:319 | the segment is the longest prefix without a '.' |
| Ranking.SortKeyOf | src/App.jsx:315-322 | definition: a "metrics." key reads the snapshot field named up to the next '.', any other key the developer's field |
| Ranking.MetricValue | src/App.jsx:320-321 | definition: the number or text a snapshot field holds, or a value that compares with nothing |
| Ranking.DeveloperValue | src/App.jsx:315-316 | definition: the number or text a developer field holds, or a value that compares with nothing |
| Ranking.ByRole | src/App.jsx:310-312 | definition: 'all' keeps every row, any other value the rows with that role |
| Ranking.Ranked | src/App.jsx:307-330 | definition: the rows of the team's developers, filtered by role and stably sorted by the chosen column and direction |
| Ranking.BuildRows | src/App.jsx:308 | running the engine once per developer gives one row per developer, in team order, each with that developer's snapshot |
| Ranking.RankContributors | src/App.jsx:307-330 | the rows, role filter and in-place sort give exactly the table `Ranked`, with strings in UTF-16 code-unit order |
| Ranking.FilterAndSort | src/App.jsx:310-327 | the role filter followed by the in-place sort yields the stable sort of the rows that pass the filter, with string `<` on UTF-16 code units |
| Ranking.KeptMember | src/App.jsx:310-312 | a row passes the role filter exactly when it is a developer's row and 'all' is selected or the role matches |
| Ranking.KeptRows | src/App.jsx:308-312 | every row that passes the role filter belongs to a team developer whose role matches, and carries the snapshot narrowed to that developer |
| Ranking.KeptHasEveryDeveloper | src/App.jsx:308-312 | every team developer whose role matches has a row |
| Ranking.FilterRows | src/App.jsx:308-312 | filtering the built rows by role gives the rows of exactly the developers whose role matches, in team order |
| Ranking.RankedMembers | src/App.jsx:308-312 | the table is a permutation of the rows that pass the role filter; every row is a team developer with a matching role and the snapshot narrowed to that developer; every such developer appears; there are as many rows as team developers whose role matches, all of them for 'all' |
| Ranking.RankedOrdered | src/App.jsx:314-327 | no row is preceded by the next row under the chosen column and direction |
| Ranking.RankedStable | src/App.jsx:314-327 | rows with equal sort values keep their team order |
| Format.DigitChar | src/App.jsx:17-20 | the digit character's code is `'0'` plus the digit |
| Format.NatToString | src/App.jsx:17-20 | a whole number is written as a non-empty string of decimal digits |
| Format.NatToStringRoundTrip | src/App.jsx:17-20 | reading the digits back gives the number |
| Format.NatToStringNoLeadingZero | src/App.jsx:17-20 | the text starts with '0' only for 0 |
| Format.Whole | src/App.jsx:9 | `Math.floor(ms / unit)` is the number of whole units in a non-negative duration |
| Format.WholeUnique | src/App.jsx:9 | only one whole number of units fits between `w * unit` and `(w + 1) * unit` |
| Format.NestedWhole | src/App.jsx:10-12 | flooring twice is flooring once by the product of the units |
| Format.WholePositive | src/App.jsx:14-19 | a whole unit fits exactly when the duration is at least one unit |
| Format.Units | src/App.jsx:9-12 | the successive floor divisions count the whole minutes, hours and days of the duration |
| Format.FormatDuration | src/App.jsx:7-21 | definition: "0s" up to zero, then the 'days' and 'hours' formats, then the largest non-zero unit among days, hours and minutes with the next smaller unit left over, or the whole seconds |
| Format.ZeroSentinel | src/App.jsx:8 | the display is "0s" exactly when the duration is under one second, zero and negative durations included, in every format |
| Format.ShortDays | src/App.jsx:17 | from one day up: whole days, then the whole hours left over, which are fewer than 24 |
| Format.ShortHours | src/App.jsx:18 | from one hour to a day: whole hours, then the whole minutes left over |
| Format.ShortMinutes | src/App.jsx:19 | from one minute to an hour: whole minutes, then the seconds left over |
| Format.ShortSeconds | src/App.jsx:20 | under a minute: the whole seconds |
| Format.DaysFormat | src/App.jsx:14 | 'days' shows whole days as "N.0 days" from one day up, and falls back to the short format below |
| Format.HoursFormat | src/App.jsx:15 | 'hours' shows whole hours as "N.0 hours" from one hour up, and falls back to the short format below |
| Format.HourExample | src/App.jsx:15-18 | 3723000 ms shows as "1h 2m", and as "1.0 hours" in the 'hours' format |
| Format.DayAndSecondsExample | src/App.jsx:14-20 | two days show as "2.0 days" in the 'days' format; 59999 ms shows as "59s" |
| KpiSelector.Toggle | src/App.jsx:418 | definition: a visible key is removed, a hidden one appended |
| KpiSelector.ToggleFlips | src/App.jsx:418 | the toggled key becomes visible exactly when it was hidden; every other key keeps its visibility |
| KpiSelector.ToggleTwiceHidden | src/App.jsx:418 | showing and then hiding a hidden key restores the list |
| KpiSelector.ToggleTwiceShown | src/App.jsx:418 | hiding and then showing a visible key moves it to the end |
| KpiSelector.ToggleKeepsDistinct | src/App.jsx:418 | toggling keeps a list free of duplicates |

## Left out

- React rendering, hooks, memoisation, charts, icons and the DOM listeners:
  these are presentation and browser side effects.
- The mock data generator and `Math.random`: the organisation and the feed
  are inputs.
- The clock and calendar arithmetic for the cutoff (`new Date()`,
  `setDate`, `parseInt` of the period): the cutoff is an input.
- `getDay` and `toLocaleDateString('en-CA')`: the zone is an input offset
  function, and the chart date is a local day index, not a "YYYY-MM-DD" string.
- Floating-point rounding of the sums, the means and `/ 3600000`: the model
  uses exact reals.
- `parseInt` of `changes_count`: the count is an integer field.
- Format.FormatDuration: a NaN input, which shows "0s", is not modelled,
  because durations are reals. `toFixed(1)` is modelled only for whole
  numbers, which is the only way the source calls it.
- Ranking.SortKeyOf: object-valued columns (`team`, `developer`, `metrics`)
  and unknown keys read as a value that compares with nothing, as JavaScript
  `<` does on them. The array-valued `mrs` and `timelineData` are also
  treated that way, although JavaScript compares arrays by their joined text.
- Ranking.MetricValue: comparisons between a number and a string are taken
  as false. One column always has one kind of value, so this case does not
  arise.
- Sorting.SortInPlace: `Array.prototype.sort` is modelled as a stable
  insertion sort. The engine's comparators are consistent, so every stable
  sort gives this same result.
