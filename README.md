# GitHub-Stat-Checker contribution analytics, in Dafny

This project models the contribution analytics engine of GitHub-Stat-Checker.
It covers the pure computation between the GitHub GraphQL response and what the
dashboard and predictions pages display:

- **The statistics step** (`process_contribution_data`): totals, the public/private
  split, the most productive day and its displayed date, the current and longest
  streaks, and the distinct active days.
- **The language tally** (`process_language_data`): language name to repository
  count and display colour, in order of first appearance.
- **The insights** (`analyze_contributions`): total contributions, days covered,
  active days and contributions per day.
- **The legacy versions** of the statistics step and the language tally in
  `github_stats.py`, with the three unit tests of `test_github_stats.py`.
- **The date helpers** of `util.py`: the duration text, the two date displays and
  the "less than two months old" flag.
- **The dashboard rules**: the total toggle, the language chart cut to six
  languages plus "Others", and the achievement badges.
- **The predictions page arithmetic**: rate growth, extrapolation to 365 days and
  the milestone list.

The response is a tree of datatypes (`Json`). Each field is absent, null or
present, because the code treats the three differently. A missing key gives
KeyError, a null object that is subscripted gives TypeError, and `strptime`
failures give ValueError. Each operation returns what Python returns, including
the value produced by every `except` handler. When an exception escapes, the
result is `Raised(fault)`.

The two loops the source runs over its data are Dafny methods with loop invariants:

- `Streaks.ComputeStreaks`, the streak loop.
- `Languages.ProcessLanguageData` and `LegacyStats.LegacyProcessLanguageData`, the
  language loops.

Each method is proved equal to a recursive reference definition. The properties
of that definition are then proved as lemmas. The clock (`datetime.now()`) is a
parameter. The predictions page takes the two results of
`analyze_contributions` as its inputs; what holds of every such result is the
predicate `Contributions.Coherent`, which `Contributions.AnalyzeContributions`
ensures.

Modules and files: `Json`, `Numerals`, `Dates`, `DateFormat`, `Durations`,
`Streaks`, `Contributions`, `Languages`, `LegacyStats`, `Dashboard` and
`Predictions`, one per `.dfy` file of the same name.

Behaviour the model keeps as the code has it, where a reader might expect
otherwise:

- **Day suffix.** The displayed day suffix is "st" for 1, 21 and 31, "nd" for 2,
  "rd" for 3 and "th" otherwise, so the 22nd and 23rd show as "22th" and "23th".
  `DateFormat.DaySuffixDiffersOnlyOn22And23` states this.
- **Public count.** The public count is the calendar's `totalContributions`, or 0
  when that key is absent. It is not the sum of the day counts.
- **Active days.** They are the number of distinct dates with contributions.
  `Contributions.AnalysisAgreesWithStats` relates them to the per-record count the
  insights use.
- **Legacy empty calendar.** The legacy statistics step lets ValueError escape
  when the calendar has no days.
- **Year length.** The predictions page takes a year to be 365 days. In a leap year the
  current window can have 366 days, and then the predicted year total falls below
  the contributions already made (`Predictions.LeapYearEndUndershoots`).
- **Milestones.** Milestone dates and days-to-milestone come from two functions
  that `util.py` does not define. Only the achieved/locked status and the progress
  are modelled.

## Model

| member | source | states |
|---|---|---|
| Json.Subscript | process_github_data.py:15-17 | `obj[key]` yields the value exactly when the key holds one; a missing key raises KeyError and a null raises TypeError |
| Json.UserOf | process_github_data.py:15 | `data['data']['user']` succeeds exactly when both keys hold objects, and otherwise raises only KeyError or TypeError |
| Json.FlattenKeepsOrder | process_github_data.py:17 | the flattened day list is the weeks' day lists concatenated in order: day k of week w sits at the offset of week w plus k |
| Numerals.NatToString | util.py:25 | `str(n)` is a digit string without leading zero whose decimal value is n |
| Numerals.NatToStringReadsBack | util.py:25 | reading the digits of `str(n)` back, even with text after them, gives n |
| Dates.DaysInMonth | util.py:24 | every month has between 28 and 31 days |
| Dates.ParseDate | util.py:24 | `strptime(s, '%Y-%m-%d')` only ever yields a real calendar day |
| Dates.ParseIso | util.py:29 | `strptime(s, '%Y-%m-%dT%H:%M:%SZ')` only ever yields a valid instant |
| Dates.ParseDateAcceptsExactlyCalendarDays | util.py:24 | a date written as `YYYY-MM-DD` is accepted exactly when that day exists, and is read as that day |
| Dates.IsoDateRoundTrip | util.py:24 | writing a date in the payload's form and parsing it gives the same date |
| Dates.ParseTimeAcceptsExactlyTimesOfDay | util.py:29 | a time written as `HH:MM:SSZ` is accepted exactly when it is a time of day, and is read as that time |
| Dates.IsoTimestampRoundTrip | util.py:29 | writing an instant in the `createdAt` form and parsing it gives the same instant, so every valid timestamp is accepted |
| Dates.DayNumberCountsDays | process_github_data.py:133 | the day count used for elapsed time goes up by exactly one from each day to the next, across month and year ends |
| Dates.TwoMonthsBefore | util.py:34 | two months back is the month index minus two, with the day clamped to that month's length and the time kept |
| Dates.IsLessThan2MonthsOld | util.py:32-35 | a value exactly when the timestamp parses, and then it says whether creation is later than two months before now |
| Dates.NewAccountByMonth | util.py:32-35 | created this month or last month means new; created three or more months back means not new |
| Dates.JustCreatedIsNew | util.py:32-35 | an account created at the current instant is less than two months old |
| DateFormat.DaySuffix | util.py:25 | the suffix is two letters, so it never merges with the day's digits |
| DateFormat.DaySuffixDiffersOnlyOn22And23 | util.py:25 | the suffix is the English ordinal one on every day of a month except the 22nd and 23rd, which get "th" |
| DateFormat.FormatDateDdMmYyyy | util.py:23-26 | a display exactly when the date parses, and then it is the display of that day |
| DateFormat.FormatIsoDate | util.py:28-30 | a display exactly when the timestamp parses, and then it is the display of its date |
| DateFormat.FormatIsoDateIgnoresTime | util.py:28-30 | formatting a full timestamp gives the same text as formatting its date part alone |
| DateFormat.MonthNumberOfAbbreviation | util.py:25 | every month's `%b` abbreviation maps back to that month |
| DateFormat.FormatDateReadsBack | util.py:25 | the displayed text can be read back to the exact day it shows |
| DateFormat.FormatDateInjective | util.py:25 | two different days never get the same display |
| Durations.DurationOf | util.py:9-11 | years·365 + months·30 + days is the elapsed count, with days below 30 and months·30 + days below 365 |
| Durations.DurationOfUnique | util.py:9-11 | that decomposition is the only one meeting those bounds, and 360 days is "12 months" |
| Durations.ElapsedDays | process_github_data.py:133 | `timedelta.days` is the difference of day numbers, minus one when the time of day of now is earlier |
| Durations.FormatDuration | util.py:4-21 | a text exactly when the timestamp parses, and then it is the text of the elapsed days |
| Durations.DurationTextReadsBack | util.py:13-21 | the text reads back to the same years, months and days, so no component is lost or misplaced |
| Durations.PluralWord | util.py:15-19 | a positive count's word names its unit and is singular exactly for one |
| Durations.PartsListComponents | util.py:13-19 | for non-negative fields, the components are the non-zero fields, each once, largest unit first, each word singular exactly for one |
| Durations.DurationTextLists | util.py:13-21 | the text of a positive number of days reads as exactly its non-zero components, each once, largest first, singular exactly for one |
| Durations.ZeroDaysTextIffNoTime | util.py:21 | the text is "0 days" exactly when no whole day has elapsed |
| Streaks.TrailingRun | process_github_data.py:39-52 | the current streak never exceeds the number of days |
| Streaks.LongestRun | process_github_data.py:39-52 | the longest streak lies between the current streak and the number of days |
| Streaks.TrailingRunIsMaximalSuffix | process_github_data.py:39-52 | the current streak is a run of active days ending on the last day, preceded by an inactive day or the start |
| Streaks.TrailingRunBoundsSuffixes | process_github_data.py:39-52 | no run of active days ending on the last day is longer than the current streak |
| Streaks.LongestRunIsLongest | process_github_data.py:39-52 | every run of active days is at most the longest streak |
| Streaks.LongestRunIsAttained | process_github_data.py:39-52 | some run of active days is exactly as long as the longest streak |
| Streaks.NoStreakIffNoContribution | process_github_data.py:39-52 | the longest streak is zero exactly when every day has zero contributions |
| Streaks.ComputeStreaks | process_github_data.py:39-52 | the loop ends with the current streak equal to the trailing run and the longest equal to the longest run |
| Contributions.DaysOf | process_github_data.py:15-17 | reaching the calendar's days fails only with KeyError or TypeError |
| Contributions.Positives | process_github_data.py:169-176 | the active days never exceed the number of days |
| Contributions.CalendarDays | process_github_data.py:16-17 | the flattened days exist exactly when `weeks` and every week's `contributionDays` are present |
| Contributions.PositivesAtMostSum | process_github_data.py:169-176 | active days never exceed total contributions, and they are zero together |
| Contributions.FirstMaxIndex | process_github_data.py:32 | `max(..., key=)` picks a largest count and the first one among equals |
| Contributions.Peak | process_github_data.py:30-37 | a date exactly when the calendar is non-empty, every day has a count, and the first day with the largest count has a date that parses; then the count is that day's, a maximum, with that day's display; otherwise (0, no date) |
| Contributions.ActiveDates | process_github_data.py:55-56 | one date per day with contributions, raising exactly when a count or a needed date is missing, and then KeyError |
| Contributions.ActiveDatesAreActiveDays | process_github_data.py:55-56 | a date is listed exactly when some day with contributions carries it |
| Contributions.DistinctDates | process_github_data.py:57 | `len(set(dates))` is at most the number of dates, equal to it without repeats, and zero only for no dates |
| Contributions.ActiveDaysAgree | process_github_data.py:39-57 | the distinct active dates never exceed the days, and are zero exactly when the longest streak is zero |
| Contributions.PeakIsStreak | process_github_data.py:30-52 | a most productive day with contributions means a longest streak of at least one |
| Contributions.StatsAgree | process_github_data.py:39-57 | active days are at most the days, zero exactly when there is no streak, and a peak with contributions implies a streak |
| Contributions.ProcessContributionData | process_github_data.py:4-80 | the fallback exactly when the payload fails a lookup; otherwise every field is the reference value, total = public + private, current ≤ longest ≤ days |
| Contributions.AnalyzeContributions | process_github_data.py:161-186 | None exactly for no or empty data; insights exactly when the lookups succeed, every day has a count and there is at least one day (otherwise the errors record: KeyError, TypeError or ZeroDivisionError caught); then total = sum of counts, days = number of days, active = days with contributions, rate × days = total |
| Contributions.AnalysisAgreesWithStats | process_github_data.py:54-57 | the insights and the statistics count the same days, and distinct active dates never exceed the insights' active days |
| Contributions.GithubDays | process_github_data.py:133 | the account age exists exactly when the timestamp parses, is then the elapsed whole days, and the "joined since" text is the duration text of that number |
| Languages.EdgeTag | process_github_data.py:99-103 | a repository is read without error exactly when its node and language key exist and a truthy language has a name; it is skipped exactly when the language is null or the empty object; a named language is counted with that name and its colour, grey when the colour key is missing |
| Languages.ColorOf | process_github_data.py:103 | a missing colour key gives the grey default, a present one its value, and only a null gives no colour |
| Languages.Tags | process_github_data.py:99-103 | the loop gets through the edges exactly when no edge raises, and counts at most one language per repository |
| Languages.CountedPositions | process_github_data.py:99-103 | the positions of exactly the repositories with a language, in increasing order |
| Languages.TagsFollowEdges | process_github_data.py:99-108 | when no edge raises, the loop counts one language per repository with a language, in the order of the edges, each the one that repository names |
| Languages.OrderLists | process_github_data.py:105-106 | a name is a key exactly when some counted repository has it, and no key repeats |
| Languages.IndexOfKey | process_github_data.py:105 | the first position holding the name, or the length when it is missing |
| Languages.TableStep | process_github_data.py:105-108 | one more repository updates the table exactly as one pass of the loop body does |
| Languages.ProcessLanguageData | process_github_data.py:82-113 | None exactly when a lookup raises; otherwise the table of names in order of first appearance with counts and first colours |
| Languages.TotalCountUpdate | process_github_data.py:108 | replacing one entry changes the total by the difference of the counts |
| Languages.TableCountsEveryRepository | process_github_data.py:99-108 | the counts add up to the number of repositories with a language |
| Languages.TableCountsCountedEdges | process_github_data.py:99-110 | the table's counts add up to the number of repositories with a language |
| Languages.TableLooksUpEveryLanguage | process_github_data.py:99-108 | every counted language is a key, every count is at least one and no key repeats |
| LegacyStats.Caught | github_stats.py:69-70 | only KeyError becomes "Invalid data structure"; any other fault escapes unchanged |
| LegacyStats.LegacyProcessContributionData | github_stats.py:44-70 | statistics exactly when the lookups succeed, the total is present, days exist and all carry counts; the highest count is a maximum that occurs; streaks as in the current version; "Invalid data structure" exactly when a lookup, the total or a count raises KeyError; ValueError escapes exactly for an empty calendar |
| LegacyStats.CountsOf | github_stats.py:82-88 | the count table has the same keys in the same order as the language table, with its counts |
| LegacyStats.KeysAgree | github_stats.py:88 | dropping the colours keeps every key at the same position |
| LegacyStats.CountsStep | github_stats.py:84-88 | one pass of the legacy loop body is one pass of the current one without colours |
| LegacyStats.LegacyProcessLanguageData | github_stats.py:72-93 | None exactly when a lookup raises; otherwise the current table's counts |
| LegacyStats.MockPayloadTags | test_github_stats.py:7-49 | the mock repositories count as Python, JavaScript, Python; the one with a null language is skipped |
| LegacyStats.MockPayloadCounts | test_github_stats.py:51-57 | the mock payload gives Python 2 and JavaScript 1, and nothing else |
| LegacyStats.NoRepositoriesGiveNoCounts | test_github_stats.py:59-71 | no repositories give an empty dictionary |
| LegacyStats.UserWithoutRepositoriesFails | test_github_stats.py:73-77 | a user without `repositories` gives None |
| Dashboard.DisplayTotal | app.py:88-90 | the shown total lies between public and public + private, and includes the private count exactly when the toggle is on (or it is zero) |
| Dashboard.InsertAddsOne | app.py:169 | inserting an entry adds exactly that entry |
| Dashboard.SortByCount | app.py:169 | the sorted list has the same length and non-increasing counts |
| Dashboard.SortIsPermutation | app.py:169 | the sorted list is a permutation of the table |
| Dashboard.SortIsStable | app.py:169 | languages with equal counts keep their original order |
| Dashboard.SortKeepsTotal | app.py:182 | sorting keeps the sum of the counts |
| Dashboard.Upsert | app.py:176 | `d[key] = v` stores the entry and leaves every other key's entry in place; a present key is replaced in place with the length unchanged, a missing one is appended at the end, and keys stay unique with `key` mapping only to `v` |
| Dashboard.TopLanguages | app.py:169-176 | at most seven entries; with six or fewer languages the sorted list itself; otherwise the six largest and an "Others" entry holding the rest |
| Dashboard.KeptOutnumberDropped | app.py:170-175 | every language shown by name has at least as many repositories as every language folded into "Others" |
| Dashboard.OthersAppended | app.py:174-176 | with no language named "Others", the entry is appended after the six kept languages |
| Dashboard.OthersKeepTotal | app.py:170-176 | with more than six languages and none named "Others", the six kept slices and "Others" hold every repository |
| Dashboard.TopLanguagesKeepTotal | app.py:169-182 | with no language named "Others", the chart's slices add up to the pie's total |
| Dashboard.PieTotalCountsRepositories | app.py:182 | the pie's total is the number of repositories with a primary language |
| Dashboard.AchievementListsAreLadders | app.py:223-240 | both achievement lists have positive thresholds that increase along the list |
| Dashboard.Progress | app.py:250 | progress lies in [0, 100], is 100 exactly when the threshold is reached, is positive exactly when the value is, and below the threshold is value / required × 100 |
| Dashboard.ProgressMonotone | app.py:250 | progress never goes down as the value grows |
| Dashboard.Badges | app.py:249-251 | one badge per achievement, with its title, unlocked exactly when the value reaches the threshold (equivalently when its progress is 100), with the progress of that value |
| Dashboard.UnlockedFormPrefix | app.py:249-269 | the unlocked achievements come first: unlocking one means every earlier one is unlocked |
| Dashboard.BadgesMonotone | app.py:267-269 | a larger value keeps every unlocked badge unlocked and every progress at least as high |
| Predictions.Read | pages/predictions.py:80-87 | `.get` on None raises AttributeError, on the error dictionary reads zeros, and on the insights reads their four figures |
| Predictions.Growth | pages/predictions.py:90-93 | zero when last year's rate is zero; otherwise positive exactly when the rate rose, zero exactly when unchanged and never below −100% |
| Predictions.Predict | pages/predictions.py:80-130 | for analyses as `analyze_contributions` produces them, the page raises exactly when a window had no data (AttributeError) or this year's analysis failed (ZeroDivisionError); otherwise the growth is `Growth` of this year's rate over last year's, the remaining days are 365 minus the days covered, future contributions are the rate times those days, future active days are the active share of the window times those days, and each year figure is its future figure plus what this year already has |
| Predictions.RateExtrapolates | pages/predictions.py:100-101 | extending d days at their own rate to a year scales the total by year / d |
| Predictions.YearTotalScales | pages/predictions.py:100-121 | the remaining days are 365 minus the days covered, and the predicted year total is this year's total scaled to 365 days |
| Predictions.YearActiveDaysScale | pages/predictions.py:100-129 | the predicted active days are the share of active days scaled to 365, so never more than 365 |
| Predictions.FutureSign | pages/predictions.py:122 | the "-" sign is shown exactly when there are no contributions yet or the window covers 365 days or more |
| Predictions.FutureActiveSign | pages/predictions.py:102-132 | the "-" sign and muted colour beside the predicted active days are shown exactly when no day was active yet or the window covers 365 days or more |
| Predictions.LeapYearEndUndershoots | pages/predictions.py:100-121 | with a 366-day window and any contribution, the predicted year total falls below the contributions already made |
| Predictions.MilestoneOf | pages/predictions.py:164-181 | a milestone is achieved exactly when the total reaches it, and a locked one shows progress in [0, 100), positive exactly when the total is, equal to `Dashboard.Progress` (total / milestone × 100) |
| Predictions.MilestoneBoard | pages/predictions.py:137-164 | raises exactly when there is no data, and then AttributeError; nothing shown when the total is zero, otherwise one entry per milestone |
| Predictions.MilestonesAchievedInOrder | pages/predictions.py:137-181 | entries follow the milestone list, each is achieved exactly when the total reaches it, locked ones show progress strictly between 0 and 100, and achieved ones come first |

## Left out

- The GraphQL fetch, the Streamlit session and caching, every chart, metric and
  layout call, and `load_css`. They are I/O and presentation.
- `datetime.now()` is a parameter of the functions that read the clock. The
  predictions page's two fetch windows enter as their analyses, the inputs
  `lastYear` and `current` of its functions.
- `pages/predictions.py:5` imports `predict_days_to_milestone` and
  `get_milestone_dates`, which `util.py` does not define. The days-to-milestone
  values, the milestone dates and the `weeks` lookup that feeds them (lines
  147-154, 166-169 and 183-190) are not part of this model. The page arithmetic is
  modelled as if the import succeeded.
- `Predictions.MilestoneBoard` is the milestone section on its own. On the page a
  failed current-year analysis raises ZeroDivisionError at line 102 first
  (`Predictions.Predict`).
- `round(contribution_rate, 2)` and every float format (`:.0f`, `:.1f`, `:.2f`).
  Rates, growth and predictions are exact reals.
- Predictions.FutureSign: holds for the exact rate only. With the rate rounded
  to two places, one contribution over 201 or more days gives a rate of 0.0, and
  the page shows "-" although contributions exist.
- Predictions.LeapYearEndUndershoots: holds for the exact rate only; a rounded
  rate can move the predicted total either way.
- Contributions.Coherent: `rate × days = total` holds for the exact rate only,
  not for the rate rounded to two places.
- The `isinstance` fix-ups at `process_github_data.py:25-28`, and counts or totals
  that are null, negative or non-numeric. Counts are natural numbers, and a key
  holding null where a number is expected is not represented. As a consequence,
  the TypeError branch of the streak loop at lines 50-52 is not reachable in the
  model. A day's `date` holding null is not represented either: `Json.RawDay`
  has only present or absent, so such a day is read as having no date (KeyError
  and the fallback) where the code at `process_github_data.py:55-56` would add
  None to the set of active dates and go on.
- The text of error messages and the `print` calls in the handlers. `{"errors":
  ...}` answers are modelled without their message.
- `process_user_data` beyond the account age (`github_days`, `formatted_date`,
  `joined_since`, `less_than_2_months_old`). Its pass-through fields (name, bio,
  follower counts and so on) are copies of the payload.
- `%b` is the English month abbreviation; other locales are not modelled.
  `strptime` is modelled for ASCII digits, four-digit years and whole seconds.
- Languages.EdgeTag: a language object whose `name` is null is treated like one
  whose name is absent. Both tallies would count such a repository under the key
  None.
- Dashboard.TopLanguagesKeepTotal: requires that no language is named "Others".
  A kept language with that name is overwritten by the "Others" entry, and the
  totals then differ.
- Dashboard.TopLanguages: the dictionary built at `app.py:170-176` is modelled as
  a sequence of entries in insertion order. Its ensures pin down the kept entries
  and the "Others" entry, not their exact positions when a kept language is named
  "Others".
- The achievement section reads `current_streak` for the streak list and
  `total_contributions` for the contribution list. Dashboard.Badges takes that
  value as a parameter and does not tie it to the statistics step.
