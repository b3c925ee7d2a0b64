/** The contribution side of the analytics engine: the statistics the
    dashboard shows (totals, most productive day, streaks, active days), the
    insights the predictions page builds on (totals, days covered, active
    days, contributions per day), and the age of the account in days. */
module Contributions {
  import opened Json
  import opened Dates
  import opened DateFormat
  import opened Durations
  import opened Streaks

  // ---------------------------------------------------------------------------
  // Days of the calendar
  // ---------------------------------------------------------------------------

  /** `[day for week in calendar['weeks'] for day in week['contributionDays']]`. */
  function CalendarDays(cal: Calendar): (r: Got<seq<RawDay>>)
    ensures r.Ok? <==> cal.weeks.Present? && AllWeeksPresent(cal.weeks.value)
    ensures r.Raised? ==> r.fault == KeyError || r.fault == TypeError
  {
    match Subscript(cal.weeks)
    case Raised(f) => Raised(f)
    case Ok(weeks) => FlattenWeeks(weeks)
  }

  /** The days of the calendar reached through `data['data']['user']
      ['contributionsCollection']['contributionCalendar']`. */
  function DaysOf(p: Payload): (r: Got<seq<RawDay>>)
    ensures r.Raised? ==> r.fault == KeyError || r.fault == TypeError
  {
    match CalendarOf(p)
    case Raised(f) => Raised(f)
    case Ok(cal) => CalendarDays(cal)
  }

  /** `day.get('contributionCount', 0)` for every day, in calendar order. */
  function Counts(days: seq<RawDay>): seq<nat> {
    seq(|days|, i requires 0 <= i < |days| => days[i].contributionCount.GetOr(0))
  }

  /** Every day carries its `contributionCount`, so `day['contributionCount']` never raises. */
  predicate AllCounted(days: seq<RawDay>) {
    forall i :: 0 <= i < |days| ==> days[i].contributionCount.Some?
  }

  function Sum(s: seq<nat>): nat {
    if s == [] then 0 else Sum(s[..|s| - 1]) + s[|s| - 1]
  }

  /** Number of days with at least one contribution. */
  function Positives(s: seq<nat>): (n: nat)
    ensures n <= |s|
  {
    if s == [] then 0 else Positives(s[..|s| - 1]) + (if s[|s| - 1] > 0 then 1 else 0)
  }

  /** A day with contributions adds at least one to the sum, so the number
      of active days never exceeds the number of contributions, and both are
      zero together. */
  lemma {:induction false} PositivesAtMostSum(s: seq<nat>)
    ensures Positives(s) <= Sum(s)
    ensures Positives(s) == 0 <==> Sum(s) == 0
    ensures Positives(s) == 0 <==> forall k :: 0 <= k < |s| ==> s[k] == 0
  {
    if s != [] {
      var p := s[..|s| - 1];
      PositivesAtMostSum(p);
      assert forall k :: 0 <= k < |p| ==> p[k] == s[k];
    }
  }

  // ---------------------------------------------------------------------------
  // The most productive day
  // ---------------------------------------------------------------------------

  /** The index `max(..., key=...)` picks: the first of the largest counts. */
  function FirstMaxIndex(s: seq<nat>): (i: nat)
    requires |s| > 0
    ensures i < |s|
    ensures forall j :: 0 <= j < |s| ==> s[j] <= s[i]
    ensures forall j :: 0 <= j < i ==> s[j] < s[i]
  {
    if |s| == 1 then 0
    else
      var i := FirstMaxIndex(s[..|s| - 1]);
      if s[|s| - 1] > s[i] then |s| - 1 else i
  }

  /** The highest count and its displayed date. An empty calendar (ValueError
      from `max`), a day without a count or a top day without a date
      (KeyError) and a date `strptime` rejects (ValueError) all give
      `(0, None)`. */
  function Peak(days: seq<RawDay>): (r: (nat, Option<string>))
    ensures r.1.None? ==> r.0 == 0
    ensures r.1.Some? <==>
      && days != [] && AllCounted(days)
      && days[FirstMaxIndex(Counts(days))].date.Some?
      && FormatDateDdMmYyyy(days[FirstMaxIndex(Counts(days))].date.value).Some?
    ensures r.1.Some? ==> r.0 == Counts(days)[FirstMaxIndex(Counts(days))]
    ensures r.1.Some? ==> forall j :: 0 <= j < |days| ==> Counts(days)[j] <= r.0
    ensures r.1.Some? ==>
      exists j :: (0 <= j < |days| && Counts(days)[j] == r.0
                   && (forall k :: 0 <= k < j ==> Counts(days)[k] < r.0)
                   && days[j].date.Some? && FormatDateDdMmYyyy(days[j].date.value) == r.1)
  {
    if days == [] || !AllCounted(days) then (0, None)
    else
      var i := FirstMaxIndex(Counts(days));
      var top := days[i];
      if top.date.None? then (0, None)
      else
        match FormatDateDdMmYyyy(top.date.value)
        case None => (0, None)
        case Some(text) => (top.contributionCount.value, Some(text))
  }

  // ---------------------------------------------------------------------------
  // Active days
  // ---------------------------------------------------------------------------

  /** `day["contributionCount"]` is read for every day and `day["date"]` for
      every day with contributions; neither raises. */
  predicate DatesReadable(days: seq<RawDay>) {
    forall i :: 0 <= i < |days| ==>
      days[i].contributionCount.Some? && (days[i].contributionCount.value > 0 ==> days[i].date.Some?)
  }

  /** `[day["date"] for ... if day["contributionCount"] > 0]`: the dates of the
      days with contributions, in calendar order; KeyError when a day has no
      count or a day with contributions has no date. */
  function ActiveDates(days: seq<RawDay>): (r: Got<seq<string>>)
    ensures r.Ok? <==> DatesReadable(days)
    ensures r.Raised? ==> r.fault == KeyError
    ensures r.Ok? ==> |r.value| == Positives(Counts(days))
  {
    if days == [] then Ok([])
    else
      var p := days[..|days| - 1];
      var d := days[|days| - 1];
      assert Counts(days)[..|p|] == Counts(p);
      assert forall i :: 0 <= i < |p| ==> days[i] == p[i];
      match ActiveDates(p)
      case Raised(f) => Raised(f)
      case Ok(prefix) =>
        if d.contributionCount.None? then Raised(KeyError)
        else if d.contributionCount.value == 0 then Ok(prefix)
        else if d.date.None? then Raised(KeyError)
        else Ok(prefix + [d.date.value])
  }

  /** A date is listed exactly when some day with contributions carries it. */
  lemma {:induction false} ActiveDatesAreActiveDays(days: seq<RawDay>)
    requires DatesReadable(days)
    ensures forall x :: x in ActiveDates(days).value <==>
      exists i :: 0 <= i < |days| && Counts(days)[i] > 0 && days[i].date == Some(x)
  {
    if days != [] {
      var p := days[..|days| - 1];
      var d := days[|days| - 1];
      assert forall i :: 0 <= i < |p| ==> days[i] == p[i];
      assert Counts(days)[..|p|] == Counts(p);
      ActiveDatesAreActiveDays(p);
    }
  }

  function ToSet(s: seq<string>): set<string> {
    set x | x in s
  }

  predicate NoDuplicates(s: seq<string>) {
    forall i, j :: 0 <= i < j < |s| ==> s[i] != s[j]
  }

  /** `len(set(dates))`: at most the number of dates, equal to it when no
      date repeats, and zero only for no dates. */
  lemma {:induction false} DistinctDates(s: seq<string>)
    ensures |ToSet(s)| <= |s|
    ensures |ToSet(s)| == 0 <==> s == []
    ensures NoDuplicates(s) ==> |ToSet(s)| == |s|
  {
    if s != [] {
      var p := s[..|s| - 1];
      var x := s[|s| - 1];
      DistinctDates(p);
      assert s == p + [x];
      assert ToSet(s) == ToSet(p) + {x};
      assert x in ToSet(s);
      if NoDuplicates(s) {
        assert x !in ToSet(p);
      }
    }
  }

  // ---------------------------------------------------------------------------
  // process_contribution_data
  // ---------------------------------------------------------------------------

  /** The dictionary the statistics step returns. The error fallback has no
      `highest_contribution_date` and no `active_days` key: `Absent` and
      `None` there; a most productive day without a date is `Null`. */
  datatype ContributionStats = ContributionStats(
    totalContributions: nat,
    publicContributions: nat,
    privateContributions: nat,
    highestContribution: nat,
    highestContributionDate: Field<string>,
    currentStreak: nat,
    longestStreak: nat,
    activeDays: Option<nat>,
    days: seq<RawDay>)

  /** What is returned when KeyError or TypeError reaches the outer handler. */
  const Fallback := ContributionStats(0, 0, 0, 0, Absent, 0, 0, None, [])

  /** The payload gets past every step that can reach the outer handler. */
  predicate Usable(p: Payload) {
    DaysOf(p).Ok? && ActiveDates(DaysOf(p).value).Ok?
  }

  /** There are at most as many distinct active dates as days, and none
      exactly when there is no streak. */
  lemma ActiveDaysAgree(days: seq<RawDay>)
    requires DatesReadable(days)
    ensures |ToSet(ActiveDates(days).value)| <= |days|
    ensures |ToSet(ActiveDates(days).value)| == 0 <==> LongestRun(Counts(days)) == 0
  {
    var counts := Counts(days);
    DistinctDates(ActiveDates(days).value);
    PositivesAtMostSum(counts);
    NoStreakIffNoContribution(counts);
  }

  /** A most productive day with contributions is a streak of its own. */
  lemma PeakIsStreak(days: seq<RawDay>)
    ensures Peak(days).0 > 0 ==> LongestRun(Counts(days)) >= 1
  {
    var counts := Counts(days);
    var peak := Peak(days);
    if peak.0 > 0 {
      assert peak.1.Some?;
      var j :| 0 <= j < |days| && counts[j] == peak.0;
      assert PositiveRun(counts, j, j + 1);
      LongestRunIsLongest(counts, j, j + 1);
    }
  }

  /** The figures the statistics step reads off the same days agree: there
      are at most as many active dates as days, none exactly when there is no
      streak, and a most productive day with contributions is a streak. */
  lemma StatsAgree(days: seq<RawDay>)
    requires DatesReadable(days)
    ensures |ToSet(ActiveDates(days).value)| <= |days|
    ensures |ToSet(ActiveDates(days).value)| == 0 <==> LongestRun(Counts(days)) == 0
    ensures Peak(days).0 > 0 ==> LongestRun(Counts(days)) >= 1
  {
    ActiveDaysAgree(days);
    PeakIsStreak(days);
  }

  /** `process_contribution_data`. */
  method ProcessContributionData(p: Payload) returns (r: ContributionStats)
    ensures r == Fallback <==> !Usable(p)
    ensures Usable(p) ==>
      var coll := CollectionOf(p).value;
      var days := DaysOf(p).value;
      && r.days == days
      && r.publicContributions == CalendarOf(p).value.totalContributions.GetOr(0)
      && r.privateContributions == coll.restrictedContributionsCount.GetOr(0)
      && r.highestContribution == Peak(days).0
      && r.highestContributionDate == (if Peak(days).1.Some? then Present(Peak(days).1.value) else Null)
      && r.currentStreak == TrailingRun(Counts(days))
      && r.longestStreak == LongestRun(Counts(days))
      && r.activeDays == Some(|ToSet(ActiveDates(days).value)|)
    ensures r.totalContributions == r.publicContributions + r.privateContributions
    ensures r.currentStreak <= r.longestStreak <= |r.days|
    ensures r.activeDays.Some? ==> r.activeDays.value <= |r.days|
    ensures r.activeDays.Some? ==> (r.activeDays.value == 0 <==> r.longestStreak == 0)
    ensures r.highestContributionDate.Present? ==>
      forall j :: 0 <= j < |r.days| ==> Counts(r.days)[j] <= r.highestContribution
    ensures r.highestContribution > 0 ==> r.longestStreak >= 1
  {
    var found := DaysOf(p);
    if found.Raised? {
      return Fallback;
    }
    var days := found.value;
    var public := CalendarOf(p).value.totalContributions.GetOr(0);
    var private := CollectionOf(p).value.restrictedContributionsCount.GetOr(0);
    var peak := Peak(days);
    var current, longest := ComputeStreaks(Counts(days));
    var dates := ActiveDates(days);
    if dates.Raised? {
      return Fallback;
    }
    StatsAgree(days);
    r := ContributionStats(public + private, public, private, peak.0,
                           if peak.1.Some? then Present(peak.1.value) else Null,
                           current, longest, Some(|ToSet(dates.value)|), days);
  }

  // ---------------------------------------------------------------------------
  // analyze_contributions
  // ---------------------------------------------------------------------------

  /** What `analyze_contributions` returns: None, the `{"errors": ...}`
      dictionary (its message is not modelled), or the insights. */
  datatype Analysis =
    | NoData
    | Failed
    | Insights(totalContributions: nat, totalDays: nat, activeDays: nat, contributionRate: real)

  /** Insights cover at least one day, the rate is contributions per day,
      and there are no more active days than days or contributions, none
      exactly when there are no contributions. */
  predicate Coherent(a: Analysis) {
    a.Insights? ==>
      && a.totalDays > 0
      && a.contributionRate * a.totalDays as real == a.totalContributions as real
      && a.activeDays <= a.totalDays && a.activeDays <= a.totalContributions
      && (a.activeDays == 0 <==> a.totalContributions == 0)
  }

  /** `analyze_contributions`; the contribution rate is kept exact. */
  function AnalyzeContributions(data: Option<Payload>): (r: Analysis)
    ensures r.NoData? <==> data.None? || data.value.IsEmpty()
    ensures r.Insights? <==>
      && !(data.None? || data.value.IsEmpty())
      && DaysOf(data.value).Ok? && AllCounted(DaysOf(data.value).value) && DaysOf(data.value).value != []
    ensures r.Insights? ==>
      var counts := Counts(DaysOf(data.value).value);
      && r.totalContributions == Sum(counts)
      && r.totalDays == |counts|
      && r.activeDays == Positives(counts)
      && r.contributionRate * |counts| as real == Sum(counts) as real
    ensures Coherent(r)
  {
    if data.None? || data.value.IsEmpty() then NoData
    else
      match DaysOf(data.value)
      case Raised(_) => Failed
      case Ok(days) =>
        if !AllCounted(days) || days == [] then Failed
        else InsightsOf(days)
  }

  /** The insights of a non-empty calendar: the sum of the counts, the
      number of days, the days with contributions and their ratio. */
  function InsightsOf(days: seq<RawDay>): (r: Analysis)
    requires days != []
    ensures r.Insights? && Coherent(r)
    ensures r.totalContributions == Sum(Counts(days)) && r.totalDays == |days|
    ensures r.activeDays == Positives(Counts(days))
    ensures r.contributionRate * |days| as real == Sum(Counts(days)) as real
  {
    var counts := Counts(days);
    PositivesAtMostSum(counts);
    Insights(Sum(counts), |days|, Positives(counts), Sum(counts) as real / |days| as real)
  }

  /** The insights and the dashboard statistics read the same days: the
      insights cover every day of the calendar, and count a day with
      contributions once per record where the dashboard counts distinct
      dates, so the dashboard's active days never exceed the insights'. */
  lemma AnalysisAgreesWithStats(p: Payload)
    requires Usable(p) && DaysOf(p).value != []
    ensures var days := DaysOf(p).value;
      var a := AnalyzeContributions(Some(p));
      && a.Insights?
      && a.totalDays == |days|
      && a.totalContributions == Sum(Counts(days))
      && a.activeDays == |ActiveDates(days).value|
      && |ToSet(ActiveDates(days).value)| <= a.activeDays
      && (NoDuplicates(ActiveDates(days).value) ==> |ToSet(ActiveDates(days).value)| == a.activeDays)
  {
    var days := DaysOf(p).value;
    DistinctDates(ActiveDates(days).value);
  }

  // ---------------------------------------------------------------------------
  // Days on GitHub
  // ---------------------------------------------------------------------------

  /** `(datetime.now() - datetime.strptime(created_at, ...)).days`, with the
      clock reading passed in; None where `strptime` raises. The account age
      text shown beside it is the duration text of the same number. */
  function GithubDays(createdAt: string, now: Timestamp): (r: Option<int>)
    requires ValidTimestamp(now)
    ensures r.Some? <==> ParseIso(createdAt).Some?
    ensures r.Some? ==> r.value == ElapsedDays(ParseIso(createdAt).value, now)
    ensures r.Some? ==> FormatDuration(createdAt, now) == Some(DurationText(r.value))
  {
    match ParseIso(createdAt)
    case None => None
    case Some(created) => Some(ElapsedDays(created, now))
  }
}
