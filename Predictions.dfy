/** The predictions page: last year's and this year's insights compared
    (growth of the daily rate), this year extrapolated linearly to 365 days,
    and the contribution milestones with their progress. */
module Predictions {
  import opened Json
  import opened Contributions
  import opened Dashboard

  /** The figures the page reads from one window's insights with
      `stats.get(key, 0)`. */
  datatype Window = Window(totalContributions: nat, totalDays: nat, activeDays: nat, rate: real)

  /** `.get(key, 0)` on what `analyze_contributions` returned: every key is
      missing from the errors dictionary, and None has no `.get` at all. */
  function Read(a: Analysis): (r: Got<Window>)
    ensures r.Raised? <==> a.NoData?
    ensures r.Raised? ==> r.fault == AttributeError
    ensures a.Failed? ==> r == Ok(Window(0, 0, 0, 0.0))
    ensures a.Insights? ==>
      r == Ok(Window(a.totalContributions, a.totalDays, a.activeDays, a.contributionRate))
  {
    match a
    case NoData => Raised(AttributeError)
    case Failed => Ok(Window(0, 0, 0, 0.0))
    case Insights(total, days, active, rate) => Ok(Window(total, days, active, rate))
  }

  // ---------------------------------------------------------------------------
  // Growth of the contribution rate
  // ---------------------------------------------------------------------------

  /** Growth of this year's daily rate over last year's, in percent; zero
      when last year's rate is zero. */
  function Growth(rate: real, rateLastYear: real): (g: real)
    ensures rateLastYear == 0.0 ==> g == 0.0
    ensures rateLastYear > 0.0 ==> (g > 0.0 <==> rate > rateLastYear)
    ensures rateLastYear > 0.0 ==> (g == 0.0 <==> rate == rateLastYear)
    ensures rateLastYear > 0.0 && rate >= 0.0 ==> g >= -100.0
  {
    if rateLastYear == 0.0 then 0.0
    else (rate - rateLastYear) / rateLastYear * 100.0
  }

  // ---------------------------------------------------------------------------
  // Extrapolation to the end of the year
  // ---------------------------------------------------------------------------

  /** The year length the page uses. */
  const YearDays: int := 365

  datatype Forecast = Forecast(
    growth: real,
    remainingDays: int,
    futureContributions: real,
    yearContributions: real,
    futureActiveDays: real,
    yearActiveDays: real)

  /** The page's predictions from what `analyze_contributions` returned for
      last year and for this year: AttributeError when either fetch gave
      nothing, ZeroDivisionError when this year's analysis failed and so
      reports no days. */
  function Predict(lastYear: Analysis, current: Analysis): (r: Got<Forecast>)
    ensures Coherent(current) ==>
      (r.Raised? <==> lastYear.NoData? || current.NoData? || current.Failed?)
    ensures r.Raised? && (lastYear.NoData? || current.NoData?) ==> r.fault == AttributeError
    ensures r.Raised? && !lastYear.NoData? && current.Failed? ==> r.fault == ZeroDivisionError
    ensures r.Ok? ==> Read(lastYear).Ok? && Read(current).Ok? && Read(current).value.totalDays > 0
    ensures r.Ok? ==>
      var ly, cy := Read(lastYear).value, Read(current).value;
      && r.value.growth == Growth(cy.rate, ly.rate)
      && r.value.remainingDays == YearDays - cy.totalDays
      && r.value.futureContributions == cy.rate * r.value.remainingDays as real
      && r.value.yearContributions == r.value.futureContributions + cy.totalContributions as real
      && r.value.futureActiveDays * cy.totalDays as real == cy.activeDays as real * r.value.remainingDays as real
      && r.value.yearActiveDays == r.value.futureActiveDays + cy.activeDays as real
  {
    match Read(lastYear)
    case Raised(f) => Raised(f)
    case Ok(ly) =>
      match Read(current)
      case Raised(f) => Raised(f)
      case Ok(cy) =>
        if cy.totalDays == 0 then Raised(ZeroDivisionError)
        else
          var remaining := YearDays - cy.totalDays;
          var future := cy.rate * remaining as real;
          var futureActive := cy.activeDays as real / cy.totalDays as real * remaining as real;
          Ok(Forecast(Growth(cy.rate, ly.rate), remaining, future, future + cy.totalContributions as real,
                      futureActive, futureActive + cy.activeDays as real))
  }

  /** Both windows were analysed and this year's has insights, as
      `analyze_contributions` produces them. */
  predicate Forecastable(lastYear: Analysis, current: Analysis) {
    !lastYear.NoData? && current.Insights? && Coherent(current)
  }

  /** Extending a window of `d` days at its own daily rate by `rem` more days,
      up to `year` days, scales its total by `year / d`. */
  lemma RateExtrapolates(rate: real, total: real, d: real, year: real, rem: real)
    requires d > 0.0 && rate * d == total && rem == year - d
    ensures (rate * rem + total) * d == year * total
  {
    calc {
      (rate * rem + total) * d;
      rate * d * rem + total * d;
      total * (year - d) + total * d;
      year * total;
    }
  }

  /** The predicted year total is this year's daily rate times 365. */
  lemma YearTotalScales(lastYear: Analysis, current: Analysis)
    requires Forecastable(lastYear, current)
    ensures Predict(lastYear, current).Ok?
    ensures var f := Predict(lastYear, current).value;
      && f.remainingDays == YearDays - current.totalDays
      && f.yearContributions * current.totalDays as real == YearDays as real * current.totalContributions as real
  {
    var rem := (YearDays - current.totalDays) as real;
    RateExtrapolates(current.contributionRate, current.totalContributions as real,
                     current.totalDays as real, YearDays as real, rem);
  }

  /** A share of at most one, extended over the rest of the year, adds at
      most the days left. */
  lemma ShareBounded(a: real, d: real, year: real, rem: real)
    requires 0.0 <= a <= d && d > 0.0 && year >= 0.0 && rem == year - d
    ensures a / d * rem + a <= year
  {
    var share := a / d;
    assert share * d == a;
    assert share <= 1.0;
    calc {
      share * rem + a;
      share * year - share * d + a;
      share * year;
    }
    assert share * year <= year;
  }

  /** The predicted active days are this year's share of active days times
      365, so never more than 365. */
  lemma YearActiveDaysScale(lastYear: Analysis, current: Analysis)
    requires Forecastable(lastYear, current)
    ensures Predict(lastYear, current).Ok?
    ensures var f := Predict(lastYear, current).value;
      && f.yearActiveDays * current.totalDays as real == YearDays as real * current.activeDays as real
      && f.yearActiveDays <= YearDays as real
  {
    var d := current.totalDays as real;
    var a := current.activeDays as real;
    var rem := (YearDays - current.totalDays) as real;
    assert a / d * d == a;
    RateExtrapolates(a / d, a, d, YearDays as real, rem);
    ShareBounded(a, d, YearDays as real, rem);
  }

  /** A rate that gives a non-negative total over `d` days adds nothing over
      `rem` more days exactly when the total is zero or no days remain. */
  lemma ProductSign(rate: real, total: real, d: real, rem: real)
    requires d > 0.0 && rate * d == total && total >= 0.0
    ensures rate * rem <= 0.0 <==> total == 0.0 || rem <= 0.0
  {
    if total > 0.0 {
      assert rate > 0.0;
      if rem > 0.0 {
        assert rate * rem > 0.0;
      }
    } else {
      assert rate == 0.0;
    }
  }

  /** The sign shown beside the predicted contributions: the extrapolation
      adds nothing once the window covers 365 days or more, or when there
      are no contributions yet. */
  lemma FutureSign(lastYear: Analysis, current: Analysis)
    requires Forecastable(lastYear, current)
    ensures Predict(lastYear, current).Ok?
    ensures Predict(lastYear, current).value.futureContributions <= 0.0 <==>
      current.totalContributions == 0 || current.totalDays >= YearDays
  {
    var rem := (YearDays - current.totalDays) as real;
    ProductSign(current.contributionRate, current.totalContributions as real, current.totalDays as real, rem);
  }

  /** The sign shown beside the predicted active days: the extrapolation
      adds nothing once the window covers 365 days or more, or when no day
      of it was active. */
  lemma FutureActiveSign(lastYear: Analysis, current: Analysis)
    requires Forecastable(lastYear, current)
    ensures Predict(lastYear, current).Ok?
    ensures Predict(lastYear, current).value.futureActiveDays <= 0.0 <==>
      current.activeDays == 0 || current.totalDays >= YearDays
  {
    var d := current.totalDays as real;
    var a := current.activeDays as real;
    var rem := (YearDays - current.totalDays) as real;
    assert a / d * d == a;
    ProductSign(a / d, a, d, rem);
  }

  /** On the last day of a leap year the window has 366 days, one more than
      the page counts, so any contribution makes the predicted year total
      smaller than the contributions already made. */
  lemma LeapYearEndUndershoots(lastYear: Analysis, current: Analysis)
    requires Forecastable(lastYear, current)
    requires current.totalDays == 366 && current.totalContributions > 0
    ensures Predict(lastYear, current).Ok?
    ensures Predict(lastYear, current).value.yearContributions < current.totalContributions as real
  {
    YearTotalScales(lastYear, current);
  }

  // ---------------------------------------------------------------------------
  // Milestones
  // ---------------------------------------------------------------------------

  const Milestones: seq<nat> := [100, 500, 1000, 2000, 5000, 10000]

  datatype MilestoneStatus = Achieved(milestone: nat) | Locked(milestone: nat, progress: real)

  /** One milestone against this year's total. */
  function MilestoneOf(total: nat, milestone: nat): (r: MilestoneStatus)
    requires milestone > 0
    ensures r.milestone == milestone
    ensures r.Achieved? <==> total >= milestone
    ensures r.Locked? ==> 0.0 <= r.progress < 100.0
    ensures r.Locked? ==> (r.progress > 0.0 <==> total > 0)
    ensures r.Locked? ==> r.progress == Progress(total, milestone)
  {
    if total >= milestone then Achieved(milestone) else Locked(milestone, Progress(total, milestone))
  }

  /** The milestone section: nothing when this year has no contributions
      (the page stops there), otherwise every milestone in order. */
  function MilestoneBoard(current: Analysis): (r: Got<Option<seq<MilestoneStatus>>>)
    ensures r.Raised? <==> current.NoData?
    ensures r.Raised? ==> r.fault == AttributeError
    ensures r == Ok(None) <==> current.Failed? || (current.Insights? && current.totalContributions == 0)
    ensures r.Ok? && r.value.Some? ==> |r.value.value| == |Milestones|
  {
    match Read(current)
    case Raised(f) => Raised(f)
    case Ok(cy) =>
      if cy.totalContributions == 0 then Ok(None)
      else Ok(Some(seq(|Milestones|, i requires 0 <= i < |Milestones| => MilestoneOf(cy.totalContributions, Milestones[i]))))
  }

  /** A shown milestone is achieved exactly when this year's total reaches
      it, locked ones show progress strictly between 0 and 100, and the
      achieved ones come first. */
  lemma MilestonesAchievedInOrder(current: Analysis)
    requires MilestoneBoard(current).Ok? && MilestoneBoard(current).value.Some?
    ensures current.Insights?
    ensures var board := MilestoneBoard(current).value.value;
      && (forall i :: 0 <= i < |board| ==> board[i].milestone == Milestones[i])
      && (forall i :: 0 <= i < |board| ==> (board[i].Achieved? <==> current.totalContributions >= Milestones[i]))
      && (forall i :: 0 <= i < |board| && board[i].Locked? ==> 0.0 < board[i].progress < 100.0)
      && (forall i, j :: 0 <= i < j < |board| && board[j].Achieved? ==> board[i].Achieved?)
  {
    assert forall i, j :: 0 <= i < j < |Milestones| ==> Milestones[i] < Milestones[j];
  }
}
