/** The dashboard's display format for dates, "<day><suffix> <Mon>, <year>",
    used by `format_date_ddmmyyyy` and `format_iso_date`, and a reader that
    takes a displayed date back to the day it shows. */
module DateFormat {
  import opened Json
  import opened Numerals
  import opened Dates

  /** `%b` in the English locale. */
  const MonthAbbreviations: seq<string> :=
    ["Jan", "Feb", "Mar", "Apr", "May", "Jun", "Jul", "Aug", "Sep", "Oct", "Nov", "Dec"]

  /** The suffix the source appends to the day: "st" for 1, 21 and 31, "nd"
      for 2, "rd" for 3 and "th" for every other day. */
  function DaySuffix(day: int): (s: string)
    ensures |s| == 2 && !IsDigit(s[0])
  {
    if day == 1 || day == 21 || day == 31 then "st"
    else if day == 2 then "nd"
    else if day == 3 then "rd"
    else "th"
  }

  /** The English ordinal suffix, as an independent reference. */
  function EnglishOrdinalSuffix(day: nat): string {
    if 11 <= day % 100 <= 13 then "th"
    else if day % 10 == 1 then "st"
    else if day % 10 == 2 then "nd"
    else if day % 10 == 3 then "rd"
    else "th"
  }

  /** The source's suffix is the English ordinal one on every day of a month
      except the 22nd and the 23rd, which it writes "22th" and "23th". */
  lemma DaySuffixDiffersOnlyOn22And23(day: int)
    requires 1 <= day <= 31
    ensures DaySuffix(day) == EnglishOrdinalSuffix(day) <==> day != 22 && day != 23
    ensures DaySuffix(22) == "th" && DaySuffix(23) == "th"
  {
  }

  /** `date_obj.strftime("{day} %b, %Y")` with "{day}" replaced by the day
      without leading zero and its suffix. */
  function FormatDate(d: Date): (s: string)
    requires ValidDate(d)
  {
    NatToString(d.day) + DaySuffix(d.day) + " " + MonthAbbreviations[d.month - 1] + ", " + NatToString(d.year)
  }

  /** `format_date_ddmmyyyy`: None where the parse raises ValueError. */
  function FormatDateDdMmYyyy(s: string): (r: Option<string>)
    ensures r.Some? <==> ParseDate(s).Some?
    ensures r.Some? ==> r.value == FormatDate(ParseDate(s).value)
  {
    match ParseDate(s)
    case None => None
    case Some(d) => Some(FormatDate(d))
  }

  /** `format_iso_date`: the same display, from a full timestamp. */
  function FormatIsoDate(s: string): (r: Option<string>)
    ensures r.Some? <==> ParseIso(s).Some?
    ensures r.Some? ==> r.value == FormatDate(ParseIso(s).value.date)
  {
    match ParseIso(s)
    case None => None
    case Some(t) => Some(FormatDate(t.date))
  }

  /** The time of day never affects the displayed date: formatting
      `date + "T" + time` gives what formatting `date` alone gives. */
  lemma FormatIsoDateIgnoresTime(date: string, time: string)
    requires forall k :: 0 <= k < |date| ==> date[k] != 'T' && date[k] != 't'
    requires ParseTime(time).Some?
    ensures FormatIsoDate(date + "T" + time) == FormatDateDdMmYyyy(date)
  {
    var s := date + "T" + time;
    var t := IndexOfAny(s, {'T', 't'});
    assert s[|date|] == 'T';
    assert t == |date|;
    assert s[..t] == date;
    assert s[t + 1..] == time;
  }

  /** Month number of a three-letter abbreviation, 0 for anything else. */
  function MonthNumber(abbr: string): (m: int)
    ensures 0 <= m <= 12
    ensures m > 0 ==> MonthAbbreviations[m - 1] == abbr
  {
    if abbr == "Jan" then 1 else if abbr == "Feb" then 2 else if abbr == "Mar" then 3
    else if abbr == "Apr" then 4 else if abbr == "May" then 5 else if abbr == "Jun" then 6
    else if abbr == "Jul" then 7 else if abbr == "Aug" then 8 else if abbr == "Sep" then 9
    else if abbr == "Oct" then 10 else if abbr == "Nov" then 11 else if abbr == "Dec" then 12
    else 0
  }

  lemma MonthNumberOfAbbreviation(m: int)
    requires 1 <= m <= 12
    ensures |MonthAbbreviations[m - 1]| == 3
    ensures MonthNumber(MonthAbbreviations[m - 1]) == m
  {
    if m == 1 {} else if m == 2 {} else if m == 3 {} else if m == 4 {} else if m == 5 {} else if m == 6 {}
    else if m == 7 {} else if m == 8 {} else if m == 9 {} else if m == 10 {} else if m == 11 {} else {}
  }

  /** Reads " <Mon>, <year>" into a month number and a year. */
  function ReadMonthYear(rest: string): Option<(int, int)> {
    if |rest| < 7 then None
    else
      var m := MonthNumber(rest[1..4]);
      var yearText := rest[6..];
      if rest[0] != ' ' || rest[4..6] != ", " || m == 0 || !AllDigits(yearText) then None
      else Some((m, DigitsValue(yearText)))
  }

  /** Reads a displayed date back (the partner of FormatDate): the day's
      digits, two suffix letters, then the month and the year. */
  function ReadFormattedDate(s: string): Option<Date> {
    var k := DigitRun(s);
    if k == 0 || |s| < k + 2 then None
    else
      match ReadMonthYear(s[k + 2..])
      case None => None
      case Some((m, y)) => Some(Date(y, m, DigitsValue(s[..k])))
  }

  lemma ReadMonthYearOfText(abbr: string, year: nat)
    requires |abbr| == 3 && MonthNumber(abbr) > 0
    ensures ReadMonthYear(" " + abbr + ", " + NatToString(year)) == Some((MonthNumber(abbr), year))
  {
    var yearText := NatToString(year);
    var rest := " " + abbr + ", " + yearText;
    assert rest[1..4] == abbr;
    assert rest[4..6] == ", ";
    assert rest[6..] == yearText;
  }

  /** The day's digits are read back, and after them and the suffix comes
      the month and year part. */
  lemma ReadDayDigits(day: nat, suffix: string, rest: string)
    requires |suffix| == 2 && !IsDigit(suffix[0])
    ensures var s := NatToString(day) + suffix + rest;
      DigitRun(s) == |NatToString(day)| && DigitsValue(s[..|NatToString(day)|]) == day
      && s[|NatToString(day)| + 2..] == rest
  {
    assert NatToString(day) + suffix + rest == NatToString(day) + (suffix + rest);
    NatToStringReadsBack(day, suffix + rest);
  }

  lemma ReadDisplayParts(day: nat, suffix: string, abbr: string, year: nat)
    requires |suffix| == 2 && !IsDigit(suffix[0])
    requires |abbr| == 3 && MonthNumber(abbr) > 0
    ensures ReadFormattedDate(NatToString(day) + suffix + " " + abbr + ", " + NatToString(year))
         == Some(Date(year, MonthNumber(abbr), day))
  {
    var rest := " " + abbr + ", " + NatToString(year);
    assert NatToString(day) + suffix + " " + abbr + ", " + NatToString(year) == NatToString(day) + suffix + rest;
    ReadDayDigits(day, suffix, rest);
    ReadMonthYearOfText(abbr, year);
  }

  lemma FormatDateReadsBack(d: Date)
    requires ValidDate(d)
    ensures ReadFormattedDate(FormatDate(d)) == Some(d)
  {
    MonthNumberOfAbbreviation(d.month);
    ReadDisplayParts(d.day, DaySuffix(d.day), MonthAbbreviations[d.month - 1], d.year);
  }

  /** Two different days never look the same on screen. */
  lemma FormatDateInjective(d1: Date, d2: Date)
    requires ValidDate(d1) && ValidDate(d2)
    requires FormatDate(d1) == FormatDate(d2)
    ensures d1 == d2
  {
    FormatDateReadsBack(d1);
    FormatDateReadsBack(d2);
  }
}
