/** Calendar dates and instants as `datetime.strptime` reads them from
    "%Y-%m-%d" and "%Y-%m-%dT%H:%M:%SZ", proleptic Gregorian day numbers, and
    the "less than two calendar months old" test. The clock is never read:
    `now` is always a parameter. */
module Dates {
  import opened Json
  import opened Numerals

  datatype Date = Date(year: int, month: int, day: int)
  datatype Timestamp = Timestamp(date: Date, hour: int, minute: int, second: int)

  predicate IsLeapYear(y: int) {
    y % 4 == 0 && (y % 100 != 0 || y % 400 == 0)
  }

  function DaysInMonth(y: int, m: int): (n: int)
    requires 1 <= m <= 12
    ensures 28 <= n <= 31
  {
    if m == 2 then (if IsLeapYear(y) then 29 else 28)
    else if m == 4 || m == 6 || m == 9 || m == 11 then 30
    else 31
  }

  /** The dates `datetime` can represent: years 1 to 9999, real calendar days. */
  predicate ValidDate(d: Date) {
    1 <= d.year <= 9999 && 1 <= d.month <= 12 && 1 <= d.day <= DaysInMonth(d.year, d.month)
  }

  predicate ValidTimestamp(t: Timestamp) {
    ValidDate(t.date) && 0 <= t.hour < 24 && 0 <= t.minute < 60 && 0 <= t.second < 60
  }

  // ---------------------------------------------------------------------------
  // Parsing: datetime.strptime with "%Y-%m-%d" and "%Y-%m-%dT%H:%M:%SZ"
  // ---------------------------------------------------------------------------

  /** Position of the first character of `s` that is in `cs`, or `|s|`. */
  function IndexOfAny(s: string, cs: set<char>): (k: nat)
    ensures k <= |s|
    ensures k < |s| ==> s[k] in cs
    ensures forall j :: 0 <= j < k ==> s[j] !in cs
  {
    if s == [] || s[0] in cs then 0 else 1 + IndexOfAny(s[1..], cs)
  }

  /** A numeric field that stands before a non-digit separator (or at the end):
      strptime's patterns for %m, %H, %M and %S accept one or two ASCII
      digits, and the value must lie in [lo, hi]. */
  function NumberField(tok: string, lo: int, hi: int): (r: Option<int>)
    ensures r.Some? ==> lo <= r.value <= hi
    ensures r.Some? <==> 1 <= |tok| <= 2 && AllDigits(tok) && lo <= DigitsValue(tok) <= hi
  {
    if 1 <= |tok| <= 2 && AllDigits(tok) && lo <= DigitsValue(tok) <= hi then Some(DigitsValue(tok)) else None
  }

  /** `%d`: a number 1..31 of one or two digits, or a space and a digit 1..9. */
  function DayField(tok: string): (r: Option<int>)
    ensures r.Some? ==> 1 <= r.value <= 31
  {
    if |tok| == 2 && tok[0] == ' ' && '1' <= tok[1] <= '9' then Some(DigitValue(tok[1]))
    else NumberField(tok, 1, 31)
  }

  /** `datetime.strptime(s, '%Y-%m-%d')`; None where Python raises ValueError
      (a malformed string, or a day the calendar does not have). */
  function ParseDate(s: string): (r: Option<Date>)
    ensures r.Some? ==> ValidDate(r.value)
  {
    if |s| < 5 || !AllDigits(s[..4]) || s[4] != '-' then None
    else
      var rest := s[5..];
      var k := IndexOfAny(rest, {'-'});
      if k == |rest| then None
      else
        var month := NumberField(rest[..k], 1, 12);
        var day := DayField(rest[k + 1..]);
        if month.None? || day.None? then None
        else
          var d := Date(DigitsValue(s[..4]), month.value, day.value);
          if ValidDate(d) then Some(d) else None
  }

  /** The time part `%H:%M:%SZ` (the literal letter matches in either case). */
  function ParseTime(s: string): (r: Option<(int, int, int)>)
    ensures r.Some? ==> 0 <= r.value.0 < 24 && 0 <= r.value.1 < 60 && 0 <= r.value.2 < 60
  {
    var i := IndexOfAny(s, {':'});
    if i == |s| then None
    else
      var rest := s[i + 1..];
      var j := IndexOfAny(rest, {':'});
      if j == |rest| then None
      else
        var tail := rest[j + 1..];
        if |tail| < 1 || (tail[|tail| - 1] != 'Z' && tail[|tail| - 1] != 'z') then None
        else
          var h := NumberField(s[..i], 0, 23);
          var m := NumberField(rest[..j], 0, 59);
          var sec := NumberField(tail[..|tail| - 1], 0, 59);
          if h.None? || m.None? || sec.None? then None
          else Some((h.value, m.value, sec.value))
  }

  /** `datetime.strptime(s, '%Y-%m-%dT%H:%M:%SZ')`. */
  function ParseIso(s: string): (r: Option<Timestamp>)
    ensures r.Some? ==> ValidTimestamp(r.value)
  {
    var t := IndexOfAny(s, {'T', 't'});
    if t == |s| then None
    else
      var date := ParseDate(s[..t]);
      var time := ParseTime(s[t + 1..]);
      if date.None? || time.None? then None
      else Some(Timestamp(date.value, time.value.0, time.value.1, time.value.2))
  }

  lemma IndexOfAnyIs(s: string, cs: set<char>, k: nat)
    requires k < |s| && s[k] in cs
    requires forall j :: 0 <= j < k ==> s[j] !in cs
    ensures IndexOfAny(s, cs) == k
  {
  }

  /** Three numbers written as `%Y-%m-%d` writes them: four, two and two
      digits, zero-padded. */
  function DateText(y: nat, m: nat, d: nat): (s: string)
    requires y < 10000 && m < 100 && d < 100
    ensures |s| == 10
  {
    FixedDigits(y, 4) + "-" + FixedDigits(m, 2) + "-" + FixedDigits(d, 2)
  }

  /** `d.strftime('%Y-%m-%d')`, the form in which dates travel in the payload. */
  function IsoDate(d: Date): (s: string)
    requires ValidDate(d)
  {
    DateText(d.year, d.month, d.day)
  }

  /** The parse accepts exactly the real calendar days: a text in the
      payload's form is read as its date when that date exists, and rejected
      otherwise (month 13, 30 February, 29 February of a common year, day 0). */
  lemma ParseDateAcceptsExactlyCalendarDays(y: nat, m: nat, d: nat)
    requires y < 10000 && m < 100 && d < 100
    ensures ParseDate(DateText(y, m, d)) == if ValidDate(Date(y, m, d)) then Some(Date(y, m, d)) else None
  {
    var s := DateText(y, m, d);
    var yt, mt, dt := FixedDigits(y, 4), FixedDigits(m, 2), FixedDigits(d, 2);
    assert s == yt + "-" + mt + "-" + dt;
    assert s[..4] == yt;
    var rest := s[5..];
    assert rest == mt + "-" + dt;
    IndexOfAnyIs(rest, {'-'}, 2);
    assert rest[..2] == mt;
    assert rest[3..] == dt;
    assert dt[0] != ' ';
  }

  /** Writing a date in the payload's form and parsing it back gives the same day. */
  lemma IsoDateRoundTrip(d: Date)
    requires ValidDate(d)
    ensures ParseDate(IsoDate(d)) == Some(d)
  {
    ParseDateAcceptsExactlyCalendarDays(d.year, d.month, d.day);
  }

  /** Three numbers written as `%H:%M:%SZ` writes them: two digits each,
      zero-padded, and the letter Z. */
  function TimeText(h: nat, m: nat, sec: nat): (s: string)
    requires h < 100 && m < 100 && sec < 100
    ensures |s| == 9
  {
    FixedDigits(h, 2) + ":" + FixedDigits(m, 2) + ":" + FixedDigits(sec, 2) + "Z"
  }

  /** The time part is read back exactly when it is a time of day. */
  lemma ParseTimeAcceptsExactlyTimesOfDay(h: nat, m: nat, sec: nat)
    requires h < 100 && m < 100 && sec < 100
    ensures ParseTime(TimeText(h, m, sec)) == if h < 24 && m < 60 && sec < 60 then Some((h, m, sec)) else None
  {
    var s := TimeText(h, m, sec);
    var ht, mt, st := FixedDigits(h, 2), FixedDigits(m, 2), FixedDigits(sec, 2);
    assert s == ht + ":" + mt + ":" + st + "Z";
    assert s[..2] == ht;
    IndexOfAnyIs(s, {':'}, 2);
    var rest := s[3..];
    assert rest == mt + ":" + st + "Z";
    assert rest[..2] == mt;
    IndexOfAnyIs(rest, {':'}, 2);
    var tail := rest[3..];
    assert tail == st + "Z";
    assert tail[..|tail| - 1] == st;
  }

  /** `t.strftime('%Y-%m-%dT%H:%M:%SZ')`, the form of `createdAt` in the payload. */
  function IsoTimestamp(t: Timestamp): (s: string)
    requires ValidTimestamp(t)
    ensures |s| == 20
  {
    IsoDate(t.date) + "T" + TimeText(t.hour, t.minute, t.second)
  }

  /** Writing an instant in the payload's form and parsing it back gives the
      same instant. */
  lemma IsoTimestampRoundTrip(t: Timestamp)
    requires ValidTimestamp(t)
    ensures ParseIso(IsoTimestamp(t)) == Some(t)
  {
    var d := t.date;
    var dt, tt := IsoDate(d), TimeText(t.hour, t.minute, t.second);
    var s := IsoTimestamp(t);
    assert s == dt + "T" + tt;
    var yt, mt, ddt := FixedDigits(d.year, 4), FixedDigits(d.month, 2), FixedDigits(d.day, 2);
    assert dt == yt + "-" + mt + "-" + ddt;
    assert forall j :: 0 <= j < |dt| ==> IsDigit(dt[j]) || dt[j] == '-';
    IndexOfAnyIs(s, {'T', 't'}, 10);
    assert s[..10] == dt;
    assert s[11..] == tt;
    IsoDateRoundTrip(d);
    ParseTimeAcceptsExactlyTimesOfDay(t.hour, t.minute, t.second);
  }

  // ---------------------------------------------------------------------------
  // Day numbers and elapsed days
  // ---------------------------------------------------------------------------

  function DaysBeforeYear(y: int): int {
    var p := y - 1;
    365 * p + p / 4 - p / 100 + p / 400
  }

  function DaysBeforeMonth(y: int, m: int): int
    requires 1 <= m <= 12
  {
    (if m == 1 then 0 else if m == 2 then 31 else if m == 3 then 59 else if m == 4 then 90
     else if m == 5 then 120 else if m == 6 then 151 else if m == 7 then 181 else if m == 8 then 212
     else if m == 9 then 243 else if m == 10 then 273 else if m == 11 then 304 else 334)
    + (if m > 2 && IsLeapYear(y) then 1 else 0)
  }

  /** Proleptic Gregorian day number; 0001-01-01 is day 1 (`date.toordinal()`). */
  function DayNumber(d: Date): int
    requires 1 <= d.month <= 12
  {
    DaysBeforeYear(d.year) + DaysBeforeMonth(d.year, d.month) + d.day
  }

  /** The calendar's successor of a day. */
  function NextDay(d: Date): (r: Date)
    requires ValidDate(d)
    ensures 1 <= r.month <= 12
  {
    if d.day < DaysInMonth(d.year, d.month) then d.(day := d.day + 1)
    else if d.month < 12 then Date(d.year, d.month + 1, 1)
    else Date(d.year + 1, 1, 1)
  }

  lemma QuotientSteps(p: int)
    ensures (p + 1) / 4 - p / 4 == (if (p + 1) % 4 == 0 then 1 else 0)
    ensures (p + 1) / 100 - p / 100 == (if (p + 1) % 100 == 0 then 1 else 0)
    ensures (p + 1) / 400 - p / 400 == (if (p + 1) % 400 == 0 then 1 else 0)
  {
  }

  lemma MultipleOf100(y: int, k: int)
    requires y == 100 * k
    ensures y % 100 == 0
  {
  }

  lemma MultipleOf4(y: int, k: int)
    requires y == 4 * k
    ensures y % 4 == 0
  {
  }

  lemma NestedMultiples(y: int)
    ensures y % 400 == 0 ==> y % 100 == 0
    ensures y % 100 == 0 ==> y % 4 == 0
  {
    if y % 400 == 0 {
      MultipleOf100(y, 4 * (y / 400));
    }
    if y % 100 == 0 {
      MultipleOf4(y, 25 * (y / 100));
    }
  }

  lemma DaysBeforeYearStep(y: int)
    ensures DaysBeforeYear(y + 1) == DaysBeforeYear(y) + (if IsLeapYear(y) then 366 else 365)
  {
    var p := y - 1;
    QuotientSteps(p);
    NestedMultiples(y);
    assert DaysBeforeYear(y + 1) - DaysBeforeYear(y)
      == 365 + ((p + 1) / 4 - p / 4) - ((p + 1) / 100 - p / 100) + ((p + 1) / 400 - p / 400);
  }

  /** Day numbers count calendar days: the next day is numbered one more. */
  lemma DayNumberCountsDays(d: Date)
    requires ValidDate(d)
    ensures DayNumber(NextDay(d)) == DayNumber(d) + 1
  {
    if d.day == DaysInMonth(d.year, d.month) && d.month == 12 {
      DaysBeforeYearStep(d.year);
    }
  }

  function TimeOfDay(t: Timestamp): int {
    t.hour * 3600 + t.minute * 60 + t.second
  }

  function Seconds(t: Timestamp): int
    requires 1 <= t.date.month <= 12
  {
    DayNumber(t.date) * 86400 + TimeOfDay(t)
  }

  // ---------------------------------------------------------------------------
  // "Less than two calendar months old"
  // ---------------------------------------------------------------------------

  /** Months counted from year 0, so that consecutive months differ by one. */
  function MonthIndex(d: Date): int {
    12 * d.year + d.month
  }

  /** `now - relativedelta(months=2)`: two months back, the day clamped to the
      target month's length, the time of day kept. */
  function TwoMonthsBefore(t: Timestamp): (r: Timestamp)
    requires ValidTimestamp(t)
    ensures MonthIndex(r.date) == MonthIndex(t.date) - 2 && 1 <= r.date.month <= 12
    ensures r.date.day == if t.date.day <= DaysInMonth(r.date.year, r.date.month) then t.date.day
                          else DaysInMonth(r.date.year, r.date.month)
    ensures r.hour == t.hour && r.minute == t.minute && r.second == t.second
    ensures t.date.year > 1 || t.date.month > 2 ==> ValidTimestamp(r)
  {
    var m := t.date.month - 2;
    var y := if m < 1 then t.date.year - 1 else t.date.year;
    var month := if m < 1 then m + 12 else m;
    var last := DaysInMonth(y, month);
    t.(date := Date(y, month, if t.date.day < last then t.date.day else last))
  }

  /** Chronological order of two instants. */
  predicate Later(a: Timestamp, b: Timestamp) {
    if a.date.year != b.date.year then a.date.year > b.date.year
    else if a.date.month != b.date.month then a.date.month > b.date.month
    else if a.date.day != b.date.day then a.date.day > b.date.day
    else TimeOfDay(a) > TimeOfDay(b)
  }

  /** `is_less_than_2_months_old(iso_date)` with the clock reading passed in;
      None where the parse raises ValueError. */
  function IsLessThan2MonthsOld(isoDate: string, now: Timestamp): (r: Option<bool>)
    requires ValidTimestamp(now)
    ensures r.Some? <==> ParseIso(isoDate).Some?
    ensures r.Some? ==> r.value == Later(ParseIso(isoDate).value, TwoMonthsBefore(now))
  {
    match ParseIso(isoDate)
    case None => None
    case Some(created) => Some(Later(created, TwoMonthsBefore(now)))
  }

  /** Created in this calendar month or the previous one: still new. Created
      three or more calendar months back: no longer new. In between, the
      day and time of day decide, against the clamped day two months back. */
  lemma NewAccountByMonth(created: Timestamp, now: Timestamp)
    requires ValidTimestamp(created) && ValidTimestamp(now)
    ensures MonthIndex(created.date) >= MonthIndex(now.date) - 1 ==> Later(created, TwoMonthsBefore(now))
    ensures MonthIndex(created.date) <= MonthIndex(now.date) - 3 ==> !Later(created, TwoMonthsBefore(now))
  {
  }

  /** An account created at this very instant is new. */
  lemma JustCreatedIsNew(now: Timestamp)
    requires ValidTimestamp(now)
    ensures Later(now, TwoMonthsBefore(now))
  {
    NewAccountByMonth(now, now);
  }
}
