/** `format_duration`: the 365/30-day decomposition of the days elapsed since
    an instant, its English text, and a reader that takes the text back. */
module Durations {
  import opened Json
  import opened Numerals
  import opened Dates

  datatype Duration = Duration(years: int, months: int, days: int)

  /** Elapsed days split as 365-day years, 30-day months and days, with
      Python's floor division (Euclidean division, for a positive divisor). */
  function DurationOf(elapsed: int): (r: Duration)
    ensures 365 * r.years + 30 * r.months + r.days == elapsed
    ensures 0 <= r.days < 30 && 0 <= r.months <= 12 && 30 * r.months + r.days < 365
    ensures elapsed >= 0 ==> r.years >= 0
  {
    Duration(elapsed / 365, (elapsed % 365) / 30, (elapsed % 365) % 30)
  }

  lemma QuotientBy365(n: int, y: int, rem: int)
    requires n == 365 * y + rem && 0 <= rem < 365
    ensures y == n / 365 && rem == n % 365
  {
  }

  lemma QuotientBy30(n: int, m: int, d: int)
    requires n == 30 * m + d && 0 <= d < 30
    ensures m == n / 30 && d == n % 30
  {
  }

  /** The decomposition is the only one with days below 30 and months and
      days together below a year; months can be 12 (360..364 days). */
  lemma {:induction false} DurationOfUnique(elapsed: int, r: Duration)
    requires 365 * r.years + 30 * r.months + r.days == elapsed
    requires 0 <= r.days < 30 && 0 <= r.months && 30 * r.months + r.days < 365
    ensures r == DurationOf(elapsed)
    ensures DurationOf(360) == Duration(0, 12, 0)
  {
    QuotientBy365(elapsed, r.years, 30 * r.months + r.days);
    QuotientBy30(elapsed % 365, r.months, r.days);
  }

  /** "year" for one, "years" for more. */
  function Plural(k: int, unit: string): string {
    if k > 1 then unit + "s" else unit
  }

  /** The non-zero components, largest first, each with its unit word. */
  function Parts(r: Duration): seq<(int, string)> {
    (if r.years != 0 then [(r.years, Plural(r.years, "year"))] else [])
    + (if r.months != 0 then [(r.months, Plural(r.months, "month"))] else [])
    + (if r.days != 0 then [(r.days, Plural(r.days, "day"))] else [])
  }

  /** `" ".join(f"{k} {word}" for ...)`. */
  function JoinParts(parts: seq<(int, string)>): string {
    if parts == [] then ""
    else
      IntToString(parts[0].0) + " " + parts[0].1
      + (if |parts| == 1 then "" else " " + JoinParts(parts[1..]))
  }

  /** The text `format_duration` builds for a number of elapsed days. */
  function DurationText(elapsed: int): string {
    var parts := Parts(DurationOf(elapsed));
    if parts == [] then "0 days" else JoinParts(parts)
  }

  /** Whole days between two instants, floored like `timedelta.days`. */
  function ElapsedDays(created: Timestamp, now: Timestamp): (n: int)
    requires ValidTimestamp(created) && ValidTimestamp(now)
    ensures n == DayNumber(now.date) - DayNumber(created.date) - (if TimeOfDay(now) < TimeOfDay(created) then 1 else 0)
  {
    (Seconds(now) - Seconds(created)) / 86400
  }

  /** `format_duration(iso_date)` with the clock reading passed in. */
  function FormatDuration(isoDate: string, now: Timestamp): (r: Option<string>)
    requires ValidTimestamp(now)
    ensures r.Some? <==> ParseIso(isoDate).Some?
    ensures r.Some? ==> r.value == DurationText(ElapsedDays(ParseIso(isoDate).value, now))
  {
    match ParseIso(isoDate)
    case None => None
    case Some(created) => Some(DurationText(ElapsedDays(created, now)))
  }

  predicate IsLower(c: char) {
    'a' <= c <= 'z'
  }

  /** Length of the longest prefix of lower-case letters. */
  function LetterRun(s: string): (k: nat)
    ensures k <= |s|
    ensures forall j :: 0 <= j < k ==> IsLower(s[j])
    ensures k < |s| ==> !IsLower(s[k])
  {
    if s == [] || !IsLower(s[0]) then 0 else 1 + LetterRun(s[1..])
  }

  /** Reads one "<n> <word>" component from the front of `s`, returning it
      with the text that follows the word. */
  function ReadPart(s: string): (r: Option<((int, string), string)>)
    ensures r.Some? ==> |r.value.1| < |s|
  {
    var k := DigitRun(s);
    if k == 0 || k == |s| || s[k] != ' ' then None
    else
      var after := s[k + 1..];
      var w := LetterRun(after);
      if w == 0 then None
      else Some(((DigitsValue(s[..k]) as int, after[..w]), after[w..]))
  }

  /** Reads "<n> <word>" components separated by single spaces. */
  function ReadParts(s: string): Option<seq<(int, string)>>
    decreases |s|
  {
    match ReadPart(s)
    case None => None
    case Some((part, rest)) =>
      if rest == [] then Some([part])
      else if rest[0] != ' ' then None
      else
        var tail := ReadParts(rest[1..]);
        if tail.None? then None else Some([part] + tail.value)
  }

  /** Puts read components into their fields, rejecting unknown words. */
  function Assemble(parts: seq<(int, string)>, acc: Duration): Option<Duration> {
    if parts == [] then Some(acc)
    else
      var k, word := parts[0].0, parts[0].1;
      if word == "year" || word == "years" then Assemble(parts[1..], acc.(years := k))
      else if word == "month" || word == "months" then Assemble(parts[1..], acc.(months := k))
      else if word == "day" || word == "days" then Assemble(parts[1..], acc.(days := k))
      else None
  }

  /** Reads a duration text back (the partner of DurationText). */
  function ReadDuration(s: string): Option<Duration> {
    var parts := ReadParts(s);
    if parts.None? then None else Assemble(parts.value, Duration(0, 0, 0))
  }

  predicate WellFormedParts(parts: seq<(int, string)>) {
    forall i :: 0 <= i < |parts| ==>
      parts[i].0 >= 0 && |parts[i].1| > 0 && forall j :: 0 <= j < |parts[i].1| ==> IsLower(parts[i].1[j])
  }

  lemma {:induction false} LetterRunOfWord(w: string, t: string)
    requires forall j :: 0 <= j < |w| ==> IsLower(w[j])
    requires t == [] || !IsLower(t[0])
    ensures LetterRun(w + t) == |w|
  {
    if w != [] {
      assert (w + t)[1..] == w[1..] + t;
      LetterRunOfWord(w[1..], t);
    }
  }

  /** A number, a space and then a word: the number is read back. */
  lemma NumberThenSpace(k: nat, word: string, t: string)
    ensures var s := NatToString(k) + " " + word + t;
      DigitRun(s) == |NatToString(k)| && DigitsValue(s[..|NatToString(k)|]) == k
      && s[|NatToString(k)|] == ' ' && s[|NatToString(k)| + 1..] == word + t
  {
    var after := " " + word + t;
    assert NatToString(k) + " " + word + t == NatToString(k) + after;
    NumberThenText(k, after);
    assert after[1..] == word + t;
  }

  /** A numeral followed by a text that starts with a space. */
  lemma NumberThenText(k: nat, after: string)
    requires after != [] && after[0] == ' '
    ensures var s, n := NatToString(k) + after, |NatToString(k)|;
      DigitRun(s) == n && DigitsValue(s[..n]) == k && s[n] == ' ' && s[n + 1..] == after[1..]
  {
    NatToStringReadsBack(k, after);
  }

  /** What ReadPart yields once the number and the word have been located. */
  lemma ReadPartAt(s: string, n: nat, after: string, w: nat)
    requires 0 < n < |s| && DigitRun(s) == n && s[n] == ' '
    requires after == s[n + 1..] && 0 < w == LetterRun(after)
    ensures ReadPart(s) == Some(((DigitsValue(s[..n]) as int, after[..w]), after[w..]))
  {
  }

  /** One component is read back from the front of its text. */
  lemma ReadPartOfText(k: nat, word: string, t: string)
    requires |word| > 0 && forall j :: 0 <= j < |word| ==> IsLower(word[j])
    requires t == [] || t[0] == ' '
    ensures ReadPart(NatToString(k) + " " + word + t) == Some(((k, word), t))
  {
    var s := NatToString(k) + " " + word + t;
    var n := |NatToString(k)|;
    NumberThenSpace(k, word, t);
    LetterRunOfWord(word, t);
    ReadPartAt(s, n, word + t, |word|);
    assert (word + t)[..|word|] == word && (word + t)[|word|..] == t;
  }

  /** What ReadParts yields once the first component has been read. */
  lemma ReadPartsAfter(s: string, part: (int, string), rest: string)
    requires ReadPart(s) == Some((part, rest))
    ensures rest == [] ==> ReadParts(s) == Some([part])
    ensures rest != [] && rest[0] == ' ' && ReadParts(rest[1..]).Some? ==>
      ReadParts(s) == Some([part] + ReadParts(rest[1..]).value)
  {
  }

  /** A component in front of a text that reads back is read back with it. */
  lemma ReadPartsOfText(k: nat, word: string, t: string, more: seq<(int, string)>)
    requires |word| > 0 && forall j :: 0 <= j < |word| ==> IsLower(word[j])
    requires t == [] || (t[0] == ' ' && ReadParts(t[1..]) == Some(more))
    ensures ReadParts(NatToString(k) + " " + word + t) == Some([(k, word)] + (if t == [] then [] else more))
  {
    ReadPartOfText(k, word, t);
    ReadPartsAfter(NatToString(k) + " " + word + t, (k, word), t);
    assert [(k, word)] + [] == [(k, word)];
  }

  /** The text of the first component, then the rest after a space. */
  lemma JoinPartsFront(parts: seq<(int, string)>)
    requires parts != [] && parts[0].0 >= 0
    ensures |parts| == 1 ==> JoinParts(parts) == NatToString(parts[0].0) + " " + parts[0].1 + ""
    ensures |parts| > 1 ==>
      JoinParts(parts) == NatToString(parts[0].0) + " " + parts[0].1 + (" " + JoinParts(parts[1..]))
  {
  }

  /** A lone well-formed component is read back. */
  lemma ReadOnePart(parts: seq<(int, string)>)
    requires |parts| == 1 && WellFormedParts(parts)
    ensures ReadParts(JoinParts(parts)) == Some(parts)
  {
    var k, word := parts[0].0, parts[0].1;
    assert JoinParts(parts) == NatToString(k) + " " + word + "" by {
      JoinPartsFront(parts);
    }
    assert ReadParts(NatToString(k) + " " + word + "") == Some([(k, word)]) by {
      ReadPartsOfText(k, word, "", []);
      assert [(k, word)] + [] == [(k, word)];
    }
    assert [(k, word)] == parts by {
      assert parts[0] == (k, word);
    }
  }

  /** A component, a space and a text that reads back as further components
      are read back together. */
  lemma ReadSpacedFront(first: (int, string), rest: seq<(int, string)>, joined: string)
    requires first.0 >= 0 && |first.1| > 0 && forall j :: 0 <= j < |first.1| ==> IsLower(first.1[j])
    requires ReadParts(joined) == Some(rest)
    ensures ReadParts(NatToString(first.0) + " " + first.1 + (" " + joined)) == Some([first] + rest)
  {
    var t := " " + joined;
    assert t[1..] == joined;
    ReadPartsOfText(first.0, first.1, t, rest);
    assert (first.0, first.1) == first;
  }

  /** The first entry of a sequence in front of the others gives it back. */
  lemma ConsParts(parts: seq<(int, string)>)
    requires parts != []
    ensures [parts[0]] + parts[1..] == parts
  {
  }

  /** A well-formed component in front of components that read back is
      read back with them. */
  lemma ReadConsPart(parts: seq<(int, string)>)
    requires |parts| > 1 && WellFormedParts(parts[..1])
    requires ReadParts(JoinParts(parts[1..])) == Some(parts[1..])
    ensures ReadParts(JoinParts(parts)) == Some(parts)
  {
    assert parts[0].0 >= 0 && |parts[0].1| > 0 && forall j :: 0 <= j < |parts[0].1| ==> IsLower(parts[0].1[j]) by {
      assert parts[..1][0] == parts[0];
    }
    JoinPartsFront(parts);
    ReadSpacedFront(parts[0], parts[1..], JoinParts(parts[1..]));
    ConsParts(parts);
  }

  lemma {:induction false} ReadJoinParts(parts: seq<(int, string)>)
    requires parts != [] && WellFormedParts(parts)
    ensures ReadParts(JoinParts(parts)) == Some(parts)
  {
    if |parts| == 1 {
      ReadOnePart(parts);
    } else {
      assert WellFormedParts(parts[1..]) && WellFormedParts(parts[..1]);
      ReadJoinParts(parts[1..]);
      ReadConsPart(parts);
    }
  }

  /** A single component is put into the field its word names. */
  lemma AssembleOne(k: int, unit: string, acc: Duration)
    requires unit in {"year", "month", "day"}
    ensures Assemble([(k, Plural(k, unit))], acc)
         == Some(if unit == "year" then acc.(years := k)
                 else if unit == "month" then acc.(months := k)
                 else acc.(days := k))
  {
    var w := Plural(k, unit);
    assert [(k, w)][1..] == [];
    assert w[0] == unit[0];
    assert "year"[0] == 'y' && "years"[0] == 'y' && "month"[0] == 'm' && "months"[0] == 'm';
  }

  /** Assembling a concatenation assembles the front, then the back. */
  lemma {:induction false} AssembleAppend(front: seq<(int, string)>, back: seq<(int, string)>, acc: Duration)
    requires Assemble(front, acc).Some?
    ensures Assemble(front + back, acc) == Assemble(back, Assemble(front, acc).value)
  {
    if front == [] {
      assert front + back == back;
    } else {
      assert (front + back)[1..] == front[1..] + back;
      var k, word := front[0].0, front[0].1;
      if word == "year" || word == "years" {
        AssembleAppend(front[1..], back, acc.(years := k));
      } else if word == "month" || word == "months" {
        AssembleAppend(front[1..], back, acc.(months := k));
      } else if word == "day" || word == "days" {
        AssembleAppend(front[1..], back, acc.(days := k));
      }
    }
  }

  /** The components put back into their fields give the decomposition. */
  lemma AssembleParts(r: Duration)
    ensures Assemble(Parts(r), Duration(0, 0, 0)) == Some(r)
  {
    var y := if r.years != 0 then [(r.years, Plural(r.years, "year"))] else [];
    var m := if r.months != 0 then [(r.months, Plural(r.months, "month"))] else [];
    var d := if r.days != 0 then [(r.days, Plural(r.days, "day"))] else [];
    var a0 := Duration(0, 0, 0);
    var a1 := if r.years != 0 then a0.(years := r.years) else a0;
    var a2 := if r.months != 0 then a1.(months := r.months) else a1;
    if r.years != 0 { AssembleOne(r.years, "year", a0); }
    if r.months != 0 { AssembleOne(r.months, "month", a1); }
    if r.days != 0 { AssembleOne(r.days, "day", a2); }
    assert Assemble(y, a0) == Some(a1);
    assert Assemble(m, a1) == Some(a2);
    assert Assemble(d, a2) == Some(r);
    AssembleAppend(y, m, a0);
    AssembleAppend(y + m, d, a0);
    assert Parts(r) == y + m + d;
  }

  lemma LowerUnitWords(k: int, unit: string)
    requires unit in {"year", "month", "day"}
    ensures |Plural(k, unit)| > 0 && forall j :: 0 <= j < |Plural(k, unit)| ==> IsLower(Plural(k, unit)[j])
  {
  }

  /** The components of a non-negative decomposition are well formed. */
  lemma PartsWellFormed(r: Duration)
    requires r.years >= 0 && r.months >= 0 && r.days >= 0
    ensures WellFormedParts(Parts(r))
  {
    LowerUnitWords(r.years, "year");
    LowerUnitWords(r.months, "month");
    LowerUnitWords(r.days, "day");
  }

  /** Reading a duration text back recovers the decomposition, so no
      component is lost or misplaced; zero components are left out. */
  lemma DurationTextReadsBack(elapsed: nat)
    ensures ReadDuration(DurationText(elapsed)) == Some(DurationOf(elapsed))
  {
    var r := DurationOf(elapsed);
    if Parts(r) == [] {
      assert DurationText(elapsed) == JoinParts([(0, "days")]);
      ReadJoinParts([(0, "days")]);
    } else {
      PartsWellFormed(r);
      ReadJoinParts(Parts(r));
      AssembleParts(r);
    }
  }

  /** The rank of a unit word: 0 for years, 1 for months, 2 for days, 3 for
      anything else. */
  function UnitRank(word: string): nat {
    if word == "year" || word == "years" then 0
    else if word == "month" || word == "months" then 1
    else if word == "day" || word == "days" then 2
    else 3
  }

  predicate Singular(word: string) {
    word == "year" || word == "month" || word == "day"
  }

  /** The field of a decomposition a rank names. */
  function Component(r: Duration, rank: nat): int {
    if rank == 0 then r.years else if rank == 1 then r.months else r.days
  }

  /** How many fields of a decomposition are non-zero. */
  function NonZeroFields(r: Duration): nat {
    (if r.years != 0 then 1 else 0) + (if r.months != 0 then 1 else 0) + (if r.days != 0 then 1 else 0)
  }

  /** The components `format_duration` lists: each a unit word holding its
      own non-zero field, singular exactly for one, in strictly decreasing
      unit size, and as many as there are non-zero fields, so every non-zero
      field appears exactly once. */
  predicate ListsComponents(ps: seq<(int, string)>, r: Duration) {
    && |ps| == NonZeroFields(r)
    && (forall i :: 0 <= i < |ps| ==>
          UnitRank(ps[i].1) < 3 && ps[i].0 > 0 && ps[i].0 == Component(r, UnitRank(ps[i].1)))
    && (forall i :: 0 <= i < |ps| ==> (Singular(ps[i].1) <==> ps[i].0 == 1))
    && (forall i, j :: 0 <= i < j < |ps| ==> UnitRank(ps[i].1) < UnitRank(ps[j].1))
  }

  /** One component's word names its unit and is singular exactly for one. */
  lemma PluralWord(k: int, unit: string)
    requires k > 0 && unit in {"year", "month", "day"}
    ensures UnitRank(Plural(k, unit)) == UnitRank(unit)
    ensures Singular(Plural(k, unit)) <==> k == 1
  {
    assert "year" + "s" == "years" && "month" + "s" == "months" && "day" + "s" == "days";
  }

  /** The listing of a decomposition with days only. */
  lemma ListsDays(r: Duration, wd: string)
    requires r.years == 0 && r.months == 0 && r.days >= 0
    requires r.days != 0 ==> UnitRank(wd) == 2 && (Singular(wd) <==> r.days == 1)
    ensures ListsComponents(if r.days != 0 then [(r.days, wd)] else [], r)
  {
  }

  /** A listing that starts with the months, followed by one for the days. */
  lemma ListsWithMonths(r: Duration, wm: string, rest: seq<(int, string)>)
    requires r.years == 0 && r.months > 0 && UnitRank(wm) == 1 && (Singular(wm) <==> r.months == 1)
    requires ListsComponents(rest, r.(months := 0))
    ensures ListsComponents([(r.months, wm)] + rest, r)
  {
    var ps := [(r.months, wm)] + rest;
    assert forall i :: 1 <= i < |ps| ==> ps[i] == rest[i - 1];
  }

  /** The listing of a decomposition whose years are zero. */
  lemma ListsTail(r: Duration, ps: seq<(int, string)>, wm: string, wd: string)
    requires r.years == 0 && r.months >= 0 && r.days >= 0
    requires r.months != 0 ==> UnitRank(wm) == 1 && (Singular(wm) <==> r.months == 1)
    requires r.days != 0 ==> UnitRank(wd) == 2 && (Singular(wd) <==> r.days == 1)
    requires ps == (if r.months != 0 then [(r.months, wm)] else []) + (if r.days != 0 then [(r.days, wd)] else [])
    ensures ListsComponents(ps, r)
  {
    var d := if r.days != 0 then [(r.days, wd)] else [];
    if r.months != 0 {
      ListsDays(r.(months := 0), wd);
      ListsWithMonths(r, wm, d);
    } else {
      ListsDays(r, wd);
      assert ps == d;
    }
  }

  /** A listing that starts with the years, followed by one for the rest. */
  lemma ListsWithYears(r: Duration, wy: string, rest: seq<(int, string)>)
    requires r.years > 0 && UnitRank(wy) == 0 && (Singular(wy) <==> r.years == 1)
    requires ListsComponents(rest, r.(years := 0))
    ensures ListsComponents([(r.years, wy)] + rest, r)
  {
    var ps := [(r.years, wy)] + rest;
    assert forall i :: 1 <= i < |ps| ==> ps[i] == rest[i - 1];
  }

  /** The components of a decomposition without years list it. */
  lemma PartsWithoutYears(r: Duration)
    requires r.years == 0 && r.months >= 0 && r.days >= 0
    ensures ListsComponents(Parts(r), r)
  {
    var wm, wd := Plural(r.months, "month"), Plural(r.days, "day");
    if r.months != 0 { PluralWord(r.months, "month"); }
    if r.days != 0 { PluralWord(r.days, "day"); }
    assert Parts(r) == [] + Parts(r);
    ListsTail(r, Parts(r), wm, wd);
  }

  /** The components of a decomposition with no negative field list it. */
  lemma PartsListComponents(r: Duration)
    requires r.years >= 0 && r.months >= 0 && r.days >= 0
    ensures ListsComponents(Parts(r), r)
  {
    if r.years == 0 {
      PartsWithoutYears(r);
    } else {
      var rest := r.(years := 0);
      PluralWord(r.years, "year");
      PartsWithoutYears(rest);
      ListsWithYears(r, Plural(r.years, "year"), Parts(rest));
      assert Parts(r) == [(r.years, Plural(r.years, "year"))] + Parts(rest);
    }
  }

  /** The text of a positive number of days is made of the non-zero
      components, each once, largest first, singular exactly for one. */
  lemma DurationTextLists(elapsed: nat)
    requires elapsed > 0
    ensures ReadParts(DurationText(elapsed)).Some?
    ensures ListsComponents(ReadParts(DurationText(elapsed)).value, DurationOf(elapsed))
  {
    var r := DurationOf(elapsed);
    assert Parts(r) != [] by {
      if r.years == 0 && r.months == 0 {
        assert r.days == elapsed;
      }
    }
    PartsWellFormed(r);
    ReadJoinParts(Parts(r));
    PartsListComponents(r);
  }

  /** The text is "0 days" exactly when no whole day has elapsed. */
  lemma ZeroDaysTextIffNoTime(elapsed: nat)
    ensures DurationText(elapsed) == "0 days" <==> elapsed == 0
  {
    var parts := Parts(DurationOf(elapsed));
    if parts != [] {
      var first := NatToString(parts[0].0);
      assert JoinParts(parts)[..|first|] == first;
      if DurationText(elapsed) == "0 days" {
        assert first[0] == '0';
      }
    }
  }
}
