/** The first version of the statistics step, kept beside the current one:
    totals, highest daily count and streaks read with plain subscripts (a
    missing key becomes the "Invalid data structure" answer, anything else
    propagates), and a language tally with counts only. */
module LegacyStats {
  import opened Json
  import opened Streaks
  import opened Contributions
  import opened Languages

  /** The legacy dictionary, the `{"errors": "Invalid data structure"}`
      answer to a KeyError, or an exception that escapes the function. */
  datatype LegacyResult =
    | LegacyStats(totalContributions: nat, highestContribution: nat,
                  currentStreak: nat, longestStreak: nat, days: seq<RawDay>)
    | InvalidDataStructure
    | Raises(fault: Fault)

  /** `except KeyError:` — only KeyError is caught. */
  function Caught(f: Fault): (r: LegacyResult)
    ensures r.Raises? <==> f != KeyError
    ensures r.Raises? ==> r.fault == f
  {
    if f == KeyError then InvalidDataStructure else Raises(f)
  }

  /** Legacy `process_contribution_data`: calendar, flattened days,
      `calendar['totalContributions']`, `max` over `day['contributionCount']`,
      then the streak loop. */
  method LegacyProcessContributionData(p: Payload) returns (r: LegacyResult)
    ensures r.LegacyStats? <==>
      && DaysOf(p).Ok?
      && CalendarOf(p).value.totalContributions.Some?
      && DaysOf(p).value != []
      && AllCounted(DaysOf(p).value)
    ensures r.LegacyStats? ==>
      && r.days == DaysOf(p).value
      && r.totalContributions == CalendarOf(p).value.totalContributions.value
      && (forall j :: 0 <= j < |r.days| ==> Counts(r.days)[j] <= r.highestContribution)
      && (exists j :: 0 <= j < |r.days| && Counts(r.days)[j] == r.highestContribution)
      && r.currentStreak == TrailingRun(Counts(r.days))
      && r.longestStreak == LongestRun(Counts(r.days))
    ensures DaysOf(p).Raised? ==> r == Caught(DaysOf(p).fault)
    ensures r.Raises? ==> r.fault != KeyError
    ensures r == InvalidDataStructure <==>
      || (DaysOf(p).Raised? && DaysOf(p).fault == KeyError)
      || (DaysOf(p).Ok? && CalendarOf(p).value.totalContributions.None?)
      || (DaysOf(p).Ok? && DaysOf(p).value != [] && !AllCounted(DaysOf(p).value))
    ensures r == Raises(ValueError) <==>
      DaysOf(p).Ok? && CalendarOf(p).value.totalContributions.Some? && DaysOf(p).value == []
  {
    var found := DaysOf(p);
    if found.Raised? {
      return Caught(found.fault);
    }
    var days := found.value;
    var total := CalendarOf(p).value.totalContributions;
    if total.None? {
      return InvalidDataStructure;
    }
    if days == [] {
      return Raises(ValueError);
    }
    if !AllCounted(days) {
      return InvalidDataStructure;
    }
    var counts := Counts(days);
    var highest := counts[FirstMaxIndex(counts)];
    var current, longest := ComputeStreaks(counts);
    r := LegacyStats(total.value, highest, current, longest, days);
  }

  // ---------------------------------------------------------------------------
  // Legacy process_language_data
  // ---------------------------------------------------------------------------

  /** `language_counts`: language name to number of repositories. */
  type CountTable = seq<(string, nat)>

  /** The counts of a language table, without the colours. */
  function CountsOf(table: LanguageTable): (c: CountTable)
    ensures |c| == |table|
    ensures forall i :: 0 <= i < |c| ==> c[i].0 == table[i].0 && c[i].1 == table[i].1.count
  {
    seq(|table|, i requires 0 <= i < |table| => (table[i].0, table[i].1.count))
  }

  /** `language_counts[language] = language_counts.get(language, 0) + 1`. */
  function BumpCount(counts: CountTable, name: string): CountTable {
    var k := IndexOfKey(counts, name);
    if k < |counts| then counts[k := (name, counts[k].1 + 1)] else counts + [(name, 1)]
  }

  /** Dropping the colours keeps every key where it was. */
  lemma {:induction false} KeysAgree(table: LanguageTable, name: string)
    ensures IndexOfKey(CountsOf(table), name) == IndexOfKey(table, name)
  {
    if table != [] && table[0].0 != name {
      assert CountsOf(table)[1..] == CountsOf(table[1..]);
      KeysAgree(table[1..], name);
    }
  }

  /** The legacy loop body and the current one agree on the counts. */
  lemma CountsStep(table: LanguageTable, t: Tag)
    ensures CountsOf(Bump(table, t)) == BumpCount(CountsOf(table), t.name)
  {
    KeysAgree(table, t.name);
  }

  /** Legacy `process_language_data`: the same repositories count as in the
      current version, and each language's count is the same; None when
      anything raises. */
  method LegacyProcessLanguageData(p: Payload) returns (r: Option<CountTable>)
    ensures r.Some? <==> EdgesOf(p).Ok? && Tags(EdgesOf(p).value).Ok?
    ensures r.Some? ==> r.value == CountsOf(Table(Tags(EdgesOf(p).value).value))
  {
    var found := EdgesOf(p);
    if found.Raised? {
      return None;
    }
    var edges := found.value;
    var counts: CountTable := [];
    for i := 0 to |edges|
      invariant Tags(edges[..i]).Ok?
      invariant counts == CountsOf(Table(Tags(edges[..i]).value))
    {
      assert edges[..i + 1][..i] == edges[..i];
      var tag := EdgeTag(edges[i]);
      if tag.Raised? {
        return None;
      }
      if tag.value.Some? {
        var tags := Tags(edges[..i]).value;
        TableStep(tags, tag.value.value);
        CountsStep(Table(tags), tag.value.value);
        counts := BumpCount(counts, tag.value.value.name);
      }
    }
    assert edges[..|edges|] == edges;
    r := Some(counts);
  }

  // ---------------------------------------------------------------------------
  // The three payloads of the repository's unit tests
  // ---------------------------------------------------------------------------

  function RepoIn(language: string, color: string): Edge {
    Edge(Present(Repo(Present(LanguageNode(Some(language), Present(color))))))
  }

  function UserWithRepos(edges: seq<Edge>): Payload {
    Payload(Present(Data(Present(User(Absent, Present(Repositories(Present(edges))))))), None)
  }

  /** Two Python repositories, one JavaScript and one without a language. */
  function MockPayload(): Payload {
    UserWithRepos([RepoIn("Python", "#3572A5"), RepoIn("JavaScript", "#f1e05a"),
                   RepoIn("Python", "#3572A5"), Edge(Present(Repo(Null)))])
  }

  const PythonTag := Tag("Python", Some("#3572A5"))
  const JavaScriptTag := Tag("JavaScript", Some("#f1e05a"))

  /** The repositories of the mock payload that count, in order. */
  lemma MockPayloadTags()
    ensures EdgesOf(MockPayload()).Ok?
    ensures Tags(EdgesOf(MockPayload()).value) == Ok([PythonTag, JavaScriptTag, PythonTag])
  {
    var py, js := PythonTag, JavaScriptTag;
    var e0, e1 := RepoIn("Python", "#3572A5"), RepoIn("JavaScript", "#f1e05a");
    var e3 := Edge(Present(Repo(Null)));
    assert EdgesOf(MockPayload()).value == [e0, e1, e0, e3];
    assert EdgeTag(e0) == Ok(Some(py)) && EdgeTag(e1) == Ok(Some(js)) && EdgeTag(e3) == Ok(None);
    assert [e0][..0] == [] && [] + [py] == [py];
    assert Tags([e0]) == Ok([py]);
    assert [e0, e1][..1] == [e0] && [py] + [js] == [py, js];
    assert Tags([e0, e1]) == Ok([py, js]);
    assert [e0, e1, e0][..2] == [e0, e1] && [py, js] + [py] == [py, js, py];
    assert Tags([e0, e1, e0]) == Ok([py, js, py]);
    assert [e0, e1, e0, e3][..3] == [e0, e1, e0];
  }

  /** The table after the first two mock repositories. */
  lemma MockTableOfTwo()
    ensures Table([PythonTag, JavaScriptTag]) ==
      [("Python", LanguageStat(1, PythonTag.color)), ("JavaScript", LanguageStat(1, JavaScriptTag.color))]
  {
    var py, js := PythonTag, JavaScriptTag;
    var t1 := [("Python", LanguageStat(1, py.color))];
    assert Table([py]) == t1 by {
      TableStep([], py);
      assert [] + [py] == [py];
    }
    TableStep([py], js);
    assert [py] + [js] == [py, js];
    assert IndexOfKey(t1, js.name) == 1;
  }

  /** The table of the three mock repositories with a language. */
  lemma MockTable()
    ensures Table([PythonTag, JavaScriptTag, PythonTag]) ==
      [("Python", LanguageStat(2, PythonTag.color)), ("JavaScript", LanguageStat(1, JavaScriptTag.color))]
  {
    var py, js := PythonTag, JavaScriptTag;
    var t2 := [("Python", LanguageStat(1, py.color)), ("JavaScript", LanguageStat(1, js.color))];
    MockTableOfTwo();
    TableStep([py, js], py);
    assert [py, js] + [py] == [py, js, py];
    assert IndexOfKey(t2, py.name) == 0;
  }

  /** The normal case: Python twice, JavaScript once, nothing else. */
  lemma MockPayloadCounts()
    ensures EdgesOf(MockPayload()).Ok? && Tags(EdgesOf(MockPayload()).value).Ok?
    ensures CountsOf(Table(Tags(EdgesOf(MockPayload()).value).value)) == [("Python", 2), ("JavaScript", 1)]
  {
    MockPayloadTags();
    MockTable();
  }

  /** No repositories: an empty dictionary. */
  lemma NoRepositoriesGiveNoCounts()
    ensures EdgesOf(UserWithRepos([])).Ok? && Tags(EdgesOf(UserWithRepos([])).value) == Ok([])
    ensures CountsOf(Table([])) == []
  {
  }

  /** `{"data": {"user": {}}}`: the lookup of `repositories` raises, so None. */
  lemma UserWithoutRepositoriesFails()
    ensures EdgesOf(Payload(Present(Data(Present(User(Absent, Absent)))), None)).Raised?
  {
  }
}
