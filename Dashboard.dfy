/** The rules the dashboard applies to the computed statistics before showing
    them: the public/private total toggle, the language list cut to the six
    most used plus an "Others" entry, and the streak and contribution
    achievements with their progress. */
module Dashboard {
  import opened Json
  import opened Languages

  // ---------------------------------------------------------------------------
  // Displayed total
  // ---------------------------------------------------------------------------

  /** The total shown in the summary: private contributions are added only
      when the viewer asks for them. */
  function DisplayTotal(public: nat, private: nat, showPrivate: bool): (r: nat)
    ensures public <= r <= public + private
    ensures r == public + private <==> showPrivate || private == 0
    ensures r == public <==> !showPrivate || private == 0
  {
    if showPrivate then public + private else public
  }

  // ---------------------------------------------------------------------------
  // Languages sorted by count
  // ---------------------------------------------------------------------------

  predicate Descending(s: LanguageTable) {
    forall i, j :: 0 <= i < j < |s| ==> s[i].1.count >= s[j].1.count
  }

  /** Places `x` after every entry with at least its count. */
  function Insert(x: (string, LanguageStat), s: LanguageTable): (r: LanguageTable)
    ensures |r| == |s| + 1
  {
    if s == [] then [x]
    else if s[0].1.count >= x.1.count then [s[0]] + Insert(x, s[1..])
    else [x] + s
  }

  lemma {:induction false} InsertAddsOne(x: (string, LanguageStat), s: LanguageTable)
    ensures multiset(Insert(x, s)) == multiset(s) + multiset{x}
  {
    if s != [] && s[0].1.count >= x.1.count {
      assert s == [s[0]] + s[1..];
      InsertAddsOne(x, s[1..]);
    }
  }

  /** Every entry has at most `b` repositories. */
  predicate AtMost(s: LanguageTable, b: nat) {
    forall i :: 0 <= i < |s| ==> s[i].1.count <= b
  }

  lemma {:induction false} InsertAtMost(x: (string, LanguageStat), s: LanguageTable, b: nat)
    requires AtMost(s, b) && x.1.count <= b
    ensures AtMost(Insert(x, s), b)
  {
    if s != [] && s[0].1.count >= x.1.count {
      InsertAtMost(x, s[1..], b);
    }
  }

  lemma {:induction false} InsertKeepsDescending(x: (string, LanguageStat), s: LanguageTable)
    requires Descending(s)
    ensures Descending(Insert(x, s))
  {
    if s != [] && s[0].1.count >= x.1.count {
      var rest := Insert(x, s[1..]);
      InsertKeepsDescending(x, s[1..]);
      InsertAtMost(x, s[1..], s[0].1.count);
      assert Insert(x, s) == [s[0]] + rest;
    }
  }

  /** `sorted(items, key=count, reverse=True)`: entries by non-increasing
      count, equal counts in their original order. */
  function SortByCount(t: LanguageTable): (r: LanguageTable)
    ensures |r| == |t|
    ensures Descending(r)
  {
    if t == [] then []
    else
      var p := t[..|t| - 1];
      assert t == p + [t[|t| - 1]];
      InsertKeepsDescending(t[|t| - 1], SortByCount(p));
      Insert(t[|t| - 1], SortByCount(p))
  }

  /** Sorting only reorders: the sorted list is a permutation of the original. */
  lemma {:induction false} SortIsPermutation(t: LanguageTable)
    ensures multiset(SortByCount(t)) == multiset(t)
  {
    if t != [] {
      var p := t[..|t| - 1];
      assert t == p + [t[|t| - 1]];
      SortIsPermutation(p);
      InsertAddsOne(t[|t| - 1], SortByCount(p));
    }
  }

  lemma Associative(a: LanguageTable, b: LanguageTable, c: LanguageTable)
    ensures a + (b + c) == (a + b) + c
  {
  }

  /** The entries with count `c` that `x` contributes: itself or nothing. */
  function Tie(x: (string, LanguageStat), c: nat): LanguageTable {
    if x.1.count == c then [x] else []
  }

  /** The entries with count `c`, in order. */
  function WithCount(s: LanguageTable, c: nat): LanguageTable {
    if s == [] then []
    else Tie(s[0], c) + WithCount(s[1..], c)
  }

  lemma {:induction false} WithCountAppend(a: LanguageTable, b: LanguageTable, c: nat)
    ensures WithCount(a + b, c) == WithCount(a, c) + WithCount(b, c)
  {
    if a == [] {
      assert a + b == b;
    } else {
      var h := Tie(a[0], c);
      assert (a + b)[0] == a[0];
      assert (a + b)[1..] == a[1..] + b;
      WithCountAppend(a[1..], b, c);
      assert WithCount(a + b, c) == h + (WithCount(a[1..], c) + WithCount(b, c));
      Associative(h, WithCount(a[1..], c), WithCount(b, c));
    }
  }

  lemma {:induction false} NoneWithCount(s: LanguageTable, c: nat)
    requires forall i :: 0 <= i < |s| ==> s[i].1.count < c
    ensures WithCount(s, c) == []
  {
    if s != [] {
      NoneWithCount(s[1..], c);
    }
  }

  lemma InsertTiesBehind(x: (string, LanguageStat), s: LanguageTable, c: nat)
    requires s != [] && s[0].1.count >= x.1.count
    requires WithCount(Insert(x, s[1..]), c) == WithCount(s[1..], c) + Tie(x, c)
    ensures WithCount(Insert(x, s), c) == WithCount(s, c) + Tie(x, c)
  {
    var rest := Insert(x, s[1..]);
    var h := Tie(s[0], c);
    assert Insert(x, s) == [s[0]] + rest;
    assert ([s[0]] + rest)[1..] == rest;
    assert WithCount(Insert(x, s), c) == h + WithCount(rest, c);
    assert WithCount(s, c) == h + WithCount(s[1..], c);
    Associative(h, WithCount(s[1..], c), Tie(x, c));
  }

  lemma InsertTiesAhead(x: (string, LanguageStat), s: LanguageTable, c: nat)
    requires s != [] && s[0].1.count < x.1.count && Descending(s)
    ensures WithCount(Insert(x, s), c) == WithCount(s, c) + Tie(x, c)
  {
    assert Insert(x, s) == [x] + s;
    assert ([x] + s)[1..] == s;
    if x.1.count == c {
      NoneWithCount(s, c);
    }
  }

  /** Inserting `x` adds it after the entries that share its count. */
  lemma {:induction false} InsertKeepsTies(x: (string, LanguageStat), s: LanguageTable, c: nat)
    requires Descending(s)
    ensures WithCount(Insert(x, s), c) == WithCount(s, c) + Tie(x, c)
  {
    if s == [] {
      assert WithCount([x], c) == Tie(x, c) + WithCount([], c);
      assert Tie(x, c) + [] == Tie(x, c);
    } else if s[0].1.count >= x.1.count {
      InsertKeepsTies(x, s[1..], c);
      InsertTiesBehind(x, s, c);
    } else {
      InsertTiesAhead(x, s, c);
    }
  }

  /** The sort is stable: entries with equal counts keep their relative order. */
  lemma {:induction false} SortIsStable(t: LanguageTable, c: nat)
    ensures WithCount(SortByCount(t), c) == WithCount(t, c)
  {
    if t != [] {
      var p := t[..|t| - 1];
      var x := t[|t| - 1];
      assert t == p + [x];
      SortIsStable(p, c);
      InsertKeepsTies(x, SortByCount(p), c);
      WithCountAppend(p, [x], c);
      assert WithCount([x], c) == Tie(x, c) by {
        assert [x][1..] == [];
      }
    }
  }

  lemma {:induction false} TotalCountAppend(a: LanguageTable, b: LanguageTable)
    ensures TotalCount(a + b) == TotalCount(a) + TotalCount(b)
  {
    if b != [] {
      var q := b[..|b| - 1];
      assert (a + b)[..|a + b| - 1] == a + q;
      TotalCountAppend(a, q);
    } else {
      assert a + b == a;
    }
  }

  lemma {:induction false} TotalCountInsert(x: (string, LanguageStat), s: LanguageTable)
    ensures TotalCount(Insert(x, s)) == TotalCount(s) + x.1.count
  {
    if s == [] {
      assert [x] == [] + [x];
    } else if s[0].1.count >= x.1.count {
      TotalCountInsert(x, s[1..]);
      TotalCountAppend([s[0]], Insert(x, s[1..]));
      TotalCountAppend([s[0]], s[1..]);
      assert s == [s[0]] + s[1..];
      assert [s[0]] == [] + [s[0]];
    } else {
      TotalCountAppend([x], s);
      assert [x] == [] + [x];
    }
  }

  /** Sorting loses no repository. */
  lemma {:induction false} SortKeepsTotal(t: LanguageTable)
    ensures TotalCount(SortByCount(t)) == TotalCount(t)
  {
    if t != [] {
      var p := t[..|t| - 1];
      SortKeepsTotal(p);
      TotalCountInsert(t[|t| - 1], SortByCount(p));
    }
  }

  // ---------------------------------------------------------------------------
  // The six most used languages and "Others"
  // ---------------------------------------------------------------------------

  const Shown: nat := 6
  const OthersName: string := "Others"
  const OthersColor: string := "#808080"

  /** No key appears twice, as in a dictionary. */
  predicate UniqueKeys(table: LanguageTable) {
    forall i, j :: 0 <= i < j < |table| ==> table[i].0 != table[j].0
  }

  /** `d[key] = value` on a dictionary: replaced in place when present,
      appended when new. */
  function Upsert(table: LanguageTable, key: string, v: LanguageStat): (r: LanguageTable)
    ensures (key, v) in r
    ensures |table| <= |r| <= |table| + 1
    ensures forall i :: 0 <= i < |table| && table[i].0 != key ==> r[i] == table[i]
    ensures (exists i :: 0 <= i < |table| && table[i].0 == key) ==> |r| == |table|
    ensures (forall i :: 0 <= i < |table| ==> table[i].0 != key) ==> r == table + [(key, v)]
    ensures UniqueKeys(table) ==> UniqueKeys(r)
    ensures UniqueKeys(table) ==> forall i :: 0 <= i < |r| && r[i].0 == key ==> r[i] == (key, v)
  {
    var k := IndexOfKey(table, key);
    if k < |table| then
      assert table[k := (key, v)][k] == (key, v);
      table[k := (key, v)]
    else table + [(key, v)]
  }

  /** How many entries the chart keeps by name. */
  function KeptCount(t: LanguageTable): nat {
    if |t| < Shown then |t| else Shown
  }

  /** The entry that stands for every dropped language. */
  function Others(t: LanguageTable): (string, LanguageStat) {
    (OthersName, LanguageStat(TotalCount(SortByCount(t)[KeptCount(t)..]), Some(OthersColor)))
  }

  /** `top_languages`: the first six of the sorted list, then "Others" with
      the dropped languages' repositories when any language was dropped. */
  function TopLanguages(t: LanguageTable): (r: LanguageTable)
    ensures KeptCount(t) <= |r| <= Shown + 1
    ensures |t| <= Shown ==> r == SortByCount(t)
    ensures |t| > Shown ==> Others(t) in r
    ensures forall i :: 0 <= i < KeptCount(t) && SortByCount(t)[i].0 != OthersName ==>
      r[i] == SortByCount(t)[i]
  {
    var sorted := SortByCount(t);
    var top := sorted[..KeptCount(t)];
    if |t| <= Shown then
      assert top == sorted;
      top
    else Upsert(top, OthersName, Others(t).1)
  }

  /** Every language kept by name has at least as many repositories as every
      language folded into "Others". */
  lemma KeptOutnumberDropped(t: LanguageTable)
    ensures forall i, j :: 0 <= i < KeptCount(t) <= j < |t| && TopLanguages(t)[i].0 != OthersName ==>
      TopLanguages(t)[i].1.count >= SortByCount(t)[j].1.count
  {
  }

  /** A key that no entry has is not found. */
  lemma NoSuchKey(table: LanguageTable, key: string)
    requires forall i :: 0 <= i < |table| ==> table[i].0 != key
    ensures IndexOfKey(table, key) == |table|
  {
  }

  lemma SplitTotal(s: LanguageTable, n: nat)
    requires n <= |s|
    ensures TotalCount(s) == TotalCount(s[..n]) + TotalCount(s[n..])
  {
    assert s == s[..n] + s[n..];
    TotalCountAppend(s[..n], s[n..]);
  }

  lemma AppendOneTotal(a: LanguageTable, x: (string, LanguageStat))
    ensures TotalCount(a + [x]) == TotalCount(a) + x.1.count
  {
    assert (a + [x])[..|a|] == a;
  }

  /** A name no entry has is still absent after sorting. */
  lemma NoKeyAfterSort(t: LanguageTable, key: string)
    requires forall i :: 0 <= i < |t| ==> t[i].0 != key
    ensures forall i :: 0 <= i < |SortByCount(t)| ==> SortByCount(t)[i].0 != key
  {
    var s := SortByCount(t);
    SortIsPermutation(t);
    forall i | 0 <= i < |s|
      ensures s[i].0 != key
    {
      assert s[i] in multiset(s);
      assert s[i] in t;
    }
  }

  /** With no language named "Others", the "Others" entry is appended after
      the six kept languages. */
  lemma OthersAppended(t: LanguageTable)
    requires forall i :: 0 <= i < |t| ==> t[i].0 != OthersName
    requires |t| > Shown
    ensures TopLanguages(t) == SortByCount(t)[..Shown] + [Others(t)]
  {
    var top := SortByCount(t)[..Shown];
    NoKeyAfterSort(t, OthersName);
    NoSuchKey(top, OthersName);
  }

  /** Keeping a prefix and appending one entry that holds the rest's total
      keeps the total. */
  lemma FoldTailTotal(s: LanguageTable, n: nat, x: (string, LanguageStat))
    requires n <= |s| && x.1.count == TotalCount(s[n..])
    ensures TotalCount(s[..n] + [x]) == TotalCount(s)
  {
    SplitTotal(s, n);
    AppendOneTotal(s[..n], x);
  }

  /** More than six languages: the six kept and "Others" hold every repository. */
  lemma OthersKeepTotal(t: LanguageTable)
    requires forall i :: 0 <= i < |t| ==> t[i].0 != OthersName
    requires |t| > Shown
    ensures TotalCount(TopLanguages(t)) == TotalCount(SortByCount(t))
  {
    assert TopLanguages(t) == SortByCount(t)[..Shown] + [Others(t)] by {
      OthersAppended(t);
    }
    FoldTailTotal(SortByCount(t), Shown, Others(t));
  }

  /** With no language named "Others", the chart's slices add up to the
      pie's `total`, the repositories of all languages together. */
  lemma TopLanguagesKeepTotal(t: LanguageTable)
    requires forall i :: 0 <= i < |t| ==> t[i].0 != OthersName
    ensures TotalCount(TopLanguages(t)) == TotalCount(t)
  {
    SortKeepsTotal(t);
    if |t| > Shown {
      OthersKeepTotal(t);
    }
  }

  /** The pie's `total` is the number of repositories with a primary language. */
  lemma PieTotalCountsRepositories(tags: seq<Tag>)
    ensures TotalCount(SortByCount(Table(tags))) == |tags|
  {
    SortKeepsTotal(Table(tags));
    TableCountsEveryRepository(tags);
  }

  // ---------------------------------------------------------------------------
  // Achievements
  // ---------------------------------------------------------------------------

  datatype Achievement = Achievement(title: string, required: nat)

  const StreakAchievements: seq<Achievement> := [
    Achievement("Streak Beginner", 2), Achievement("Streak Novice", 7),
    Achievement("Streak Apprentice", 14), Achievement("Streak Journeyman", 30),
    Achievement("Streak Expert", 60), Achievement("Streak Master", 90),
    Achievement("Streak Legend", 120)]

  const ContributionAchievements: seq<Achievement> := [
    Achievement("Contributor", 50), Achievement("Regular Contributor", 100),
    Achievement("Active Contributor", 500), Achievement("Dedicated Contributor", 1000),
    Achievement("Seasoned Contributor", 5000), Achievement("GitHub Legend", 10000)]

  /** Thresholds are positive and strictly increasing along the list. */
  predicate Ladder(list: seq<Achievement>) {
    (forall i :: 0 <= i < |list| ==> list[i].required > 0) &&
    (forall i, j :: 0 <= i < j < |list| ==> list[i].required < list[j].required)
  }

  lemma AchievementListsAreLadders()
    ensures Ladder(StreakAchievements) && Ladder(ContributionAchievements)
  {
  }

  /** `min(100, value / required * 100)`. */
  function Progress(value: nat, required: nat): (r: real)
    requires required > 0
    ensures 0.0 <= r <= 100.0
    ensures r == 100.0 <==> value >= required
    ensures r > 0.0 <==> value > 0
    ensures value < required ==> r * required as real == value as real * 100.0
  {
    var p := value as real / required as real * 100.0;
    if p < 100.0 then p else 100.0
  }

  /** Progress never goes down as the value grows. */
  lemma ProgressMonotone(v: nat, w: nat, required: nat)
    requires required > 0 && v <= w
    ensures Progress(v, required) <= Progress(w, required)
  {
    var r := required as real;
    assert v as real / r <= w as real / r by {
      assert v as real / r * r == v as real;
      assert w as real / r * r == w as real;
    }
  }

  /** How one achievement is shown: unlocked, or locked with its progress. */
  datatype Badge = Badge(title: string, unlocked: bool, progress: real)

  /** The badges of one list for a value: `current_streak` for the streak
      list, `total_contributions` for the contribution list. */
  function Badges(value: nat, list: seq<Achievement>): (r: seq<Badge>)
    requires forall i :: 0 <= i < |list| ==> list[i].required > 0
    ensures |r| == |list|
    ensures forall i :: 0 <= i < |r| ==> r[i].title == list[i].title
    ensures forall i :: 0 <= i < |r| ==> (r[i].unlocked <==> value >= list[i].required)
    ensures forall i :: 0 <= i < |r| ==> (r[i].unlocked <==> r[i].progress == 100.0)
    ensures forall i :: 0 <= i < |r| ==> r[i].progress == Progress(value, list[i].required)
  {
    seq(|list|, i requires 0 <= i < |list| =>
      Badge(list[i].title, value >= list[i].required, Progress(value, list[i].required)))
  }

  /** On a ladder the unlocked achievements come first: unlocking one means
      every earlier one is unlocked too. */
  lemma UnlockedFormPrefix(value: nat, list: seq<Achievement>)
    requires Ladder(list)
    ensures forall i, j :: 0 <= i < j < |list| && Badges(value, list)[j].unlocked ==>
      Badges(value, list)[i].unlocked
  {
  }

  /** A larger value keeps every unlocked achievement unlocked and every
      progress at least as high. */
  lemma BadgesMonotone(v: nat, w: nat, list: seq<Achievement>)
    requires forall i :: 0 <= i < |list| ==> list[i].required > 0
    requires v <= w
    ensures forall i :: 0 <= i < |list| ==>
      (Badges(v, list)[i].unlocked ==> Badges(w, list)[i].unlocked) &&
      Badges(v, list)[i].progress <= Badges(w, list)[i].progress
  {
    forall i | 0 <= i < |list|
      ensures Badges(v, list)[i].progress <= Badges(w, list)[i].progress
    {
      ProgressMonotone(v, w, list[i].required);
    }
  }
}
