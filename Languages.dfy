/** Primary languages of a user's repositories: which repositories count,
    and the table `process_language_data` builds, name by name in order of
    first appearance, with a repository count and the colour of the first
    repository seen in that language. */
module Languages {
  import opened Json

  /** The grey `.get('color', '#808080')` falls back to. */
  const DefaultColor: string := "#808080"

  /** A repository that counts: its language's name and colour (None when
      the payload's colour is null). */
  datatype Tag = Tag(name: string, color: Option<string>)

  /** `{'count': ..., 'color': ...}`. */
  datatype LanguageStat = LanguageStat(count: nat, color: Option<string>)

  /** A dictionary keyed by language name, as its entries in insertion order. */
  type LanguageTable = seq<(string, LanguageStat)>

  /** `primary_language.get('color', '#808080')`. */
  function ColorOf(f: Field<string>): (c: Option<string>)
    ensures f.Absent? ==> c == Some(DefaultColor)
    ensures f.Present? ==> c == Some(f.value)
    ensures c.None? <==> f.Null?
  {
    match f
    case Absent => Some(DefaultColor)
    case Null => None
    case Present(c) => Some(c)
  }

  /** One edge of `repositories`: `repo = edge['node']`, then
      `if repo['primaryLanguage']:` (null and the empty object are false),
      then `repo['primaryLanguage']['name']`. Ok(None) when the repository
      is skipped. */
  function EdgeTag(e: Edge): (r: Got<Option<Tag>>)
    ensures r.Ok? <==> (e.node.Present? && !e.node.value.primaryLanguage.Absent? &&
                        (e.node.value.primaryLanguage.Present? ==>
                           e.node.value.primaryLanguage.value.name.Some? ||
                           e.node.value.primaryLanguage.value.color.Absent?))
    ensures r.Ok? && r.value.Some? ==>
      var lang := e.node.value.primaryLanguage;
      lang.Present? && lang.value.name == Some(r.value.value.name)
    ensures e.node.Present? && e.node.value.primaryLanguage.Present? &&
            e.node.value.primaryLanguage.value.name.Some? ==>
      var lang := e.node.value.primaryLanguage.value;
      r == Ok(Some(Tag(lang.name.value, ColorOf(lang.color))))
    ensures r == Ok(None) <==>
      e.node.Present? &&
      (e.node.value.primaryLanguage.Null? ||
       (e.node.value.primaryLanguage.Present? &&
        e.node.value.primaryLanguage.value.name.None? && e.node.value.primaryLanguage.value.color.Absent?))
  {
    match e.node
    case Absent => Raised(KeyError)
    case Null => Raised(TypeError)
    case Present(repo) =>
      match repo.primaryLanguage
      case Absent => Raised(KeyError)
      case Null => Ok(None)
      case Present(lang) =>
        if lang.name.None? && lang.color.Absent? then Ok(None)
        else if lang.name.None? then Raised(KeyError)
        else Ok(Some(Tag(lang.name.value, ColorOf(lang.color))))
  }

  /** `data['data']['user']['repositories']['edges']`. */
  function EdgesOf(p: Payload): Got<seq<Edge>> {
    match UserOf(p)
    case Raised(f) => Raised(f)
    case Ok(u) =>
      match Subscript(u.repositories)
      case Raised(f) => Raised(f)
      case Ok(repos) => Subscript(repos.edges)
  }

  /** The repositories that count, in order; raises when any edge raises. */
  function Tags(edges: seq<Edge>): (r: Got<seq<Tag>>)
    ensures r.Ok? <==> forall i :: 0 <= i < |edges| ==> EdgeTag(edges[i]).Ok?
    ensures r.Ok? ==> |r.value| <= |edges|
  {
    if edges == [] then Ok([])
    else
      var p := edges[..|edges| - 1];
      assert forall i :: 0 <= i < |p| ==> p[i] == edges[i];
      match Tags(p)
      case Raised(f) => Raised(f)
      case Ok(tags) =>
        match EdgeTag(edges[|edges| - 1])
        case Raised(f) => Raised(f)
        case Ok(None) => Ok(tags)
        case Ok(Some(t)) => Ok(tags + [t])
  }

  /** The edge carries a language the loop counts. */
  predicate Counted(e: Edge) {
    EdgeTag(e).Ok? && EdgeTag(e).value.Some?
  }

  /** The positions of the counted edges, in increasing order. */
  function CountedPositions(edges: seq<Edge>): (ix: seq<nat>)
    ensures forall k :: 0 <= k < |ix| ==> ix[k] < |edges| && Counted(edges[ix[k]])
    ensures forall k, l :: 0 <= k < l < |ix| ==> ix[k] < ix[l]
    ensures forall i :: 0 <= i < |edges| && Counted(edges[i]) ==> i in ix
  {
    if edges == [] then []
    else
      var p := edges[..|edges| - 1];
      var ix := CountedPositions(p);
      assert forall k :: 0 <= k < |ix| ==> edges[ix[k]] == p[ix[k]];
      if Counted(edges[|edges| - 1]) then ix + [|edges| - 1] else ix
  }

  /** When the loop gets through, it counts the languages of the counted
      edges, one per edge, in the order of the edges. */
  lemma {:induction false} TagsFollowEdges(edges: seq<Edge>)
    requires Tags(edges).Ok?
    ensures var ix := CountedPositions(edges);
      && |Tags(edges).value| == |ix|
      && forall k :: 0 <= k < |ix| ==> Tags(edges).value[k] == EdgeTag(edges[ix[k]]).value.value
  {
    if edges != [] {
      var p := edges[..|edges| - 1];
      assert forall i :: 0 <= i < |p| ==> p[i] == edges[i];
      TagsFollowEdges(p);
    }
  }

  // ---------------------------------------------------------------------------
  // The reference table: names in order of first appearance, counts, colours
  // ---------------------------------------------------------------------------

  /** Number of repositories in language `name`. */
  function Occurrences(tags: seq<Tag>, name: string): nat {
    if tags == [] then 0
    else Occurrences(tags[..|tags| - 1], name) + (if tags[|tags| - 1].name == name then 1 else 0)
  }

  /** Colour of the first repository in language `name`. */
  function FirstColor(tags: seq<Tag>, name: string): Option<string> {
    if tags == [] then None
    else
      var p := tags[..|tags| - 1];
      if Occurrences(p, name) > 0 then FirstColor(p, name)
      else if tags[|tags| - 1].name == name then tags[|tags| - 1].color
      else None
  }

  /** The distinct names, in order of first appearance. */
  function Order(tags: seq<Tag>): seq<string> {
    if tags == [] then []
    else
      var o := Order(tags[..|tags| - 1]);
      var n := tags[|tags| - 1].name;
      if n in o then o else o + [n]
  }

  predicate DistinctNames(names: seq<string>) {
    forall i, j :: 0 <= i < j < |names| ==> names[i] != names[j]
  }

  /** The table the loop is meant to build, defined entry by entry. */
  function Table(tags: seq<Tag>): (t: LanguageTable)
    ensures |t| == |Order(tags)|
  {
    var o := Order(tags);
    seq(|o|, i requires 0 <= i < |o| => (o[i], LanguageStat(Occurrences(tags, o[i]), FirstColor(tags, o[i]))))
  }

  /** A name is listed exactly when some repository is in that language, and
      no name is listed twice. */
  lemma {:induction false} OrderLists(tags: seq<Tag>)
    ensures forall n :: n in Order(tags) <==> Occurrences(tags, n) > 0
    ensures DistinctNames(Order(tags))
  {
    if tags != [] {
      OrderLists(tags[..|tags| - 1]);
    }
  }

  /** Position of `name` among a dictionary's keys; `|table|` when absent. */
  function IndexOfKey<V>(table: seq<(string, V)>, name: string): (k: nat)
    ensures k <= |table|
    ensures k < |table| ==> table[k].0 == name
    ensures forall j :: 0 <= j < k ==> table[j].0 != name
  {
    if table == [] then 0
    else if table[0].0 == name then 0
    else 1 + IndexOfKey(table[1..], name)
  }

  /** One pass of the loop body: insert `{'count': 0, 'color': color}` when the
      name is new, then add one to its count. */
  function Bump(table: LanguageTable, t: Tag): LanguageTable {
    var k := IndexOfKey(table, t.name);
    if k < |table| then table[k := (t.name, LanguageStat(table[k].1.count + 1, table[k].1.color))]
    else table + [(t.name, LanguageStat(1, t.color))]
  }

  /** Adding one repository to the reference table is one pass of the loop. */
  lemma TableStep(tags: seq<Tag>, t: Tag)
    ensures Table(tags + [t]) == Bump(Table(tags), t)
  {
    var s := tags + [t];
    assert s[..|s| - 1] == tags;
    OrderLists(tags);
    var o := Order(tags);
    var table := Table(tags);
    var k := IndexOfKey(table, t.name);
    if t.name in o {
      assert k < |table| by {
        var i :| 0 <= i < |o| && o[i] == t.name;
        assert table[i].0 == t.name;
      }
      assert Table(s) == table[k := (t.name, LanguageStat(table[k].1.count + 1, table[k].1.color))];
    } else {
      assert k == |table|;
      assert Table(s) == table + [(t.name, LanguageStat(1, t.color))];
    }
  }

  /** `process_language_data`: the table, or None when any lookup raises. */
  method ProcessLanguageData(p: Payload) returns (r: Option<LanguageTable>)
    ensures r.Some? <==> EdgesOf(p).Ok? && Tags(EdgesOf(p).value).Ok?
    ensures r.Some? ==> r.value == Table(Tags(EdgesOf(p).value).value)
  {
    var found := EdgesOf(p);
    if found.Raised? {
      return None;
    }
    var edges := found.value;
    var table: LanguageTable := [];
    for i := 0 to |edges|
      invariant Tags(edges[..i]).Ok?
      invariant table == Table(Tags(edges[..i]).value)
    {
      assert edges[..i + 1][..i] == edges[..i];
      var tag := EdgeTag(edges[i]);
      if tag.Raised? {
        return None;
      }
      if tag.value.Some? {
        TableStep(Tags(edges[..i]).value, tag.value.value);
        table := Bump(table, tag.value.value);
      }
    }
    assert edges[..|edges|] == edges;
    r := Some(table);
  }

  // ---------------------------------------------------------------------------
  // What the table promises
  // ---------------------------------------------------------------------------

  function TotalCount(table: LanguageTable): nat {
    if table == [] then 0 else TotalCount(table[..|table| - 1]) + table[|table| - 1].1.count
  }

  lemma {:induction false} TotalCountUpdate(table: LanguageTable, k: nat, e: (string, LanguageStat))
    requires k < |table|
    ensures TotalCount(table[k := e]) + table[k].1.count == TotalCount(table) + e.1.count
  {
    var u := table[k := e];
    if k < |table| - 1 {
      assert u[..|u| - 1] == table[..|table| - 1][k := e];
      TotalCountUpdate(table[..|table| - 1], k, e);
    } else {
      assert u[..|u| - 1] == table[..|table| - 1];
    }
  }

  /** Every repository with a language is counted exactly once: the counts
      add up to the number of such repositories. */
  lemma {:induction false} TableCountsEveryRepository(tags: seq<Tag>)
    ensures TotalCount(Table(tags)) == |tags|
  {
    if tags != [] {
      var p := tags[..|tags| - 1];
      var t := tags[|tags| - 1];
      assert tags == p + [t];
      TableCountsEveryRepository(p);
      TableStep(p, t);
      var table := Table(p);
      var k := IndexOfKey(table, t.name);
      if k < |table| {
        TotalCountUpdate(table, k, (t.name, LanguageStat(table[k].1.count + 1, table[k].1.color)));
      } else {
        assert (table + [(t.name, LanguageStat(1, t.color))])[..|table|] == table;
      }
    }
  }

  /** The table lists each language once, with at least one repository, and
      every language of a counted repository is in it. */
  lemma TableLooksUpEveryLanguage(tags: seq<Tag>, name: string)
    ensures Occurrences(tags, name) > 0 <==> exists i :: 0 <= i < |Table(tags)| && Table(tags)[i].0 == name
    ensures forall i :: 0 <= i < |Table(tags)| ==> Table(tags)[i].1.count >= 1
    ensures forall i, j :: 0 <= i < j < |Table(tags)| ==> Table(tags)[i].0 != Table(tags)[j].0
  {
    OrderLists(tags);
    var table := Table(tags);
    if Occurrences(tags, name) > 0 {
      var i :| 0 <= i < |Order(tags)| && Order(tags)[i] == name;
      assert table[i].0 == name;
    }
  }

  /** Every edge with a language is counted exactly once: the counts add up
      to the number of such edges. */
  lemma TableCountsCountedEdges(edges: seq<Edge>)
    requires Tags(edges).Ok?
    ensures TotalCount(Table(Tags(edges).value)) == |CountedPositions(edges)|
  {
    TagsFollowEdges(edges);
    TableCountsEveryRepository(Tags(edges).value);
  }
}
