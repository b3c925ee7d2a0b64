/** The shape of the GraphQL response the analytics engine reads, and the way
    Python's dictionary access behaves on it: an absent key raises KeyError,
    a null object that is then indexed or iterated raises TypeError. */
module Json {

  datatype Option<+T> = None | Some(value: T) {
    /** `d.get(key, default)` for a key whose value is never null. */
    function GetOr(default: T): T {
      match this
      case Some(v) => v
      case None => default
    }
  }

  /** A key of a JSON object: absent, present with value null, or present with a value. */
  datatype Field<+T> = Absent | Null | Present(value: T)

  /** The Python exceptions the engine's code can raise. */
  datatype Fault = KeyError | TypeError | ValueError | ZeroDivisionError | AttributeError

  /** A computation that either yields a value or raises. */
  datatype Got<+T> = Ok(value: T) | Raised(fault: Fault)

  /** `obj[key]` whose value is then used as an object or a list. */
  function Subscript<T>(f: Field<T>): (r: Got<T>)
    ensures r.Ok? <==> f.Present?
    ensures r.Ok? ==> r.value == f.value
    ensures f.Absent? ==> r == Raised(KeyError)
    ensures f.Null? ==> r == Raised(TypeError)
  {
    match f
    case Absent => Raised(KeyError)
    case Null => Raised(TypeError)
    case Present(v) => Ok(v)
  }

  // Payload entities, named after the GraphQL fields they hold.
  datatype RawDay = RawDay(date: Option<string>, contributionCount: Option<nat>)
  datatype RawWeek = RawWeek(contributionDays: Field<seq<RawDay>>)
  datatype Calendar = Calendar(totalContributions: Option<nat>, weeks: Field<seq<RawWeek>>)
  datatype Collection = Collection(restrictedContributionsCount: Option<nat>, contributionCalendar: Field<Calendar>)
  datatype LanguageNode = LanguageNode(name: Option<string>, color: Field<string>)
  datatype Repo = Repo(primaryLanguage: Field<LanguageNode>)
  datatype Edge = Edge(node: Field<Repo>)
  datatype Repositories = Repositories(edges: Field<seq<Edge>>)
  datatype User = User(contributionsCollection: Field<Collection>, repositories: Field<Repositories>)
  datatype Data = Data(user: Field<User>)
  /** The decoded response: `{"data": {"user": ...}}`, or the `{"errors": ...}`
      object the fetch layer returns when the request fails. */
  datatype Payload = Payload(data: Field<Data>, errors: Option<string>) {
    /** An empty dictionary, the only payload Python treats as false. */
    predicate IsEmpty() {
      data.Absent? && errors.None?
    }
  }

  /** `data['data']['user']`. */
  function UserOf(p: Payload): (r: Got<User>)
    ensures r.Ok? <==> p.data.Present? && p.data.value.user.Present?
    ensures r.Raised? ==> r.fault == KeyError || r.fault == TypeError
  {
    match Subscript(p.data)
    case Raised(f) => Raised(f)
    case Ok(d) => Subscript(d.user)
  }

  /** `data['data']['user']['contributionsCollection']`. */
  function CollectionOf(p: Payload): (r: Got<Collection>)
    ensures r.Raised? ==> r.fault == KeyError || r.fault == TypeError
  {
    match UserOf(p)
    case Raised(f) => Raised(f)
    case Ok(u) => Subscript(u.contributionsCollection)
  }

  /** `...['contributionsCollection']['contributionCalendar']`. */
  function CalendarOf(p: Payload): (r: Got<Calendar>)
    ensures r.Raised? ==> r.fault == KeyError || r.fault == TypeError
  {
    match CollectionOf(p)
    case Raised(f) => Raised(f)
    case Ok(c) => Subscript(c.contributionCalendar)
  }

  /** True when every week carries its `contributionDays` list. */
  predicate AllWeeksPresent(weeks: seq<RawWeek>) {
    forall w :: 0 <= w < |weeks| ==> weeks[w].contributionDays.Present?
  }

  /** Number of day records in the weeks before week `w`. */
  function Offset(weeks: seq<RawWeek>, w: nat): nat
    requires w <= |weeks| && AllWeeksPresent(weeks)
  {
    if w == 0 then 0 else |weeks[0].contributionDays.value| + Offset(weeks[1..], w - 1)
  }

  /** `[day for week in weeks for day in week['contributionDays']]`; the first
      week without its list raises. */
  function FlattenWeeks(weeks: seq<RawWeek>): (r: Got<seq<RawDay>>)
    ensures r.Ok? <==> AllWeeksPresent(weeks)
    ensures r.Ok? ==> |r.value| == Offset(weeks, |weeks|)
    ensures r.Raised? ==> r.fault == KeyError || r.fault == TypeError
  {
    if weeks == [] then Ok([])
    else
      match Subscript(weeks[0].contributionDays)
      case Raised(f) => Raised(f)
      case Ok(first) =>
        match FlattenWeeks(weeks[1..])
        case Raised(f) => Raised(f)
        case Ok(rest) => Ok(first + rest)
  }

  /** The flattened list is every week's days, in order: day `k` of week `w`
      sits at position `Offset(weeks, w) + k`. */
  lemma {:induction false} FlattenKeepsOrder(weeks: seq<RawWeek>, w: nat, k: nat)
    requires FlattenWeeks(weeks).Ok?
    requires w < |weeks| && AllWeeksPresent(weeks) && k < |weeks[w].contributionDays.value|
    ensures Offset(weeks, w) + k < |FlattenWeeks(weeks).value|
    ensures FlattenWeeks(weeks).value[Offset(weeks, w) + k] == weeks[w].contributionDays.value[k]
  {
    var first := weeks[0].contributionDays.value;
    var rest := FlattenWeeks(weeks[1..]).value;
    assert FlattenWeeks(weeks).value == first + rest;
    if w > 0 {
      FlattenKeepsOrder(weeks[1..], w - 1, k);
      assert weeks[1..][w - 1] == weeks[w];
    }
  }
}
