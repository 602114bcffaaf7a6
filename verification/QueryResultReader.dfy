/** The reader of query results as it runs.

    A cursor moves over the tokens. Every method is tied to the function of QueryResults that says what
    it reads, also where it ends with an error or leaves what is defined. */
module QueryResultReader {
  import opened Wrappers
  import opened Serialization
  import opened SerializationCursor
  import opened QueryResults

  /** What a method gives: a value, an exception, or a point behind which nothing is defined. */
  datatype Reply<+T> = Value(value: T) | Exception | NotDefined
  {
    predicate IsFailure() { !Value? }

    function PropagateFailure<U>(): Reply<U>
      requires IsFailure()
    {
      if Exception? then Exception else NotDefined
    }

    function Extract(): T
      requires !IsFailure()
    {
      value
    }
  }

  function FromOption<T>(o: Option<T>): Reply<T> { if o.Some? then Value(o.value) else Exception }

  ghost predicate Agrees<T>(o: Read<T>, r: Reply<T>, rest: Tokens)
  {
    match o
    case Got(value, end) => r == Value(value) && rest == end
    case Refused => r == Exception
    case Undefined => r == NotDefined
  }

  /** What has been read in front of what is still to be read. */
  function Behind<T>(a: seq<T>, r: Read<seq<T>>): Read<seq<T>>
  {
    match r
    case Got(b, rest) => Got(a + b, rest)
    case o => o
  }

  lemma BehindTwice<T>(a: seq<T>, b: seq<T>, r: Read<seq<T>>)
    ensures Behind(a, Behind(b, r)) == Behind(a + b, r)
    ensures Behind([], r) == r
  {
    if r.Got? {
      Assoc(a, b, r.value);
      Unit(r.value);
    }
  }

  method GetText(env: Env, it: Cursor) returns (r: Reply<string>)
    requires it.Valid()
    modifies it`pos
    ensures it.Valid() && Agrees(Plain(Serialization.GetText(env.cv, old(it.Rest()))), r, it.Rest())
  {
    var text := it.GetString(env.cv);
    return FromOption(text);
  }

  method GetInt(env: Env, it: Cursor) returns (r: Reply<int>)
    requires it.Valid()
    modifies it`pos
    ensures it.Valid() && Agrees(Plain(Serialization.GetInt(env.cv, old(it.Rest()))), r, it.Rest())
  {
    var number := it.GetInteger(env.cv);
    return FromOption(number);
  }

  method GetFloat(env: Env, it: Cursor) returns (r: Reply<real>)
    requires it.Valid()
    modifies it`pos
    ensures it.Valid() && Agrees(Plain(GetReal(env, old(it.Rest()))), r, it.Rest())
  {
    if it.Tag() != TagValue { return Exception; }
    r := FromOption(env.float(it.toks[it.pos].v));
    it.Skip();
  }

  method GetField(env: Env, it: Cursor) returns (r: Reply<Range>)
    requires it.Valid()
    modifies it`pos
    ensures it.Valid() && Agrees(Plain(ReadRange(env.cv, old(it.Rest()))), r, it.Rest())
  {
    var field := it.GetRange(env.cv);
    return FromOption(field);
  }

  method ExpectClose(it: Cursor) returns (r: Reply<()>)
    requires it.Valid()
    modifies it`pos
    ensures it.Valid() && Agrees(Closed((), old(it.Rest())), r, it.Rest())
  {
    var ok := it.TakeClose();
    return if ok then Value(()) else Exception;
  }

  // ---- summary elements ----

  method GetSummaryMember(env: Env, it: Cursor, idx: int, m: SummaryMembers) returns (r: Reply<SummaryMembers>)
    requires it.Valid()
    modifies it`pos
    ensures it.Valid() && Agrees(ReadSummaryMember(env, idx, old(it.Rest()), m), r, it.Rest())
  {
    if idx == 0 {
      if m.name.Some? { return Exception; }
      var name :- GetText(env, it);
      return Value(m.(name := Some(name)));
    } else if idx == 1 {
      if m.value.Some? { return Exception; }
      var value :- GetText(env, it);
      return Value(m.(value := Some(value)));
    } else if idx == 2 {
      if m.weight.Some? { return Exception; }
      var weight :- GetFloat(env, it);
      return Value(m.(weight := Some(weight)));
    } else if idx == 3 {
      if m.index.Some? { return Exception; }
      var index :- GetInt(env, it);
      return Value(m.(index := Some(index)));
    }
    return NotDefined;
  }

  method GetSummaryMembers(env: Env, it: Cursor) returns (r: Reply<SummaryMembers>)
    requires it.Valid()
    modifies it`pos
    ensures it.Valid() && Agrees(ReadSummaryMembers(env, old(it.Rest()), NO_SUMMARY), r, it.Rest())
  {
    ghost var all := ReadSummaryMembers(env, it.Rest(), NO_SUMMARY);
    var m := NO_SUMMARY;
    while it.Tag() == TagName
      invariant it.Valid() && ReadSummaryMembers(env, it.Rest(), m) == all
      decreases |it.toks| - it.pos
    {
      var idx := env.index(SummaryNames, it.toks[it.pos].name);
      it.Skip();
      m :- GetSummaryMember(env, it, idx, m);
    }
    return Value(m);
  }

  method GetSummaryElement(env: Env, it: Cursor) returns (r: Reply<Summary>)
    requires it.Valid()
    modifies it`pos
    ensures it.Valid() && Agrees(ReadSummary(env, old(it.Rest())), r, it.Rest())
  {
    if it.Tag() == TagName {
      var m :- GetSummaryMembers(env, it);
      return FromOption(SummaryOf(m));
    }
    var name :- GetText(env, it);
    if it.Tag() != TagValue { return Exception; }
    var value :- GetText(env, it);
    var weight, index := 1.0, -1;
    if it.Tag() == TagValue { weight :- GetFloat(env, it); }
    if it.Tag() == TagValue { index :- GetInt(env, it); }
    return Value(Summary(name, value, weight, index));
  }

  method GetSummaryElements(env: Env, it: Cursor) returns (r: Reply<seq<Summary>>)
    requires it.Valid()
    modifies it`pos
    ensures it.Valid() && Agrees(ReadSummaries(env, old(it.Rest())), r, it.Rest())
  {
    ghost var all := ReadSummaries(env, it.Rest());
    var list: seq<Summary> := [];
    BehindTwice([], [], all);
    while it.Tag() != TagClose
      invariant it.Valid() && all == Behind(list, ReadSummaries(env, it.Rest()))
      decreases |it.toks| - it.pos
    {
      if it.Tag() != TagOpen { return Exception; }
      ghost var here := ReadSummaries(env, it.Rest());
      it.Skip();
      var s :- GetSummaryElement(env, it);
      var _ :- ExpectClose(it);
      assert here == Behind([s], ReadSummaries(env, it.Rest()));
      BehindTwice(list, [s], ReadSummaries(env, it.Rest()));
      list := list + [s];
    }
    Unit(list);
    return Value(list);
  }

  method GetSummaryElementListValue(env: Env, it: Cursor) returns (r: Reply<seq<Summary>>)
    requires it.Valid()
    modifies it`pos
    ensures it.Valid() && Agrees(ReadSummaryValue(env, old(it.Rest())), r, it.Rest())
  {
    if it.Tag() != TagOpen { return Exception; }
    it.Skip();
    var list;
    if it.Tag() == TagOpen {
      list :- GetSummaryElements(env, it);
    } else {
      var s :- GetSummaryElement(env, it);
      list := [s];
    }
    var _ :- ExpectClose(it);
    return Value(list);
  }

  // ---- ranked documents ----

  method GetRankedMember(env: Env, it: Cursor, idx: int, m: RankedMembers) returns (r: Reply<RankedMembers>)
    requires it.Valid()
    modifies it`pos
    ensures it.Valid() && Agrees(ReadRankedMember(env, idx, old(it.Rest()), m), r, it.Rest())
  {
    if idx == 0 {
      if m.docno.Some? { return Exception; }
      var docno :- GetInt(env, it);
      return Value(m.(docno := Some(docno)));
    } else if idx == 1 {
      if m.weight.Some? { return Exception; }
      var weight :- GetFloat(env, it);
      return Value(m.(weight := Some(weight)));
    } else if idx == 2 {
      if m.field.Some? { return Exception; }
      var field :- GetField(env, it);
      return Value(m.(field := Some(field)));
    } else if idx == 3 {
      if m.summary.Some? { return Exception; }
      var summary :- GetSummaryElementListValue(env, it);
      return Value(m.(summary := Some(summary)));
    }
    return NotDefined;
  }

  method GetRankedMembers(env: Env, it: Cursor) returns (r: Reply<RankedMembers>)
    requires it.Valid()
    modifies it`pos
    ensures it.Valid() && Agrees(ReadRankedMembers(env, old(it.Rest()), NO_RANKED), r, it.Rest())
  {
    ghost var all := ReadRankedMembers(env, it.Rest(), NO_RANKED);
    var m := NO_RANKED;
    while it.Tag() == TagName
      invariant it.Valid() && ReadRankedMembers(env, it.Rest(), m) == all
      decreases |it.toks| - it.pos
    {
      var idx := env.index(RankedNames, it.toks[it.pos].name);
      it.Skip();
      m :- GetRankedMember(env, it, idx, m);
    }
    return Value(m);
  }

  method GetResultDocument(env: Env, it: Cursor) returns (r: Reply<Ranked>)
    requires it.Valid()
    modifies it`pos
    ensures it.Valid() && Agrees(ReadRanked(env, old(it.Rest())), r, it.Rest())
  {
    if it.Tag() == TagName {
      var m :- GetRankedMembers(env, it);
      return FromOption(RankedOf(m));
    }
    var docno :- GetInt(env, it);
    if it.Tag() != TagValue { return Exception; }
    var weight :- GetFloat(env, it);
    var field, summary := Range(0, 0), [];
    if it.Tag() != TagClose { field :- GetField(env, it); }
    if it.Tag() != TagClose { summary :- GetSummaryElementListValue(env, it); }
    return Value(Ranked(docno, field, weight, summary));
  }

  method GetResultDocuments(env: Env, it: Cursor) returns (r: Reply<seq<Ranked>>)
    requires it.Valid()
    modifies it`pos
    ensures it.Valid() && Agrees(ReadRanks(env, old(it.Rest())), r, it.Rest())
  {
    ghost var all := ReadRanks(env, it.Rest());
    var list: seq<Ranked> := [];
    BehindTwice([], [], all);
    while it.Tag() != TagClose
      invariant it.Valid() && all == Behind(list, ReadRanks(env, it.Rest()))
      decreases |it.toks| - it.pos
    {
      if it.Tag() != TagOpen { return Exception; }
      ghost var here := ReadRanks(env, it.Rest());
      it.Skip();
      var d :- GetResultDocument(env, it);
      var _ :- ExpectClose(it);
      assert here == Behind([d], ReadRanks(env, it.Rest()));
      BehindTwice(list, [d], ReadRanks(env, it.Rest()));
      list := list + [d];
    }
    Unit(list);
    return Value(list);
  }

  method GetResultDocumentListValue(env: Env, it: Cursor) returns (r: Reply<seq<Ranked>>)
    requires it.Valid()
    modifies it`pos
    ensures it.Valid() && Agrees(ReadRankValue(env, old(it.Rest())), r, it.Rest())
  {
    if it.Tag() != TagOpen { return Exception; }
    it.Skip();
    var list;
    if it.Tag() == TagOpen {
      list :- GetResultDocuments(env, it);
    } else {
      var d :- GetResultDocument(env, it);
      list := [d];
    }
    var _ :- ExpectClose(it);
    return Value(list);
  }

  // ---- query results ----

  method GetResultMember(env: Env, it: Cursor, idx: int, m: ResultMembers) returns (r: Reply<ResultMembers>)
    requires it.Valid()
    modifies it`pos
    ensures it.Valid() && Agrees(ReadResultMember(env, idx, old(it.Rest()), m), r, it.Rest())
  {
    if idx == 0 {
      if m.pass.Some? { return Exception; }
      var pass :- GetInt(env, it);
      return Value(m.(pass := Some(pass)));
    } else if idx == 1 {
      if m.nofRanked.Some? { return Exception; }
      var count :- GetInt(env, it);
      return Value(m.(nofRanked := Some(count)));
    } else if idx == 2 {
      if m.nofVisited.Some? { return Exception; }
      var count :- GetInt(env, it);
      return Value(m.(nofVisited := Some(count)));
    } else if idx == 3 {
      if m.ranks.Some? { return Exception; }
      var ranks :- GetResultDocumentListValue(env, it);
      return Value(m.(ranks := Some(ranks)));
    }
    return NotDefined;
  }

  method GetResultMembers(env: Env, it: Cursor) returns (r: Reply<ResultMembers>)
    requires it.Valid()
    modifies it`pos
    ensures it.Valid() && Agrees(ReadResultMembers(env, old(it.Rest()), NO_RESULT), r, it.Rest())
  {
    ghost var all := ReadResultMembers(env, it.Rest(), NO_RESULT);
    var m := NO_RESULT;
    while it.Tag() == TagName
      invariant it.Valid() && ReadResultMembers(env, it.Rest(), m) == all
      decreases |it.toks| - it.pos
    {
      var idx := env.index(ResultNames, it.toks[it.pos].name);
      it.Skip();
      m :- GetResultMember(env, it, idx, m);
    }
    return Value(m);
  }

  /** Main operation: a query result from its serialization, as ReadResult says. */
  method GetQueryResult(env: Env, content: Tokens) returns (r: Reply<QueryResult>)
    ensures match ReadResult(env, content)
            case Got(value, _) => r == Value(value)
            case Refused => r == Exception
            case Undefined => r == NotDefined
  {
    var it := new Cursor(content);
    if it.Tag() == TagName {
      var m :- GetResultMembers(env, it);
      return FromOption(ResultOf(m));
    }
    var pass :- GetInt(env, it);
    if it.Tag() != TagValue { return Exception; }
    var ranked :- GetInt(env, it);
    if it.Tag() != TagValue { return Exception; }
    var visited :- GetInt(env, it);
    var ranks, summary := [], [];
    if it.Tag() != TagClose { ranks :- GetResultDocumentListValue(env, it); }
    if it.Tag() != TagClose { summary :- GetSummaryElementListValue(env, it); }
    return Value(QueryResult(pass, ranked, visited, ranks, summary));
  }
}
