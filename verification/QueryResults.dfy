/** Query results: how they are serialized, and how one server reads the result of another. */
module QueryResults {
  import opened Wrappers
  import opened Serialization
  import SNM = StructureNameMap

  datatype Summary = Summary(name: string, value: string, weight: real, index: int)

  datatype Ranked = Ranked(docno: int, field: Range, weight: real, summary: seq<Summary>)

  datatype QueryResult =
    QueryResult(pass: int, nofRanked: int, nofVisited: int, ranks: seq<Ranked>, summary: seq<Summary>)

  /** The name tables of the readers. */
  datatype Table = SummaryNames | RankedNames | ResultNames

  function Names(t: Table): seq<string>
  {
    match t
    case SummaryNames => ["name", "value", "weight", "index"]
    case RankedNames => ["docno", "weight", "field", "summary"]
    case ResultNames => ["evalpass", "nofranked", "nofvisited", "ranks", "summary"]
  }

  /** The conversions of values, with the one to a floating point number, taken as exact, and the lookup of names. */
  datatype Env = Env(cv: Conversions, float: Value -> Option<real>, index: (Table, string) -> int)

  ghost predicate FaithfulEnv(env: Env)
  {
    && Faithful(env.cv) && (forall w :: env.float(Real(w)) == Some(w))
    && forall t, name :: env.index(t, name) == SNM.Index(SNM.Join(Names(t), ','), ',', name)
  }

  predicate IntRange(i: int) { INT_MIN <= i <= INT_MAX }

  predicate SummariesInRange(l: seq<Summary>) { forall s :: s in l ==> s.index <= INT_MAX }

  predicate RankedInRange(d: Ranked)
  {
    && IntRange(d.docno) && RangeInRange(d.field)
    && SummariesInRange(d.summary)
  }

  predicate RanksInRange(l: seq<Ranked>) { forall d :: d in l ==> RankedInRange(d) }

  predicate InRange(r: QueryResult)
  {
    && IntRange(r.pass) && IntRange(r.nofRanked) && IntRange(r.nofVisited)
    && RanksInRange(r.ranks) && SummariesInRange(r.summary)
  }

  // ---- serialization ----

  /** A weight of one is left out if no index follows, and a negative index is left out. */
  function PrintSummary(s: Summary): Tokens
  {
    [Open, Val(Str(s.name)), Val(Str(s.value))]
    + (if s.weight != 1.0 || s.index >= 0 then [Val(Real(s.weight))] else [])
    + (if s.index >= 0 then [Val(Int(s.index))] else [])
    + [Close]
  }

  function PrintSummaries(l: seq<Summary>): Tokens
  {
    if l == [] then [] else PrintSummary(l[0]) + PrintSummaries(l[1..])
  }

  function PrintRanked(d: Ranked): Tokens
  {
    [Open, Val(Int(d.docno)), Val(Real(d.weight))] + PrintRange(d.field) + [Open]
    + PrintSummaries(d.summary) + [Close, Close]
  }

  function PrintRanks(l: seq<Ranked>): Tokens
  {
    if l == [] then [] else PrintRanked(l[0]) + PrintRanks(l[1..])
  }

  function PrintTail(l: seq<Summary>): Tokens
  {
    if l == [] then [] else [Open] + PrintSummaries(l) + [Close]
  }

  function PrintResult(r: QueryResult): Tokens
  {
    [Val(Int(r.pass)), Val(Int(r.nofRanked)), Val(Int(r.nofVisited)), Open]
    + PrintRanks(r.ranks) + ([Close] + PrintTail(r.summary))
  }

  method SerializeSummary(s: Summary) returns (out: Tokens)
    ensures out == PrintSummary(s)
  {
    out := [Open, Val(Str(s.name)), Val(Str(s.value))];
    if s.weight != 1.0 || s.index >= 0 { out := out + [Val(Real(s.weight))]; }
    if s.index >= 0 { out := out + [Val(Int(s.index))]; }
    out := out + [Close];
  }

  method SerializeSummaries(l: seq<Summary>) returns (out: Tokens)
    ensures out == PrintSummaries(l)
  {
    out := [];
    var vi := 0;
    while vi < |l|
      invariant 0 <= vi <= |l| && PrintSummaries(l) == out + PrintSummaries(l[vi..])
    {
      var element := SerializeSummary(l[vi]);
      assert l[vi..][1..] == l[vi + 1..];
      Assoc(out, element, PrintSummaries(l[vi + 1..]));
      out := out + element;
      vi := vi + 1;
    }
    Unit(out);
  }

  method SerializeRanks(l: seq<Ranked>) returns (out: Tokens)
    ensures out == PrintRanks(l)
  {
    out := [];
    var vi := 0;
    while vi < |l|
      invariant 0 <= vi <= |l| && PrintRanks(l) == out + PrintRanks(l[vi..])
    {
      var d := l[vi];
      var summary := SerializeSummaries(d.summary);
      var element := [Open, Val(Int(d.docno)), Val(Real(d.weight))]
                   + PrintRange(d.field) + [Open] + summary + [Close, Close];
      assert element == PrintRanked(d);
      assert l[vi..][1..] == l[vi + 1..];
      Assoc(out, element, PrintRanks(l[vi + 1..]));
      out := out + element;
      vi := vi + 1;
    }
    Unit(out);
  }

  method Serialize(r: QueryResult) returns (out: Tokens)
    ensures out == PrintResult(r)
  {
    var ranks := SerializeRanks(r.ranks);
    out := [Val(Int(r.pass)), Val(Int(r.nofRanked)), Val(Int(r.nofVisited)), Open] + ranks + [Close];
    if r.summary != [] {
      var summary := SerializeSummaries(r.summary);
      out := out + [Open] + summary + [Close];
    }
    assert out == PrintResult(r);
  }

  // ---- reading ----

  /** Result of a reader: beyond values and errors, a name that leads outside of the array of marks, after which the
      program has no defined behaviour. */
  datatype Read<+T> = Got(value: T, rest: Tokens) | Refused | Undefined
  {
    predicate IsFailure() { !Got? }

    function PropagateFailure<U>(): Read<U>
      requires IsFailure()
    {
      if Refused? then Refused else Undefined
    }

    function Extract(): (T, Tokens)
      requires !IsFailure()
    {
      (value, rest)
    }
  }

  function Plain<T>(o: Outcome<T>): (r: Read<T>)
    ensures !r.Undefined?
  {
    match o
    case Done(value, rest) => Got(value, rest)
    case _ => Refused
  }

  function Closed<T>(value: T, ts: Tokens): (r: Read<T>)
    ensures r.Got? ==> |r.rest| < |ts|
    ensures !r.Undefined?
  {
    if ConsumeClose(ts).Done? then Got(value, ts[1..]) else Refused
  }

  function GetReal(env: Env, ts: Tokens): (r: Outcome<real>)
    ensures r.Done? ==> ts != [] && r.rest == ts[1..] && ts[0].Val?
    ensures !r.Stuck?
  {
    if TagOf(ts) == TagValue && env.float(ts[0].v).Some? then Done(env.float(ts[0].v).value, ts[1..]) else Fail
  }

  // a summary element

  datatype SummaryMembers =
    SummaryMembers(name: Option<string>, value: Option<string>, weight: Option<real>, index: Option<int>)

  /** The value of one named member, which may occur once. */
  function ReadSummaryMember(env: Env, idx: int, ts: Tokens, m: SummaryMembers): (r: Read<SummaryMembers>)
    ensures r.Got? ==> |r.rest| < |ts|
  {
    if idx == 0 then
      if m.name.Some? then Refused else var (v, rest) :- Plain(GetText(env.cv, ts)); Got(m.(name := Some(v)), rest)
    else if idx == 1 then
      if m.value.Some? then Refused else var (v, rest) :- Plain(GetText(env.cv, ts)); Got(m.(value := Some(v)), rest)
    else if idx == 2 then
      if m.weight.Some? then Refused else var (v, rest) :- Plain(GetReal(env, ts)); Got(m.(weight := Some(v)), rest)
    else if idx == 3 then
      if m.index.Some? then Refused else var (v, rest) :- Plain(GetInt(env.cv, ts)); Got(m.(index := Some(v)), rest)
    else Undefined
  }

  function ReadSummaryMembers(env: Env, ts: Tokens, m: SummaryMembers): (r: Read<SummaryMembers>)
    ensures r.Got? ==> |r.rest| <= |ts|
    decreases |ts|
  {
    if TagOf(ts) != TagName then Got(m, ts)
    else
      var (next, rest) :- ReadSummaryMember(env, env.index(SummaryNames, ts[0].name), ts[1..], m);
      ReadSummaryMembers(env, rest, next)
  }

  function Default<T>(o: Option<T>, default: T): T { if o.Some? then o.value else default }

  /** Name and value have to be there. */
  function SummaryOf(m: SummaryMembers): Option<Summary>
  {
    if m.name.None? || m.value.None? then None
    else Some(Summary(m.name.value, m.value.value, Default(m.weight, 1.0), Default(m.index, -1)))
  }

  const NO_SUMMARY := SummaryMembers(None, None, None, None)

  /** A summary element with named members or as list of values. */
  function ReadSummary(env: Env, ts: Tokens): (r: Read<Summary>)
    ensures r.Got? ==> |r.rest| < |ts|
  {
    if TagOf(ts) == TagName then
      var (m, rest) :- ReadSummaryMembers(env, ts, NO_SUMMARY);
      if SummaryOf(m).None? then Refused else Got(SummaryOf(m).value, rest)
    else
      var (name, r1) :- Plain(GetText(env.cv, ts));
      if TagOf(r1) != TagValue then Refused
      else
        var (value, r2) :- Plain(GetText(env.cv, r1));
        var (weight, r3) :- if TagOf(r2) == TagValue then Plain(GetReal(env, r2)) else Got(1.0, r2);
        var (index, r4) :- if TagOf(r3) == TagValue then Plain(GetInt(env.cv, r3)) else Got(-1, r3);
        Got(Summary(name, value, weight, index), r4)
  }

  /** Bracketed summary elements up to a close. */
  function ReadSummaries(env: Env, ts: Tokens): (r: Read<seq<Summary>>)
    ensures r.Got? ==> |r.rest| <= |ts|
    decreases |ts|
  {
    if TagOf(ts) == TagClose then Got([], ts)
    else if TagOf(ts) != TagOpen then Refused
    else
      var (s, r1) :- ReadSummary(env, ts[1..]);
      var (_, r2) :- Closed((), r1);
      var (more, rest) :- ReadSummaries(env, r2);
      Got([s] + more, rest)
  }

  /** A list if a bracket opens, else a single element: an empty list is neither. */
  function ReadSummaryList(env: Env, ts: Tokens): (r: Read<seq<Summary>>)
    ensures r.Got? ==> |r.rest| <= |ts|
  {
    if TagOf(ts) == TagOpen then ReadSummaries(env, ts)
    else var (s, rest) :- ReadSummary(env, ts); Got([s], rest)
  }

  function ReadSummaryValue(env: Env, ts: Tokens): (r: Read<seq<Summary>>)
    ensures r.Got? ==> |r.rest| < |ts|
  {
    if TagOf(ts) != TagOpen then Refused
    else var (l, rest) :- ReadSummaryList(env, ts[1..]); Closed(l, rest)
  }

  // a ranked document

  datatype RankedMembers =
    RankedMembers(docno: Option<int>, weight: Option<real>, field: Option<Range>, summary: Option<seq<Summary>>)

  function ReadRankedMember(env: Env, idx: int, ts: Tokens, m: RankedMembers): (r: Read<RankedMembers>)
    ensures r.Got? ==> |r.rest| < |ts|
  {
    if idx == 0 then
      if m.docno.Some? then Refused else var (v, rest) :- Plain(GetInt(env.cv, ts)); Got(m.(docno := Some(v)), rest)
    else if idx == 1 then
      if m.weight.Some? then Refused else var (v, rest) :- Plain(GetReal(env, ts)); Got(m.(weight := Some(v)), rest)
    else if idx == 2 then
      if m.field.Some? then Refused else var (v, rest) :- Plain(ReadRange(env.cv, ts)); Got(m.(field := Some(v)), rest)
    else if idx == 3 then
      if m.summary.Some? then Refused else var (v, rest) :- ReadSummaryValue(env, ts); Got(m.(summary := Some(v)), rest)
    else Undefined
  }

  function ReadRankedMembers(env: Env, ts: Tokens, m: RankedMembers): (r: Read<RankedMembers>)
    ensures r.Got? ==> |r.rest| <= |ts|
    decreases |ts|
  {
    if TagOf(ts) != TagName then Got(m, ts)
    else
      var (next, rest) :- ReadRankedMember(env, env.index(RankedNames, ts[0].name), ts[1..], m);
      ReadRankedMembers(env, rest, next)
  }

  /** Number and weight have to be there. */
  function RankedOf(m: RankedMembers): Option<Ranked>
  {
    if m.docno.None? || m.weight.None? then None
    else Some(Ranked(m.docno.value, Default(m.field, Range(0, 0)), m.weight.value, Default(m.summary, [])))
  }

  const NO_RANKED := RankedMembers(None, None, None, None)

  /** A ranked document with named members or as list of values; field and summary may be missing. */
  function ReadRanked(env: Env, ts: Tokens): (r: Read<Ranked>)
    ensures r.Got? ==> |r.rest| < |ts|
  {
    if TagOf(ts) == TagName then
      var (m, rest) :- ReadRankedMembers(env, ts, NO_RANKED);
      if RankedOf(m).None? then Refused else Got(RankedOf(m).value, rest)
    else
      var (docno, r1) :- Plain(GetInt(env.cv, ts));
      if TagOf(r1) != TagValue then Refused
      else
        var (weight, r2) :- Plain(GetReal(env, r1));
        var (field, r3) :- if TagOf(r2) != TagClose then Plain(ReadRange(env.cv, r2)) else Got(Range(0, 0), r2);
        var (summary, r4) :- if TagOf(r3) != TagClose then ReadSummaryValue(env, r3) else Got([], r3);
        Got(Ranked(docno, field, weight, summary), r4)
  }

  function ReadRanks(env: Env, ts: Tokens): (r: Read<seq<Ranked>>)
    ensures r.Got? ==> |r.rest| <= |ts|
    decreases |ts|
  {
    if TagOf(ts) == TagClose then Got([], ts)
    else if TagOf(ts) != TagOpen then Refused
    else
      var (d, r1) :- ReadRanked(env, ts[1..]);
      var (_, r2) :- Closed((), r1);
      var (more, rest) :- ReadRanks(env, r2);
      Got([d] + more, rest)
  }

  function ReadRankList(env: Env, ts: Tokens): (r: Read<seq<Ranked>>)
    ensures r.Got? ==> |r.rest| <= |ts|
  {
    if TagOf(ts) == TagOpen then ReadRanks(env, ts)
    else var (d, rest) :- ReadRanked(env, ts); Got([d], rest)
  }

  function ReadRankValue(env: Env, ts: Tokens): (r: Read<seq<Ranked>>)
    ensures r.Got? ==> |r.rest| < |ts|
  {
    if TagOf(ts) != TagOpen then Refused
    else var (l, rest) :- ReadRankList(env, ts[1..]); Closed(l, rest)
  }

  // a query result

  datatype ResultMembers =
    ResultMembers(pass: Option<int>, nofRanked: Option<int>, nofVisited: Option<int>, ranks: Option<seq<Ranked>>)

  /** There are marks for the first four names only: a summary by name is not among them. */
  function ReadResultMember(env: Env, idx: int, ts: Tokens, m: ResultMembers): (r: Read<ResultMembers>)
    ensures r.Got? ==> |r.rest| < |ts|
  {
    if idx == 0 then
      if m.pass.Some? then Refused else var (v, rest) :- Plain(GetInt(env.cv, ts)); Got(m.(pass := Some(v)), rest)
    else if idx == 1 then
      if m.nofRanked.Some? then Refused
      else var (v, rest) :- Plain(GetInt(env.cv, ts)); Got(m.(nofRanked := Some(v)), rest)
    else if idx == 2 then
      if m.nofVisited.Some? then Refused
      else var (v, rest) :- Plain(GetInt(env.cv, ts)); Got(m.(nofVisited := Some(v)), rest)
    else if idx == 3 then
      if m.ranks.Some? then Refused else var (v, rest) :- ReadRankValue(env, ts); Got(m.(ranks := Some(v)), rest)
    else Undefined
  }

  function ReadResultMembers(env: Env, ts: Tokens, m: ResultMembers): (r: Read<ResultMembers>)
    ensures r.Got? ==> |r.rest| <= |ts|
    decreases |ts|
  {
    if TagOf(ts) != TagName then Got(m, ts)
    else
      var (next, rest) :- ReadResultMember(env, env.index(ResultNames, ts[0].name), ts[1..], m);
      ReadResultMembers(env, rest, next)
  }

  /** The counts have to be there. */
  function ResultOf(m: ResultMembers): Option<QueryResult>
  {
    if m.nofRanked.None? || m.nofVisited.None? then None
    else
      Some(QueryResult(Default(m.pass, 0), m.nofRanked.value, m.nofVisited.value, Default(m.ranks, []), []))
  }

  const NO_RESULT := ResultMembers(None, None, None, None)

  /** Pass and counts of a query result. */
  function ReadCounts(env: Env, ts: Tokens): (r: Read<(int, int, int)>)
    ensures r.Got? ==> |r.rest| < |ts|
    ensures !r.Undefined?
  {
    var (pass, r1) :- Plain(GetInt(env.cv, ts));
    if TagOf(r1) != TagValue then Refused
    else
      var (ranked, r2) :- Plain(GetInt(env.cv, r1));
      if TagOf(r2) != TagValue then Refused
      else var (visited, r3) :- Plain(GetInt(env.cv, r2)); Got((pass, ranked, visited), r3)
  }

  /** A query result with named members, or as list of values of which ranks and summary may be missing. */
  function ReadResult(env: Env, ts: Tokens): Read<QueryResult>
  {
    if TagOf(ts) == TagName then
      var (m, rest) :- ReadResultMembers(env, ts, NO_RESULT);
      if ResultOf(m).None? then Refused else Got(ResultOf(m).value, rest)
    else
      var (counts, r1) :- ReadCounts(env, ts);
      var (ranks, r2) :- if TagOf(r1) != TagClose then ReadRankValue(env, r1) else Got([], r1);
      var (summary, r3) :- if TagOf(r2) != TagClose then ReadSummaryValue(env, r2) else Got([], r2);
      Got(QueryResult(counts.0, counts.1, counts.2, ranks, summary), r3)
  }

  // ---- round trip ----

  /** An index that is not there is minus one. */
  function NormalSummary(s: Summary): Summary { if s.index < 0 then s.(index := -1) else s }

  function NormalSummaries(l: seq<Summary>): (r: seq<Summary>)
    ensures |r| == |l|
  {
    seq(|l|, i requires 0 <= i < |l| => NormalSummary(l[i]))
  }

  function NormalRanked(d: Ranked): Ranked { d.(summary := NormalSummaries(d.summary)) }

  function NormalRanks(l: seq<Ranked>): (r: seq<Ranked>)
    ensures |r| == |l|
  {
    seq(|l|, i requires 0 <= i < |l| => NormalRanked(l[i]))
  }

  function Normal(r: QueryResult): QueryResult
  {
    r.(ranks := NormalRanks(r.ranks), summary := NormalSummaries(r.summary))
  }

  lemma SummaryRead(env: Env, s: Summary, rest: Tokens)
    requires FaithfulEnv(env) && s.index <= INT_MAX
    ensures var ts := PrintSummary(s) + rest;
            && TagOf(ts) == TagOpen
            && ReadSummary(env, ts[1..]) == Got(NormalSummary(s), [Close] + rest)
  {
    var ts := PrintSummary(s) + rest;
    var body := ts[1..];
    assert body[0] == Val(Str(s.name)) && body[1] == Val(Str(s.value));
    if s.index >= 0 {
      assert body[1..][1..] == [Val(Real(s.weight)), Val(Int(s.index)), Close] + rest;
      assert body[1..][1..][1..][1..] == [Close] + rest;
    } else if s.weight != 1.0 {
      assert body[1..][1..] == [Val(Real(s.weight)), Close] + rest;
      assert body[1..][1..][1..] == [Close] + rest;
    } else {
      assert body[1..][1..] == [Close] + rest;
    }
  }

  lemma NormalFirst(l: seq<Summary>)
    requires l != []
    ensures NormalSummaries(l) == [NormalSummary(l[0])] + NormalSummaries(l[1..])
    ensures SummariesInRange(l) ==> l[0].index <= INT_MAX && SummariesInRange(l[1..])
  {
  }

  lemma SummariesStep(env: Env, s: Summary, more: Tokens)
    requires FaithfulEnv(env) && s.index <= INT_MAX
    ensures var ts := PrintSummary(s) + more;
            && TagOf(ts) == TagOpen
            && ReadSummaries(env, ts)
               == match ReadSummaries(env, more)
                  case Got(l, rest) => Got([NormalSummary(s)] + l, rest)
                  case o => o.PropagateFailure()
  {
    SummaryRead(env, s, more);
    assert ([Close] + more)[1..] == more;
  }

  lemma {:induction false} SummariesRead(env: Env, l: seq<Summary>, rest: Tokens)
    requires FaithfulEnv(env) && SummariesInRange(l)
    ensures ReadSummaries(env, PrintSummaries(l) + ([Close] + rest)) == Got(NormalSummaries(l), [Close] + rest)
    ensures l != [] ==> TagOf(PrintSummaries(l) + ([Close] + rest)) == TagOpen
    decreases l
  {
    var end := [Close] + rest;
    if l == [] {
      Unit(end);
    } else {
      Assoc(PrintSummary(l[0]), PrintSummaries(l[1..]), end);
      NormalFirst(l);
      SummariesStep(env, l[0], PrintSummaries(l[1..]) + end);
      SummariesRead(env, l[1..], rest);
    }
  }

  lemma Bracketed(body: Tokens, rest: Tokens)
    ensures var ts := [Open] + body + ([Close] + rest);
            TagOf(ts) == TagOpen && ts[1..] == body + ([Close] + rest)
    ensures ([Close] + rest)[1..] == rest && ConsumeClose([Close] + rest).Done?
    ensures body == [] ==> TagOf(body + ([Close] + rest)) == TagClose
  {
  }

  /** A list of summary elements between brackets: it is read back unless it is empty. */
  lemma SummaryValueRead(env: Env, l: seq<Summary>, rest: Tokens)
    requires FaithfulEnv(env) && SummariesInRange(l)
    ensures var ts := [Open] + PrintSummaries(l) + ([Close] + rest);
            ReadSummaryValue(env, ts) == if l == [] then Refused else Got(NormalSummaries(l), rest)
  {
    Bracketed(PrintSummaries(l), rest);
    if l != [] { SummariesRead(env, l, rest); }
  }

  lemma RankedHead(env: Env, d: Ranked, field: Tokens, summary: Tokens)
    requires FaithfulEnv(env) && IntRange(d.docno)
    requires TagOf(field) == TagOpen && ReadRange(env.cv, field) == Done(d.field, summary) && TagOf(summary) == TagOpen
    ensures ReadRanked(env, [Val(Int(d.docno)), Val(Real(d.weight))] + field)
         == match ReadSummaryValue(env, summary)
            case Got(l, rest) => Got(d.(summary := l), rest)
            case o => o.PropagateFailure()
  {
    var ts := [Val(Int(d.docno)), Val(Real(d.weight))] + field;
    assert ts[1..][1..] == field;
  }

  lemma RankedParts(d: Ranked, rest: Tokens)
    ensures var field := PrintRange(d.field);
            var summary := [Open] + PrintSummaries(d.summary) + ([Close] + ([Close] + rest));
            var ts := PrintRanked(d) + rest;
            && TagOf(ts) == TagOpen
            && ts[1..] == [Val(Int(d.docno)), Val(Real(d.weight))] + (field + summary)
  {
  }

  lemma RankedRead(env: Env, d: Ranked, rest: Tokens)
    requires FaithfulEnv(env) && RankedInRange(d)
    ensures var ts := PrintRanked(d) + rest;
            && TagOf(ts) == TagOpen
            && ReadRanked(env, ts[1..]) == if d.summary == [] then Refused else Got(NormalRanked(d), [Close] + rest)
  {
    var summary := [Open] + PrintSummaries(d.summary) + ([Close] + ([Close] + rest));
    var field := PrintRange(d.field) + summary;
    RankedParts(d, rest);
    SummaryValueRead(env, d.summary, [Close] + rest);
    Bracketed(PrintSummaries(d.summary), [Close] + rest);
    RangeRead(env.cv, d.field, summary);
    RankedHead(env, d, field, summary);
  }

  ghost predicate HaveSummaries(l: seq<Ranked>) { forall d :: d in l ==> d.summary != [] }

  lemma HaveFirst(l: seq<Ranked>)
    requires l != []
    ensures HaveSummaries(l) <==> l[0].summary != [] && HaveSummaries(l[1..])
  {
    assert forall d :: d in l <==> d == l[0] || d in l[1..];
  }

  lemma RanksStep(env: Env, d: Ranked, more: Tokens)
    requires FaithfulEnv(env) && RankedInRange(d)
    ensures var ts := PrintRanked(d) + more;
            && TagOf(ts) == TagOpen
            && ReadRanks(env, ts)
               == if d.summary == [] then Refused
                  else match ReadRanks(env, more)
                       case Got(l, rest) => Got([NormalRanked(d)] + l, rest)
                       case o => o.PropagateFailure()
  {
    RankedRead(env, d, more);
    assert ([Close] + more)[1..] == more;
  }

  lemma NormalRanksFirst(l: seq<Ranked>)
    requires l != []
    ensures NormalRanks(l) == [NormalRanked(l[0])] + NormalRanks(l[1..])
    ensures RanksInRange(l) ==> RankedInRange(l[0]) && RanksInRange(l[1..])
  {
  }

  /** Ranks are read back if all of them have summaries. */
  lemma {:induction false} RanksRead(env: Env, l: seq<Ranked>, rest: Tokens)
    requires FaithfulEnv(env) && RanksInRange(l)
    ensures ReadRanks(env, PrintRanks(l) + ([Close] + rest))
         == if HaveSummaries(l) then Got(NormalRanks(l), [Close] + rest) else Refused
    ensures l != [] ==> TagOf(PrintRanks(l) + ([Close] + rest)) == TagOpen
    decreases l
  {
    var end := [Close] + rest;
    if l == [] {
      Unit(end);
    } else {
      Assoc(PrintRanked(l[0]), PrintRanks(l[1..]), end);
      HaveFirst(l);
      NormalRanksFirst(l);
      RanksStep(env, l[0], PrintRanks(l[1..]) + end);
      RanksRead(env, l[1..], rest);
    }
  }

  /** Ranks that are there and have summaries. */
  ghost predicate Complete(r: QueryResult)
  {
    r.ranks != [] && HaveSummaries(r.ranks)
  }

  lemma RankValueRead(env: Env, l: seq<Ranked>, rest: Tokens)
    requires FaithfulEnv(env) && RanksInRange(l)
    ensures var ts := [Open] + PrintRanks(l) + ([Close] + rest);
            && TagOf(ts) == TagOpen
            && ReadRankValue(env, ts) == if l != [] && HaveSummaries(l) then Got(NormalRanks(l), rest) else Refused
  {
    Bracketed(PrintRanks(l), rest);
    if l != [] { RanksRead(env, l, rest); }
  }

  lemma TailRead(env: Env, l: seq<Summary>)
    requires FaithfulEnv(env) && SummariesInRange(l)
    ensures var ts := PrintTail(l);
            (if TagOf(ts) != TagClose then ReadSummaryValue(env, ts) else Got([], ts)) == Got(NormalSummaries(l), [])
  {
    if l != [] {
      SummaryValueRead(env, l, []);
      Unit([Close]);
    }
  }

  lemma CountsRead(env: Env, r: QueryResult, rest: Tokens)
    requires FaithfulEnv(env) && InRange(r)
    ensures ReadCounts(env, [Val(Int(r.pass)), Val(Int(r.nofRanked)), Val(Int(r.nofVisited))] + rest)
         == Got((r.pass, r.nofRanked, r.nofVisited), rest)
  {
    var ts := [Val(Int(r.pass)), Val(Int(r.nofRanked)), Val(Int(r.nofVisited))] + rest;
    assert ts[1..][1..][1..] == rest;
  }

  ghost predicate SummariesInPlace(l: seq<Summary>) { forall i :: 0 <= i < |l| ==> l[i].index >= -1 }

  /** An index is there or minus one. */
  ghost predicate IndicesInPlace(r: QueryResult)
  {
    SummariesInPlace(r.summary) && forall i :: 0 <= i < |r.ranks| ==> SummariesInPlace(r.ranks[i].summary)
  }

  lemma NothingToNormalize(r: QueryResult)
    requires IndicesInPlace(r)
    ensures Normal(r) == r
  {
    assert NormalSummaries(r.summary) == r.summary;
    forall i | 0 <= i < |r.ranks| ensures NormalRanks(r.ranks)[i] == r.ranks[i] {
      assert NormalSummaries(r.ranks[i].summary) == r.ranks[i].summary;
    }
    assert NormalRanks(r.ranks) == r.ranks;
  }

  lemma ResultRead(env: Env, r: QueryResult)
    requires FaithfulEnv(env) && InRange(r)
    ensures ReadResult(env, PrintResult(r)) == if Complete(r) then Got(Normal(r), []) else Refused
  {
    var tail := PrintTail(r.summary);
    var ranks := [Open] + PrintRanks(r.ranks) + ([Close] + tail);
    assert PrintResult(r) == [Val(Int(r.pass)), Val(Int(r.nofRanked)), Val(Int(r.nofVisited))] + ranks;
    CountsRead(env, r, ranks);
    RankValueRead(env, r.ranks, tail);
    TailRead(env, r.summary);
  }

  /** A query result survives its serialization exactly if it has ranks and all of them have summaries; a summary
      index that is not there comes back as minus one, everything else as it was. */
  lemma ResultRoundTrip(env: Env, r: QueryResult)
    requires FaithfulEnv(env) && InRange(r)
    ensures ReadResult(env, PrintResult(r)) == if Complete(r) then Got(Normal(r), []) else Refused
    ensures Complete(r) && IndicesInPlace(r) ==> ReadResult(env, PrintResult(r)) == Got(r, [])
  {
    hide *;
    ResultRead(env, r);
    if IndicesInPlace(r) { NothingToNormalize(r); }
  }
}
