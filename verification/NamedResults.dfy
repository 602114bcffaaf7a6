/** Query results with named members: what is read of them, whatever the order of the names. */
module NamedResults {
  import opened Wrappers
  import opened Serialization
  import opened QueryResults
  import SNM = StructureNameMap

  lemma SummaryNamesDiffer()
    ensures SNM.NoneInEarlier(Names(SummaryNames))
  {
    hide SNM.Infix;
    SNM.NoInfix("value", "name", []);
    SNM.NoInfix("weight", "name", []);
    SNM.NoInfix("weight", "value", []);
    SNM.NoInfix("index", "name", []);
    SNM.NoInfix("index", "value", [0]);
    SNM.NoInfix("index", "weight", [0, 0]);
  }

  lemma RankedNamesDiffer()
    ensures SNM.NoneInEarlier(Names(RankedNames))
  {
    hide SNM.Infix;
    SNM.NoInfix("weight", "docno", []);
    SNM.NoInfix("field", "docno", [0]);
    SNM.NoInfix("field", "weight", [0, 0]);
    SNM.NoInfix("summary", "docno", []);
    SNM.NoInfix("summary", "weight", []);
    SNM.NoInfix("summary", "field", []);
  }

  lemma RanksDiffers()
    ensures var names := Names(ResultNames); forall j :: 0 <= j < 3 ==> !SNM.Infix(names[3], names[j])
  {
    hide SNM.Infix;
    SNM.NoInfix("ranks", "evalpass", [0, 0, 0, 0]);
    SNM.NoInfix("ranks", "nofranked", [0, 0, 0, 4, 0]);
    SNM.NoInfix("ranks", "nofvisited", [0, 0, 0, 0, 0, 0]);
  }

  lemma SummaryDiffers()
    ensures var names := Names(ResultNames); forall j :: 0 <= j < 4 ==> !SNM.Infix(names[4], names[j])
  {
    hide SNM.Infix;
    SNM.NoInfix("summary", "evalpass", [0, 0]);
    SNM.NoInfix("summary", "nofranked", [0, 0, 0]);
    SNM.NoInfix("summary", "nofvisited", [0, 0, 0, 0]);
    SNM.NoInfix("summary", "ranks", []);
  }

  lemma ResultNamesDiffer()
    ensures SNM.NoneInEarlier(Names(ResultNames))
  {
    hide SNM.Infix;
    SNM.NoInfix("nofranked", "evalpass", []);
    SNM.NoInfix("nofvisited", "evalpass", []);
    SNM.NoInfix("nofvisited", "nofranked", []);
    RanksDiffers();
    SummaryDiffers();
  }

  /** Every name of a table has its own number. */
  lemma Keyword(env: Env, t: Table, i: nat)
    requires FaithfulEnv(env) && i < |Names(t)|
    ensures env.index(t, Names(t)[i]) == i
  {
    hide SNM.NoneInEarlier, SNM.Index, SNM.Join;
    SummaryNamesDiffer();
    RankedNamesDiffer();
    ResultNamesDiffer();
    assert SNM.NoneInEarlier(Names(t));
    assert SNM.IsTable(Names(t), ',');
    SNM.AllNamesFound(Names(t), ',');
  }

  // members of a summary element in any order

  datatype SummaryMember = NameIs(name: string) | ValueIs(value: string) | WeightIs(weight: real) | IndexIs(index: int)

  function SummaryKind(x: SummaryMember): nat
  {
    match x
    case NameIs(_) => 0
    case ValueIs(_) => 1
    case WeightIs(_) => 2
    case IndexIs(_) => 3
  }

  function SummaryValue(x: SummaryMember): Value
  {
    match x
    case NameIs(name) => Str(name)
    case ValueIs(value) => Str(value)
    case WeightIs(weight) => Real(weight)
    case IndexIs(index) => Int(index)
  }

  predicate SummaryMembersInRange(l: seq<SummaryMember>) { forall x :: x in l && x.IndexIs? ==> IntRange(x.index) }

  function PrintSummaryMembers(l: seq<SummaryMember>): Tokens
  {
    if l == [] then []
    else [Name(Names(SummaryNames)[SummaryKind(l[0])]), Val(SummaryValue(l[0]))] + PrintSummaryMembers(l[1..])
  }

  predicate HasSummaryKind(m: SummaryMembers, kind: nat)
  {
    if kind == 0 then m.name.Some? else if kind == 1 then m.value.Some?
    else if kind == 2 then m.weight.Some? else m.index.Some?
  }

  function AddSummaryMember(m: SummaryMembers, x: SummaryMember): SummaryMembers
  {
    match x
    case NameIs(name) => m.(name := Some(name))
    case ValueIs(value) => m.(value := Some(value))
    case WeightIs(weight) => m.(weight := Some(weight))
    case IndexIs(index) => m.(index := Some(index))
  }

  function AddSummaryMembers(m: SummaryMembers, l: seq<SummaryMember>): SummaryMembers
    decreases l
  {
    if l == [] then m else AddSummaryMembers(AddSummaryMember(m, l[0]), l[1..])
  }

  /** No kind occurs twice, and none that is there already. */
  ghost predicate NewSummaryKinds(m: SummaryMembers, l: seq<SummaryMember>)
  {
    && (forall i, j :: 0 <= i < j < |l| ==> SummaryKind(l[i]) != SummaryKind(l[j]))
    && forall x :: x in l ==> !HasSummaryKind(m, SummaryKind(x))
  }

  lemma NewSummaryFirst(m: SummaryMembers, l: seq<SummaryMember>)
    requires l != []
    ensures NewSummaryKinds(m, l)
       <==> !HasSummaryKind(m, SummaryKind(l[0])) && NewSummaryKinds(AddSummaryMember(m, l[0]), l[1..])
  {
    var next := AddSummaryMember(m, l[0]);
    assert forall k: nat :: k < 4 ==> (HasSummaryKind(next, k) <==> HasSummaryKind(m, k) || k == SummaryKind(l[0]));
    assert forall x :: x in l <==> x == l[0] || x in l[1..];
    if NewSummaryKinds(m, l) {
      forall x | x in l[1..] ensures !HasSummaryKind(next, SummaryKind(x)) {
        var j :| 1 <= j < |l| && l[j] == x;
      }
    }
    if !HasSummaryKind(m, SummaryKind(l[0])) && NewSummaryKinds(next, l[1..]) {
      forall i, j | 0 <= i < j < |l| ensures SummaryKind(l[i]) != SummaryKind(l[j]) {
        assert l[j] in l[1..];
        if i > 0 { assert l[i] == l[1..][i - 1] && l[j] == l[1..][j - 1]; }
      }
    }
  }

  lemma ValuesAreKept(env: Env)
    requires FaithfulEnv(env)
    ensures forall s :: env.cv.text(Str(s)) == Some(s)
    ensures forall i :: IntRange(i) ==> env.cv.int32(Int(i)) == Some(i)
    ensures forall w :: env.float(Real(w)) == Some(w)
  {
  }

  lemma SummaryUnfolds(env: Env, name: string, more: Tokens, m: SummaryMembers)
    ensures ReadSummaryMembers(env, [Name(name)] + more, m)
         == match ReadSummaryMember(env, env.index(SummaryNames, name), more, m)
            case Got(next, rest) => ReadSummaryMembers(env, rest, next)
            case o => o.PropagateFailure()
  {
    var ts := [Name(name)] + more;
    assert ts[1..] == more;
  }

  lemma SummaryMemberRead(env: Env, x: SummaryMember, rest: Tokens, m: SummaryMembers)
    requires FaithfulEnv(env) && (x.IndexIs? ==> IntRange(x.index))
    ensures ReadSummaryMember(env, SummaryKind(x), [Val(SummaryValue(x))] + rest, m)
         == if HasSummaryKind(m, SummaryKind(x)) then Refused else Got(AddSummaryMember(m, x), rest)
  {
    ValuesAreKept(env);
    hide FaithfulEnv;
    assert ([Val(SummaryValue(x))] + rest)[1..] == rest;
  }

  lemma {:induction false} SummaryMembersRead(env: Env, l: seq<SummaryMember>, rest: Tokens, m: SummaryMembers)
    requires FaithfulEnv(env) && SummaryMembersInRange(l) && TagOf(rest) == TagClose
    ensures ReadSummaryMembers(env, PrintSummaryMembers(l) + rest, m)
         == if NewSummaryKinds(m, l) then Got(AddSummaryMembers(m, l), rest) else Refused
    decreases l
  {
    if l == [] {
      Unit(rest);
    } else {
      var x, name := l[0], Names(SummaryNames)[SummaryKind(l[0])];
      var more := PrintSummaryMembers(l[1..]) + rest;
      assert PrintSummaryMembers(l) + rest == [Name(name)] + ([Val(SummaryValue(x))] + more);
      SummaryUnfolds(env, name, [Val(SummaryValue(x))] + more, m);
      Keyword(env, SummaryNames, SummaryKind(x));
      NewSummaryFirst(m, l);
      SummaryMemberRead(env, x, more, m);
      hide FaithfulEnv, NewSummaryKinds, ReadSummaryMember, ReadSummaryMembers, PrintSummaryMembers;
      SummaryMembersRead(env, l[1..], rest, AddSummaryMember(m, x));
    }
  }

  /** The members that have been read are the ones given, and no others. */
  lemma {:induction false} AddedSummaryMembers(m: SummaryMembers, l: seq<SummaryMember>)
    requires NewSummaryKinds(m, l)
    ensures var all := AddSummaryMembers(m, l);
            && (forall v :: all.name == Some(v) <==> m.name == Some(v) || NameIs(v) in l)
            && (forall v :: all.value == Some(v) <==> m.value == Some(v) || ValueIs(v) in l)
            && (forall v :: all.weight == Some(v) <==> m.weight == Some(v) || WeightIs(v) in l)
            && (forall v :: all.index == Some(v) <==> m.index == Some(v) || IndexIs(v) in l)
    decreases l
  {
    if l != [] {
      NewSummaryFirst(m, l);
      AddedSummaryMembers(AddSummaryMember(m, l[0]), l[1..]);
      assert forall x :: x in l <==> x == l[0] || x in l[1..];
      assert forall x :: x in l[1..] ==> !HasSummaryKind(AddSummaryMember(m, l[0]), SummaryKind(x));
    }
  }

  /** A summary element with named members, in any order: it is read exactly if no name occurs twice and name and
      value are there; what is missing gets its default. */
  lemma NamedSummaryRead(env: Env, l: seq<SummaryMember>, rest: Tokens)
    requires FaithfulEnv(env) && SummaryMembersInRange(l) && TagOf(rest) == TagClose
    ensures var r := ReadSummary(env, PrintSummaryMembers(l) + rest);
            && !r.Undefined?
            && (r.Got? <==> NewSummaryKinds(NO_SUMMARY, l)
                            && (exists x :: x in l && x.NameIs?) && (exists x :: x in l && x.ValueIs?))
            && (r.Got? ==>
                  && r.rest == rest && NameIs(r.value.name) in l && ValueIs(r.value.value) in l
                  && (WeightIs(r.value.weight) in l || (r.value.weight == 1.0 && forall x :: x in l ==> !x.WeightIs?))
                  && (IndexIs(r.value.index) in l || (r.value.index == -1 && forall x :: x in l ==> !x.IndexIs?)))
  {
    SummaryMembersRead(env, l, rest, NO_SUMMARY);
    if l == [] { Unit(rest); }
    if NewSummaryKinds(NO_SUMMARY, l) { AddedSummaryMembers(NO_SUMMARY, l); }
    hide ReadSummaryMembers, FaithfulEnv, NewSummaryKinds, AddSummaryMembers;
    assert forall x :: x in l && x.NameIs? ==> x == NameIs(x.name);
    assert forall x :: x in l && x.ValueIs? ==> x == ValueIs(x.value);
    assert forall x :: x in l && x.WeightIs? ==> x == WeightIs(x.weight);
    assert forall x :: x in l && x.IndexIs? ==> x == IndexIs(x.index);
  }

  // members of a ranked document in any order

  datatype RankedMember =
    DocnoIs(docno: int) | RankIs(weight: real) | FieldIs(field: Range) | SummaryIs(summary: seq<Summary>)

  function RankedKind(x: RankedMember): nat
  {
    match x
    case DocnoIs(_) => 0
    case RankIs(_) => 1
    case FieldIs(_) => 2
    case SummaryIs(_) => 3
  }

  function RankedValue(x: RankedMember): Tokens
  {
    match x
    case DocnoIs(docno) => [Val(Int(docno))]
    case RankIs(weight) => [Val(Real(weight))]
    case FieldIs(field) => PrintRange(field)
    case SummaryIs(summary) => [Open] + PrintSummaries(summary) + [Close]
  }

  predicate RankedMemberInRange(x: RankedMember)
  {
    match x
    case DocnoIs(docno) => IntRange(docno)
    case RankIs(_) => true
    case FieldIs(field) => RangeInRange(field)
    case SummaryIs(summary) => SummariesInRange(summary)
  }

  predicate RankedMembersInRange(l: seq<RankedMember>) { forall x :: x in l ==> RankedMemberInRange(x) }

  function PrintRankedMembers(l: seq<RankedMember>): Tokens
  {
    if l == [] then []
    else [Name(Names(RankedNames)[RankedKind(l[0])])] + RankedValue(l[0]) + PrintRankedMembers(l[1..])
  }

  predicate HasRankedKind(m: RankedMembers, kind: nat)
  {
    if kind == 0 then m.docno.Some? else if kind == 1 then m.weight.Some?
    else if kind == 2 then m.field.Some? else m.summary.Some?
  }

  function AddRankedMember(m: RankedMembers, x: RankedMember): RankedMembers
  {
    match x
    case DocnoIs(docno) => m.(docno := Some(docno))
    case RankIs(weight) => m.(weight := Some(weight))
    case FieldIs(field) => m.(field := Some(field))
    case SummaryIs(summary) => m.(summary := Some(NormalSummaries(summary)))
  }

  function AddRankedMembers(m: RankedMembers, l: seq<RankedMember>): RankedMembers
    decreases l
  {
    if l == [] then m else AddRankedMembers(AddRankedMember(m, l[0]), l[1..])
  }

  /** No kind occurs twice or is there already, and no summary is empty. */
  ghost predicate NewRankedKinds(m: RankedMembers, l: seq<RankedMember>)
  {
    && (forall i, j :: 0 <= i < j < |l| ==> RankedKind(l[i]) != RankedKind(l[j]))
    && (forall x :: x in l ==> !HasRankedKind(m, RankedKind(x)))
    && SummaryIs([]) !in l
  }

  lemma NewRankedFirst(m: RankedMembers, l: seq<RankedMember>)
    requires l != []
    ensures NewRankedKinds(m, l)
       <==> !HasRankedKind(m, RankedKind(l[0])) && l[0] != SummaryIs([])
            && NewRankedKinds(AddRankedMember(m, l[0]), l[1..])
  {
    var next := AddRankedMember(m, l[0]);
    assert forall k: nat :: k < 4 ==> (HasRankedKind(next, k) <==> HasRankedKind(m, k) || k == RankedKind(l[0]));
    assert forall x :: x in l <==> x == l[0] || x in l[1..];
    if NewRankedKinds(m, l) {
      forall x | x in l[1..] ensures !HasRankedKind(next, RankedKind(x)) {
        var j :| 1 <= j < |l| && l[j] == x;
      }
    }
    if !HasRankedKind(m, RankedKind(l[0])) && NewRankedKinds(next, l[1..]) {
      forall i, j | 0 <= i < j < |l| ensures RankedKind(l[i]) != RankedKind(l[j]) {
        assert l[j] in l[1..];
        if i > 0 { assert l[i] == l[1..][i - 1] && l[j] == l[1..][j - 1]; }
      }
    }
  }

  lemma RankedValueRead(env: Env, x: RankedMember, rest: Tokens, m: RankedMembers)
    requires FaithfulEnv(env) && RankedMemberInRange(x)
    ensures ReadRankedMember(env, RankedKind(x), RankedValue(x) + rest, m)
         == if HasRankedKind(m, RankedKind(x)) || x == SummaryIs([]) then Refused else Got(AddRankedMember(m, x), rest)
  {
    ValuesAreKept(env);
    match x
    case FieldIs(field) => RangeRead(env.cv, field, rest);
    case SummaryIs(summary) => RankedSummaryRead(env, summary, rest, m);
    case _ =>
      hide FaithfulEnv;
      assert (RankedValue(x) + rest)[1..] == rest;
  }

  lemma RankedSummaryRead(env: Env, summary: seq<Summary>, rest: Tokens, m: RankedMembers)
    requires FaithfulEnv(env) && SummariesInRange(summary)
    ensures ReadRankedMember(env, 3, RankedValue(SummaryIs(summary)) + rest, m)
         == if m.summary.Some? || summary == [] then Refused
            else Got(m.(summary := Some(NormalSummaries(summary))), rest)
  {
    assert RankedValue(SummaryIs(summary)) + rest == [Open] + PrintSummaries(summary) + ([Close] + rest);
    SummaryValueRead(env, summary, rest);
    hide FaithfulEnv, ReadSummaryValue;
  }

  lemma RankedUnfolds(env: Env, name: string, more: Tokens, m: RankedMembers)
    ensures ReadRankedMembers(env, [Name(name)] + more, m)
         == match ReadRankedMember(env, env.index(RankedNames, name), more, m)
            case Got(next, rest) => ReadRankedMembers(env, rest, next)
            case o => o.PropagateFailure()
  {
    var ts := [Name(name)] + more;
    assert ts[1..] == more;
  }

  lemma {:induction false} RankedMembersRead(env: Env, l: seq<RankedMember>, rest: Tokens, m: RankedMembers)
    requires FaithfulEnv(env) && RankedMembersInRange(l) && TagOf(rest) == TagClose
    ensures ReadRankedMembers(env, PrintRankedMembers(l) + rest, m)
         == if NewRankedKinds(m, l) then Got(AddRankedMembers(m, l), rest) else Refused
    decreases l
  {
    if l == [] {
      Unit(rest);
    } else {
      FirstRankedRead(env, l, rest, m);
      NewRankedFirst(m, l);
      hide FaithfulEnv, NewRankedKinds, ReadRankedMembers, PrintRankedMembers;
      RankedMembersRead(env, l[1..], rest, AddRankedMember(m, l[0]));
    }
  }

  lemma FirstRankedRead(env: Env, l: seq<RankedMember>, rest: Tokens, m: RankedMembers)
    requires FaithfulEnv(env) && RankedMembersInRange(l) && l != []
    ensures ReadRankedMembers(env, PrintRankedMembers(l) + rest, m)
         == if HasRankedKind(m, RankedKind(l[0])) || l[0] == SummaryIs([]) then Refused
            else ReadRankedMembers(env, PrintRankedMembers(l[1..]) + rest, AddRankedMember(m, l[0]))
  {
    var x, name := l[0], Names(RankedNames)[RankedKind(l[0])];
    var more := PrintRankedMembers(l[1..]) + rest;
    assert PrintRankedMembers(l) + rest == [Name(name)] + (RankedValue(x) + more);
    RankedUnfolds(env, name, RankedValue(x) + more, m);
    Keyword(env, RankedNames, RankedKind(x));
    RankedValueRead(env, x, more, m);
    hide FaithfulEnv, ReadRankedMember, ReadRankedMembers, PrintRankedMembers;
  }

  lemma {:induction false} AddedRankedMembers(m: RankedMembers, l: seq<RankedMember>)
    requires NewRankedKinds(m, l)
    ensures var all := AddRankedMembers(m, l);
            && (forall v :: all.docno == Some(v) <==> m.docno == Some(v) || DocnoIs(v) in l)
            && (forall v :: all.weight == Some(v) <==> m.weight == Some(v) || RankIs(v) in l)
            && (forall v :: all.field == Some(v) <==> m.field == Some(v) || FieldIs(v) in l)
            && (all.summary.None? <==> m.summary.None? && forall x :: x in l ==> !x.SummaryIs?)
            && (forall x :: x in l && x.SummaryIs? ==> all.summary == Some(NormalSummaries(x.summary)))
            && (m.summary.Some? ==> all.summary == m.summary)
    decreases l
  {
    if l != [] {
      NewRankedFirst(m, l);
      AddedRankedMembers(AddRankedMember(m, l[0]), l[1..]);
      assert forall x :: x in l <==> x == l[0] || x in l[1..];
      assert forall x :: x in l[1..] ==> !HasRankedKind(AddRankedMember(m, l[0]), RankedKind(x));
    }
  }

  /** A ranked document with named members, in any order: it is read exactly if no name occurs twice, number and
      weight are there and a summary is not empty; what is missing gets its default. */
  lemma NamedRankedRead(env: Env, l: seq<RankedMember>, rest: Tokens)
    requires FaithfulEnv(env) && RankedMembersInRange(l) && TagOf(rest) == TagClose
    ensures var r := ReadRanked(env, PrintRankedMembers(l) + rest);
            && !r.Undefined?
            && (r.Got? <==> NewRankedKinds(NO_RANKED, l)
                            && (exists x :: x in l && x.DocnoIs?) && (exists x :: x in l && x.RankIs?))
            && (r.Got? ==>
                  && r.rest == rest && DocnoIs(r.value.docno) in l && RankIs(r.value.weight) in l
                  && (FieldIs(r.value.field) in l
                      || (r.value.field == Range(0, 0) && forall x :: x in l ==> !x.FieldIs?))
                  && (forall x :: x in l && x.SummaryIs? ==> r.value.summary == NormalSummaries(x.summary))
                  && ((forall x :: x in l ==> !x.SummaryIs?) ==> r.value.summary == []))
  {
    RankedMembersRead(env, l, rest, NO_RANKED);
    if l == [] { Unit(rest); }
    if NewRankedKinds(NO_RANKED, l) { AddedRankedMembers(NO_RANKED, l); }
    hide ReadRankedMembers, FaithfulEnv, NewRankedKinds, AddRankedMembers, NormalSummaries;
    assert forall x :: x in l && x.DocnoIs? ==> x == DocnoIs(x.docno);
    assert forall x :: x in l && x.RankIs? ==> x == RankIs(x.weight);
    assert forall x :: x in l && x.FieldIs? ==> x == FieldIs(x.field);
  }

  // members of a query result in any order

  datatype ResultMember =
    | PassIs(pass: int)
    | RankedCountIs(count: int)
    | VisitedCountIs(count: int)
    | RanksAre(ranks: seq<Ranked>)
    | ResultSummaryIs(summary: seq<Summary>)

  function ResultKind(x: ResultMember): nat
  {
    match x
    case PassIs(_) => 0
    case RankedCountIs(_) => 1
    case VisitedCountIs(_) => 2
    case RanksAre(_) => 3
    case ResultSummaryIs(_) => 4
  }

  function ResultValue(x: ResultMember): Tokens
  {
    match x
    case PassIs(pass) => [Val(Int(pass))]
    case RankedCountIs(count) => [Val(Int(count))]
    case VisitedCountIs(count) => [Val(Int(count))]
    case RanksAre(ranks) => [Open] + PrintRanks(ranks) + [Close]
    case ResultSummaryIs(summary) => [Open] + PrintSummaries(summary) + [Close]
  }

  predicate ResultMemberInRange(x: ResultMember)
  {
    match x
    case PassIs(pass) => IntRange(pass)
    case RankedCountIs(count) => IntRange(count)
    case VisitedCountIs(count) => IntRange(count)
    case RanksAre(ranks) => RanksInRange(ranks)
    case ResultSummaryIs(_) => true
  }

  predicate ResultMembersInRange(l: seq<ResultMember>) { forall x :: x in l ==> ResultMemberInRange(x) }

  function PrintResultMembers(l: seq<ResultMember>): Tokens
  {
    if l == [] then []
    else [Name(Names(ResultNames)[ResultKind(l[0])])] + ResultValue(l[0]) + PrintResultMembers(l[1..])
  }

  predicate HasResultKind(m: ResultMembers, kind: nat)
  {
    if kind == 0 then m.pass.Some? else if kind == 1 then m.nofRanked.Some?
    else if kind == 2 then m.nofVisited.Some? else m.ranks.Some?
  }

  function AddResultMember(m: ResultMembers, x: ResultMember): ResultMembers
  {
    match x
    case PassIs(pass) => m.(pass := Some(pass))
    case RankedCountIs(count) => m.(nofRanked := Some(count))
    case VisitedCountIs(count) => m.(nofVisited := Some(count))
    case RanksAre(ranks) => m.(ranks := Some(NormalRanks(ranks)))
    case ResultSummaryIs(_) => m
  }

  function AddResultMembers(m: ResultMembers, l: seq<ResultMember>): ResultMembers
    decreases l
  {
    if l == [] then m else AddResultMembers(AddResultMember(m, l[0]), l[1..])
  }

  /** Ranks have to be there and to have summaries. */
  ghost predicate Readable(x: ResultMember) { x.RanksAre? ==> x.ranks != [] && HaveSummaries(x.ranks) }

  /** No kind occurs twice or is there already, all members are readable, and none is a summary. */
  ghost predicate NewResultKinds(m: ResultMembers, l: seq<ResultMember>)
  {
    && (forall i, j :: 0 <= i < j < |l| ==> ResultKind(l[i]) != ResultKind(l[j]))
    && (forall x :: x in l ==> !HasResultKind(m, ResultKind(x)))
    && (forall x :: x in l ==> Readable(x) && !x.ResultSummaryIs?)
  }

  lemma NewResultFirst(m: ResultMembers, l: seq<ResultMember>)
    requires l != [] && !l[0].ResultSummaryIs?
    ensures NewResultKinds(m, l)
       <==> !HasResultKind(m, ResultKind(l[0])) && Readable(l[0]) && NewResultKinds(AddResultMember(m, l[0]), l[1..])
  {
    hide Readable;
    var next := AddResultMember(m, l[0]);
    assert forall k: nat :: k < 4 ==> (HasResultKind(next, k) <==> HasResultKind(m, k) || k == ResultKind(l[0]));
    assert forall x :: x in l <==> x == l[0] || x in l[1..];
    if NewResultKinds(m, l) {
      forall x | x in l[1..] ensures !HasResultKind(next, ResultKind(x)) {
        var j :| 1 <= j < |l| && l[j] == x;
      }
    }
    if !HasResultKind(m, ResultKind(l[0])) && Readable(l[0]) && NewResultKinds(next, l[1..]) {
      forall i, j | 0 <= i < j < |l| ensures ResultKind(l[i]) != ResultKind(l[j]) {
        assert l[j] in l[1..];
        if i > 0 { assert l[i] == l[1..][i - 1] && l[j] == l[1..][j - 1]; }
      }
    }
  }

  /** Behind members that can be read, there is a summary. */
  ghost predicate ReachesSummary(m: ResultMembers, l: seq<ResultMember>)
  {
    exists i :: 0 <= i < |l| && l[i].ResultSummaryIs? && NewResultKinds(m, l[..i])
  }

  lemma ReachesFirst(m: ResultMembers, l: seq<ResultMember>)
    requires l != []
    ensures ReachesSummary(m, l)
       <==> if l[0].ResultSummaryIs? then true
            else !HasResultKind(m, ResultKind(l[0])) && Readable(l[0])
                 && ReachesSummary(AddResultMember(m, l[0]), l[1..])
  {
    if l[0].ResultSummaryIs? {
      assert NewResultKinds(m, l[..0]);
    } else {
      var next := AddResultMember(m, l[0]);
      forall i | 0 < i < |l|
        ensures NewResultKinds(m, l[..i])
           <==> !HasResultKind(m, ResultKind(l[0])) && Readable(l[0]) && NewResultKinds(next, l[1..][..i - 1])
      {
        assert l[..i][0] == l[0] && l[..i][1..] == l[1..][..i - 1];
        NewResultFirst(m, l[..i]);
      }
      hide NewResultKinds, Readable;
      if !HasResultKind(m, ResultKind(l[0])) && Readable(l[0]) && ReachesSummary(next, l[1..]) {
        var k :| 0 <= k < |l[1..]| && l[1..][k].ResultSummaryIs? && NewResultKinds(next, l[1..][..k]);
        assert l[k + 1].ResultSummaryIs? && NewResultKinds(m, l[..k + 1]);
      }
      if ReachesSummary(m, l) {
        var i :| 0 <= i < |l| && l[i].ResultSummaryIs? && NewResultKinds(m, l[..i]);
        assert l[1..][i - 1] == l[i];
      }
    }
  }

  lemma ResultValueRead(env: Env, x: ResultMember, rest: Tokens, m: ResultMembers)
    requires FaithfulEnv(env) && ResultMemberInRange(x)
    ensures ReadResultMember(env, ResultKind(x), ResultValue(x) + rest, m)
         == if x.ResultSummaryIs? then Undefined
            else if HasResultKind(m, ResultKind(x)) || !Readable(x) then Refused
            else Got(AddResultMember(m, x), rest)
  {
    ValuesAreKept(env);
    match x
    case RanksAre(ranks) => ResultRanksRead(env, ranks, rest, m);
    case ResultSummaryIs(_) =>
    case _ =>
      hide FaithfulEnv;
      assert (ResultValue(x) + rest)[1..] == rest;
  }

  lemma ResultRanksRead(env: Env, ranks: seq<Ranked>, rest: Tokens, m: ResultMembers)
    requires FaithfulEnv(env) && RanksInRange(ranks)
    ensures ReadResultMember(env, 3, ResultValue(RanksAre(ranks)) + rest, m)
         == if m.ranks.Some? || ranks == [] || !HaveSummaries(ranks) then Refused
            else Got(m.(ranks := Some(NormalRanks(ranks))), rest)
  {
    assert ResultValue(RanksAre(ranks)) + rest == [Open] + PrintRanks(ranks) + ([Close] + rest);
    RankValueRead(env, ranks, rest);
    hide FaithfulEnv, ReadRankValue;
  }

  lemma ResultUnfolds(env: Env, name: string, more: Tokens, m: ResultMembers)
    ensures ReadResultMembers(env, [Name(name)] + more, m)
         == match ReadResultMember(env, env.index(ResultNames, name), more, m)
            case Got(next, rest) => ReadResultMembers(env, rest, next)
            case o => o.PropagateFailure()
  {
    var ts := [Name(name)] + more;
    assert ts[1..] == more;
  }

  lemma {:induction false} ResultMembersRead(env: Env, l: seq<ResultMember>, rest: Tokens, m: ResultMembers)
    requires FaithfulEnv(env) && ResultMembersInRange(l) && TagOf(rest) == TagClose
    ensures ReadResultMembers(env, PrintResultMembers(l) + rest, m)
         == if NewResultKinds(m, l) then Got(AddResultMembers(m, l), rest)
            else if ReachesSummary(m, l) then Undefined else Refused
    decreases l
  {
    if l == [] {
      Unit(rest);
    } else {
      var more := PrintResultMembers(l[1..]) + rest;
      FirstResultRead(env, l, rest, m);
      if l[0].ResultSummaryIs? {
        assert l[0] in l;
      } else {
        NewResultFirst(m, l);
        hide FaithfulEnv, NewResultKinds, ReadResultMembers, PrintResultMembers, ReachesSummary, Readable;
        ResultMembersRead(env, l[1..], rest, AddResultMember(m, l[0]));
      }
    }
  }

  lemma FirstResultRead(env: Env, l: seq<ResultMember>, rest: Tokens, m: ResultMembers)
    requires FaithfulEnv(env) && ResultMembersInRange(l) && l != []
    ensures ReadResultMembers(env, PrintResultMembers(l) + rest, m)
         == if l[0].ResultSummaryIs? then Undefined
            else if HasResultKind(m, ResultKind(l[0])) || !Readable(l[0]) then Refused
            else ReadResultMembers(env, PrintResultMembers(l[1..]) + rest, AddResultMember(m, l[0]))
    ensures ReachesSummary(m, l)
       <==> if l[0].ResultSummaryIs? then true
            else !HasResultKind(m, ResultKind(l[0])) && Readable(l[0])
                 && ReachesSummary(AddResultMember(m, l[0]), l[1..])
  {
    var x, name := l[0], Names(ResultNames)[ResultKind(l[0])];
    var more := PrintResultMembers(l[1..]) + rest;
    assert PrintResultMembers(l) + rest == [Name(name)] + (ResultValue(x) + more);
    ResultUnfolds(env, name, ResultValue(x) + more, m);
    Keyword(env, ResultNames, ResultKind(x));
    ResultValueRead(env, x, more, m);
    ReachesFirst(m, l);
    hide FaithfulEnv, NewResultKinds, ReadResultMember, ReadResultMembers, PrintResultMembers, ReachesSummary;
  }

  lemma {:induction false} AddedResultMembers(m: ResultMembers, l: seq<ResultMember>)
    requires NewResultKinds(m, l)
    ensures var all := AddResultMembers(m, l);
            && (forall v :: all.pass == Some(v) <==> m.pass == Some(v) || PassIs(v) in l)
            && (forall v :: all.nofRanked == Some(v) <==> m.nofRanked == Some(v) || RankedCountIs(v) in l)
            && (forall v :: all.nofVisited == Some(v) <==> m.nofVisited == Some(v) || VisitedCountIs(v) in l)
            && (all.ranks.None? <==> m.ranks.None? && forall x :: x in l ==> !x.RanksAre?)
            && (forall x :: x in l && x.RanksAre? ==> all.ranks == Some(NormalRanks(x.ranks)))
            && (m.ranks.Some? ==> all.ranks == m.ranks)
    decreases l
  {
    if l != [] {
      assert l[0] in l;
      NewResultFirst(m, l);
      AddedResultMembers(AddResultMember(m, l[0]), l[1..]);
      assert forall x :: x in l <==> x == l[0] || x in l[1..];
      assert forall x :: x in l[1..] ==> !HasResultKind(AddResultMember(m, l[0]), ResultKind(x));
    }
  }

  /** A query result with named members, in any order: it is read exactly if no name occurs twice, the counts are
      there, ranks are complete and no summary is given; with a summary behind readable members the behaviour is
      undefined, because the array of marks has no place for it. */
  lemma NamedResultRead(env: Env, l: seq<ResultMember>, rest: Tokens)
    requires FaithfulEnv(env) && ResultMembersInRange(l) && TagOf(rest) == TagClose
    ensures var r := ReadResult(env, PrintResultMembers(l) + rest);
            && (r.Undefined? <==> ReachesSummary(NO_RESULT, l))
            && (r.Got? <==> NewResultKinds(NO_RESULT, l)
                            && (exists x :: x in l && x.RankedCountIs?) && (exists x :: x in l && x.VisitedCountIs?))
            && (r.Got? ==>
                  && r.rest == rest && r.value.summary == []
                  && RankedCountIs(r.value.nofRanked) in l && VisitedCountIs(r.value.nofVisited) in l
                  && (PassIs(r.value.pass) in l || (r.value.pass == 0 && forall x :: x in l ==> !x.PassIs?))
                  && (forall x :: x in l && x.RanksAre? ==> r.value.ranks == NormalRanks(x.ranks))
                  && ((forall x :: x in l ==> !x.RanksAre?) ==> r.value.ranks == []))
  {
    ResultMembersRead(env, l, rest, NO_RESULT);
    if l == [] { Unit(rest); }
    if NewResultKinds(NO_RESULT, l) {
      AddedResultMembers(NO_RESULT, l);
      assert !ReachesSummary(NO_RESULT, l);
    }
    hide ReadResultMembers, FaithfulEnv, NewResultKinds, ReachesSummary, AddResultMembers, NormalRanks;
    assert forall x :: x in l && x.RankedCountIs? ==> x == RankedCountIs(x.count);
    assert forall x :: x in l && x.VisitedCountIs? ==> x == VisitedCountIs(x.count);
    assert forall x :: x in l && x.PassIs? ==> x == PassIs(x.pass);
  }
}
