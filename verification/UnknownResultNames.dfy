module UnknownResultNames {

  // Names of query results that are in no table: their marks are outside of the array of marks.

  import opened Wrappers
  import opened Serialization
  import opened QueryResults
  import opened NamedResults

  /** Behind members that can be read, an unknown name in a summary element leads outside. */
  lemma {:induction false} UnknownSummaryName(env: Env, l: seq<SummaryMember>, name: string, more: Tokens,
                                              m: SummaryMembers)
    requires FaithfulEnv(env) && SummaryMembersInRange(l) && !(0 <= env.index(SummaryNames, name) <= 3)
    ensures ReadSummaryMembers(env, PrintSummaryMembers(l) + ([Name(name)] + more), m)
         == if NewSummaryKinds(m, l) then Undefined else Refused
    decreases l
  {
    var bad := [Name(name)] + more;
    if l == [] {
      Unit(bad);
      SummaryUnfolds(env, name, more, m);
    } else {
      var x, known := l[0], Names(SummaryNames)[SummaryKind(l[0])];
      var tail := PrintSummaryMembers(l[1..]) + bad;
      assert PrintSummaryMembers(l) + bad == [Name(known)] + ([Val(SummaryValue(x))] + tail);
      SummaryUnfolds(env, known, [Val(SummaryValue(x))] + tail, m);
      Keyword(env, SummaryNames, SummaryKind(x));
      NewSummaryFirst(m, l);
      SummaryMemberRead(env, x, tail, m);
      hide FaithfulEnv, NewSummaryKinds, ReadSummaryMember, ReadSummaryMembers, PrintSummaryMembers;
      UnknownSummaryName(env, l[1..], name, more, AddSummaryMember(m, x));
    }
  }

  /** So does one in a ranked document. */
  lemma {:induction false} UnknownRankedName(env: Env, l: seq<RankedMember>, name: string, more: Tokens,
                                             m: RankedMembers)
    requires FaithfulEnv(env) && RankedMembersInRange(l) && !(0 <= env.index(RankedNames, name) <= 3)
    ensures ReadRankedMembers(env, PrintRankedMembers(l) + ([Name(name)] + more), m)
         == if NewRankedKinds(m, l) then Undefined else Refused
    decreases l
  {
    var bad := [Name(name)] + more;
    if l == [] {
      Unit(bad);
      RankedUnfolds(env, name, more, m);
    } else {
      FirstRankedRead(env, l, bad, m);
      NewRankedFirst(m, l);
      hide FaithfulEnv, NewRankedKinds, ReadRankedMembers, PrintRankedMembers;
      UnknownRankedName(env, l[1..], name, more, AddRankedMember(m, l[0]));
    }
  }

  /** And in a result, where a summary by name does the same. */
  lemma {:induction false} UnknownResultName(env: Env, l: seq<ResultMember>, name: string, more: Tokens,
                                             m: ResultMembers)
    requires FaithfulEnv(env) && ResultMembersInRange(l) && !(0 <= env.index(ResultNames, name) <= 3)
    ensures ReadResultMembers(env, PrintResultMembers(l) + ([Name(name)] + more), m)
         == if NewResultKinds(m, l) || ReachesSummary(m, l) then Undefined else Refused
    decreases l
  {
    hide FaithfulEnv, NewResultKinds, ReadResultMembers, PrintResultMembers, ReachesSummary, Readable;
    if l == [] {
      NoneBefore(env, name, more, m);
    } else {
      FirstResultRead(env, l, [Name(name)] + more, m);
      FirstKind(m, l);
      if !l[0].ResultSummaryIs? {
        UnknownResultName(env, l[1..], name, more, AddResultMember(m, l[0]));
      }
    }
  }

  lemma NoneBefore(env: Env, name: string, more: Tokens, m: ResultMembers)
    requires !(0 <= env.index(ResultNames, name) <= 3)
    ensures ReadResultMembers(env, PrintResultMembers([]) + ([Name(name)] + more), m) == Undefined
    ensures NewResultKinds(m, [])
  {
    Unit([Name(name)] + more);
    ResultUnfolds(env, name, more, m);
  }

  lemma FirstKind(m: ResultMembers, l: seq<ResultMember>)
    requires l != []
    ensures l[0].ResultSummaryIs? ==> !NewResultKinds(m, l)
    ensures !l[0].ResultSummaryIs? ==>
              (NewResultKinds(m, l) <==>
                 !HasResultKind(m, ResultKind(l[0])) && Readable(l[0])
                 && NewResultKinds(AddResultMember(m, l[0]), l[1..]))
  {
    if l[0].ResultSummaryIs? { assert l[0] in l; } else { NewResultFirst(m, l); }
  }
}
