module ExpressionFormsRead {

  // Reading expressions in all their forms: each is read as its calls exactly if it is accepted.

  import opened Wrappers
  import opened Serialization
  import opened ExpressionParser
  import opened ExpressionForms
  import Names = ExpressionKeywords
  import Discipline = ExpressionDiscipline

  // ---- names ----

  /** The names have their numbers. */
  ghost predicate Reading(env: Env)
  {
    && env.index(ExpressionNames, "expression") == 0
    && env.index(ExpressionNames, "term") == 1
    && env.index(ExpressionNames, "list") == 2
    && MembersKnown(env)
  }

  ghost predicate MembersKnown(env: Env)
  {
    && env.index(TypeNames, "type") == 0 && env.index(TypeNames, "value") == 1 && env.index(TypeNames, "len") == 2
    && env.index(TypeNames, "variable") == 3 && env.index(TypeNames, "op") == 4 && env.index(TypeNames, "range") == 5
    && env.index(TypeNames, "cardinality") == 6 && env.index(TypeNames, "arg") == 7
    && env.index(TermNames, "type") == 0 && env.index(TermNames, "value") == 1
    && env.index(TermNames, "variable") == 2 && env.index(TermNames, "len") == 3
    && env.index(JoinNames, "variable") == 0 && env.index(JoinNames, "op") == 1 && env.index(JoinNames, "range") == 2
    && env.index(JoinNames, "cardinality") == 3 && env.index(JoinNames, "arg") == 4
    && NoKeywords(env)
  }

  ghost predicate NoKeywords(env: Env)
  {
    && env.index(ExpressionNames, "type") < 0 && env.index(ExpressionNames, "value") < 0
    && env.index(ExpressionNames, "len") < 0 && env.index(ExpressionNames, "variable") < 0
    && env.index(ExpressionNames, "op") < 0 && env.index(ExpressionNames, "range") < 0
    && env.index(ExpressionNames, "cardinality") < 0 && env.index(ExpressionNames, "arg") < 0
  }

  lemma NamesAreKnown(env: Env)
    requires Names.FindsNames(env)
    ensures Reading(env)
  {
    TypesAreKnown(env);
    TermsAreKnown(env);
    KeywordsAreKnown(env);
    NoneIsKeyword(env);
  }

  lemma KeywordsAreKnown(env: Env)
    requires Names.FindsNames(env)
    ensures env.index(ExpressionNames, "expression") == 0 && env.index(ExpressionNames, "term") == 1
    ensures env.index(ExpressionNames, "list") == 2
  {
    hide Names.FindsNames;
    Names.Keyword(env, ExpressionNames, 0);
    Names.Keyword(env, ExpressionNames, 1);
    Names.Keyword(env, ExpressionNames, 2);
  }

  lemma TypesAreKnown(env: Env)
    requires Names.FindsNames(env)
    ensures env.index(TypeNames, "type") == 0 && env.index(TypeNames, "value") == 1 && env.index(TypeNames, "len") == 2
    ensures env.index(TypeNames, "variable") == 3 && env.index(TypeNames, "op") == 4
    ensures env.index(TypeNames, "range") == 5 && env.index(TypeNames, "cardinality") == 6
    ensures env.index(TypeNames, "arg") == 7
  {
    hide Names.FindsNames;
    Names.Keyword(env, TypeNames, 0);
    Names.Keyword(env, TypeNames, 1);
    Names.Keyword(env, TypeNames, 2);
    Names.Keyword(env, TypeNames, 3);
    Names.Keyword(env, TypeNames, 4);
    Names.Keyword(env, TypeNames, 5);
    Names.Keyword(env, TypeNames, 6);
    Names.Keyword(env, TypeNames, 7);
  }

  lemma TermsAreKnown(env: Env)
    requires Names.FindsNames(env)
    ensures env.index(TermNames, "type") == 0 && env.index(TermNames, "value") == 1
    ensures env.index(TermNames, "variable") == 2 && env.index(TermNames, "len") == 3
    ensures env.index(JoinNames, "variable") == 0 && env.index(JoinNames, "op") == 1
    ensures env.index(JoinNames, "range") == 2 && env.index(JoinNames, "cardinality") == 3
    ensures env.index(JoinNames, "arg") == 4
  {
    hide Names.FindsNames;
    Names.Keyword(env, TermNames, 0);
    Names.Keyword(env, TermNames, 1);
    Names.Keyword(env, TermNames, 2);
    Names.Keyword(env, TermNames, 3);
    Names.Keyword(env, JoinNames, 0);
    Names.Keyword(env, JoinNames, 1);
    Names.Keyword(env, JoinNames, 2);
    Names.Keyword(env, JoinNames, 3);
    Names.Keyword(env, JoinNames, 4);
  }

  lemma NoneIsKeyword(env: Env)
    requires Names.FindsNames(env)
    ensures NoKeywords(env)
  {
    hide Names.FindsNames;
    Names.NoExpressionName(env, 0);
    Names.NoExpressionName(env, 1);
    Names.NoExpressionName(env, 2);
    Names.NoExpressionName(env, 3);
    Names.NoExpressionName(env, 4);
    Names.NoExpressionName(env, 5);
    Names.NoExpressionName(env, 6);
    Names.NoExpressionName(env, 7);
  }

  // ---- terms ----

  lemma TermMemberRead(env: Env, m: TermMember, rest: Tokens, def: TermDef)
    requires Reading(env) && (m.NoneOfTerm? ==> Unknown(env, m.name))
    ensures TagOf(WriteTermMember(m, rest)) == TagName
    ensures TermMembers(env, WriteTermMember(m, rest), def)
         == if TermMemberAccepted(env, m) then TermMembersNext(env, rest, With(env, def, m)) else Fail
  {
    hide NoKeywords;
  }

  /** The definition of a term with one more member. */
  function With(env: Env, def: TermDef, m: TermMember): TermDef
  {
    match m
    case TypeIs(v) => def.(termType := env.cv.text(v))
    case ValueIs(v) => def.(value := env.cv.text(v))
    case BoundTo(v) => def.(variable := TextOf(env, v))
    case LengthIs(v) => def.(length := env.cv.uint32(v))
    case NoneOfTerm(_, _) => def
  }

  function Or<T>(a: Option<T>, b: Option<T>): Option<T> { if a.Some? then a else b }

  /** The definition of a term after some members. */
  function Overlaid(env: Env, def: TermDef, l: seq<TermMember>): TermDef
  {
    TermDef(ValueOr(LastVariable(env, l), def.variable), Or(LastType(env, l), def.termType),
            Or(LastValue(env, l), def.value), Or(LastLength(env, l), def.length))
  }

  lemma {:induction false} TermMembersRead(env: Env, l: seq<TermMember>, rest: Tokens, def: TermDef)
    requires Reading(env) && TermsProper(env, l) && TagOf(rest) == TagClose
    ensures TermMembersNext(env, WriteTermMembers(l, rest), def)
         == if TermsAccepted(env, l) then Done(Overlaid(env, def, l), rest) else Fail
    decreases l
  {
    hide Reading, WriteTermMember, TermMemberAccepted, Unknown, Overlaid, With;
    if l == [] {
      NoTermMembers(env, rest, def);
    } else {
      var m, tail := l[0], WriteTermMembers(l[1..], rest);
      TermMemberRead(env, m, tail, def);
      NextIsMembers(env, WriteTermMember(m, tail), def);
      if TermMemberAccepted(env, m) {
        TermMembersRead(env, l[1..], rest, With(env, def, m));
        OverlaidFirst(env, def, l);
      }
    }
  }

  lemma NoTermMembers(env: Env, rest: Tokens, def: TermDef)
    requires TagOf(rest) == TagClose
    ensures TermMembersNext(env, rest, def) == Done(Overlaid(env, def, []), rest)
  {
  }

  lemma OverlaidFirst(env: Env, def: TermDef, l: seq<TermMember>)
    requires l != [] && TermMemberAccepted(env, l[0])
    ensures Overlaid(env, With(env, def, l[0]), l[1..]) == Overlaid(env, def, l)
  {
  }

  lemma NextIsMembers(env: Env, ts: Tokens, def: TermDef)
    requires TagOf(ts) == TagName
    ensures TermMembersNext(env, ts, def) == TermMembers(env, ts, def)
  {
  }

  /** What the reader makes of the members of a term. */
  lemma TermByNamesRead(env: Env, f: Form, rest: Tokens, lists: bool)
    requires Reading(env) && f.TermByNames? && Proper(env, f) && TagOf(rest) == TagClose
    ensures ParseTyped(env, ExpressionTerm, WriteBody(f, rest), lists)
         == if BodyAccepted(env, f, lists) then Done(Pushed(env, f), rest) else Fail
  {
    hide Reading, TermMembersNext, TermMembers, LastType, LastValue, LastVariable, LastLength, TermsAccepted;
    if f.terms == [] {
      NoTerm(env, rest, lists);
    } else {
      TermMembersRead(env, f.terms, rest, NO_TERM);
      FirstIsName(f.terms, rest);
      NextIsMembers(env, WriteBody(f, rest), NO_TERM);
    }
  }

  lemma FirstIsName(l: seq<TermMember>, rest: Tokens)
    requires l != []
    ensures TagOf(WriteTermMembers(l, rest)) == TagName
  {
  }

  lemma NoTerm(env: Env, rest: Tokens, lists: bool)
    requires TagOf(rest) == TagClose
    ensures ParseTyped(env, ExpressionTerm, rest, lists) == Fail
    ensures LastType(env, []) == None
  {
  }

  lemma VariableRead(env: Env, variable: Option<Value>, rest: Tokens)
    requires TagOf(rest) == TagValue
    ensures TermVariable(env, WriteVariable(variable, rest))
         == if variable.None? then Done("", rest)
            else if IsText(env, variable.value) then Done(TextOf(env, variable.value), rest)
            else Fail
    ensures TagOf(WriteVariable(variable, rest)) != TagName
  {
    if variable.Some? {
      var ts := WriteVariable(variable, rest);
      assert [variable.value][1..] == [];
      assert WriteVariables([variable.value], [Close] + rest)
          == [Name("variable")] + ([Val(variable.value)] + WriteVariables([], [Close] + rest));
      assert ts[1..] == [Name("variable")] + ([Val(variable.value)] + ([Close] + rest));
      assert ts[2..] == [Val(variable.value)] + ([Close] + rest) && ts[2..][1..] == [Close] + rest;
    }
  }

  lemma ValuesRead(env: Env, variable: string, termType: Value, behind: Behind, rest: Tokens)
    requires TagOf(rest) == TagClose
    ensures TermValues(env, [Val(termType)] + WriteBehind(behind, rest), variable)
         == if !IsText(env, termType) || !BehindAccepted(env, behind) then Fail
            else Done(TermDef(variable, env.cv.text(termType), env.cv.text(behind.value),
                              if behind.Measured? then env.cv.uint32(behind.length) else None), rest)
  {
  }

  lemma TermByValuesRead(env: Env, f: Form, rest: Tokens, lists: bool)
    requires f.TermByValues? && TagOf(rest) == TagClose
    ensures ParseTyped(env, ExpressionTerm, WriteBody(f, rest), lists)
         == if BodyAccepted(env, f, lists) then Done(Pushed(env, f), rest) else Fail
  {
    hide WriteVariable, WriteBehind, TermVariable, TermValues;
    var values := [Val(f.termType)] + WriteBehind(f.behind, rest);
    var variable := if f.variable.Some? then TextOf(env, f.variable.value) else "";
    VariableRead(env, f.variable, values);
    ValuesRead(env, variable, f.termType, f.behind, rest);
  }

  // ---- joins in places ----

  lemma {:induction false} OptionsRead(env: Env, l: seq<Value>, rest: Tokens, variable: string)
    ensures JoinVariable(env, WriteVariables(l, [Close] + rest), variable)
         == if AllTexts(env, l) then Done(LastOr(env, l, variable), rest) else Fail
    decreases l
  {
    hide JoinVariable;
    var ts := WriteVariables(l, [Close] + rest);
    Discipline.OptionStep(env, ts, variable);
    if l != [] && IsText(env, l[0]) { OptionsRead(env, l[1..], rest, TextOf(env, l[0])); }
  }

  /** What is behind an operator whose numbers cannot be converted is no argument. */
  lemma NumbersRead(env: Env, op: Value, numbers: Numbers, rest: Tokens, variable: string)
    requires TagOf(rest) != TagValue
    ensures var r := JoinHead(env, [Val(op)] + WriteNumbers(numbers, rest), variable);
            if IsText(env, op) && NumbersAccepted(env, numbers)
            then r == Done(JoinDef(variable, TextOf(env, op), RangeInPlace(env, numbers),
                                   CardinalityInPlace(env, numbers), 0, {}), rest)
            else r.Fail? || (r.Done? && TagOf(r.rest) == TagValue)
  {
    var ts := [Val(op)] + WriteNumbers(numbers, rest);
    if numbers.Counted? {
      assert ts[1..][1..] == [Val(numbers.cardinality)] + rest;
      assert ts[1..][2..] == rest;
    }
  }

  lemma ItemsTag(l: seq<Form>, rest: Tokens)
    requires TagOf(rest) == TagClose
    ensures TagOf(WriteItems(l, rest)) == if l == [] then TagClose else TagOpen
  {
    hide Write;
  }

  lemma HeadRead(env: Env, f: Form, rest: Tokens)
    requires f.JoinByValues? && TagOf(rest) == TagClose
    ensures var r := PositionalHead(env, WriteBody(f, rest));
            if && (f.options.Some? ==> AllTexts(env, f.options.value)) && IsText(env, f.op)
               && NumbersAccepted(env, f.numbers)
            then r == Done(JoinDef(if f.options.Some? then LastOr(env, f.options.value, "") else "", TextOf(env, f.op),
                                   RangeInPlace(env, f.numbers), CardinalityInPlace(env, f.numbers), 0, {}),
                           WriteItems(f.args, rest))
            else r.Fail? || (r.Done? && TagOf(r.rest) == TagValue)
    ensures TagOf(WriteBody(f, rest)) != TagName
  {
    hide JoinVariable, JoinHead, WriteItems, WriteNumbers, WriteVariables, NumbersAccepted, AllTexts, LastOr, TextOf;
    hide RangeInPlace, CardinalityInPlace;
    var head := [Val(f.op)] + WriteNumbers(f.numbers, WriteItems(f.args, rest));
    ItemsTag(f.args, rest);
    NumbersRead(env, f.op, f.numbers, WriteItems(f.args, rest),
                if f.options.Some? then LastOr(env, f.options.value, "") else "");
    if f.options.Some? { OptionsRead(env, f.options.value, head, ""); }
  }

  /** One expression in brackets and what is behind it. */
  lemma BracketRead(env: Env, f: Form, tail: Tokens)
    requires ParseExpression(env, Write(f, [Close] + tail), false)
          == if Accepted(env, f, false) then Done(Pushed(env, f), [Close] + tail) else Fail
    ensures Bracketed(env, [Open] + Write(f, [Close] + tail))
         == if Accepted(env, f, false) then Done(Pushed(env, f), tail) else Fail
  {
    hide ParseExpression, Write, Accepted, Pushed;
  }

  lemma ArgumentsUnfold(env: Env, ts: Tokens)
    requires TagOf(ts) == TagOpen && !Bracketed(env, ts).Stuck?
    ensures var first := Bracketed(env, ts);
            ParseArguments(env, ts) == (
              if first.Fail? then Fail
              else match ParseArguments(env, first.rest)
                   case Fail => Fail
                   case Stuck => Stuck
                   case Done((n, more), rest) => Done((n + 1, first.value + more), rest))
  {
    hide Bracketed;
  }

  lemma ListUnfolds(env: Env, ts: Tokens)
    requires TagOf(ts) == TagOpen && !Bracketed(env, ts).Stuck?
    ensures var first := Bracketed(env, ts);
            ParseList(env, ts) == (
              if first.Fail? then Fail
              else match ParseList(env, first.rest)
                   case Fail => Fail
                   case Stuck => Stuck
                   case Done((n, more), rest) => Done((n + 1, first.value + more), rest))
  {
    hide Bracketed;
  }

  lemma NoItems(env: Env, rest: Tokens)
    requires TagOf(rest) == TagClose
    ensures ParseArguments(env, rest) == Done((0, []), rest) && ParseList(env, rest) == Done((0, []), rest)
  {
  }

  // ---- how an expression begins ----

  /** Behind the variables there is a member whose name is known. */
  predicate KnownTerm(l: seq<TermMember>) { l != [] && if l[0].BoundTo? then KnownTerm(l[1..]) else !l[0].NoneOfTerm? }

  predicate KnownJoin(l: seq<JoinMember>)
  {
    l != [] && if l[0].VariableIs? then KnownJoin(l[1..]) else !l[0].NoneOfJoin?
  }

  lemma {:induction false} UnknownTerm(env: Env, l: seq<TermMember>)
    requires !KnownTerm(l)
    ensures TermsAccepted(env, l) ==> LastType(env, l) == None
  {
    if l != [] && l[0].BoundTo? { UnknownTerm(env, l[1..]); }
  }

  lemma {:induction false} UnknownJoin(env: Env, l: seq<JoinMember>)
    ensures KnownJoin(l) ==> exists m :: m in l && !m.VariableIs?
    ensures !KnownJoin(l) && JoinsAccepted(env, l) ==> forall m :: m in l ==> m.VariableIs?
  {
    if l != [] {
      assert forall m :: m in l <==> m == l[0] || m in l[1..];
      if l[0].VariableIs? {
        UnknownJoin(env, l[1..]);
      } else {
        var m := l[0];
        assert m in l && !m.VariableIs? && (m.NoneOfJoin? ==> !MemberAccepted(env, m));
      }
    }
  }

  lemma TypeBehindVariable(env: Env, s: Value, rest: Tokens)
    requires Reading(env)
    ensures TypeByName(env, [Name("variable")] + ([Val(s)] + rest))
         == if TagOf(rest) == TagName then TypeByName(env, rest) else ExpressionUnknown
  {
    hide NoKeywords;
    var ts := [Name("variable")] + ([Val(s)] + rest);
    assert SkipStructure(ts[1..]) == Some(rest);
  }

  lemma TermMemberType(env: Env, m: TermMember, rest: Tokens)
    requires Reading(env) && !m.BoundTo? && (m.NoneOfTerm? ==> Unknown(env, m.name))
    ensures TypeByName(env, WriteTermMember(m, rest)) == if m.NoneOfTerm? then ExpressionUnknown else ExpressionTerm
  {
    hide NoKeywords;
  }

  lemma JoinMemberType(env: Env, m: JoinMember, rest: Tokens)
    requires Reading(env) && !m.VariableIs? && (m.NoneOfJoin? ==> Unknown(env, m.name))
    ensures TagOf(WriteJoinMember(m, rest)) == TagName
    ensures TypeByName(env, WriteJoinMember(m, rest)) == if m.NoneOfJoin? then ExpressionUnknown else ExpressionJoin
  {
    hide NoKeywords, Write;
  }

  lemma {:induction false} TermNamesType(env: Env, l: seq<TermMember>, rest: Tokens)
    requires Reading(env) && l != [] && TermsProper(env, l) && TagOf(rest) == TagClose
    ensures TagOf(WriteTermMembers(l, rest)) == TagName
    ensures TypeByName(env, WriteTermMembers(l, rest)) == if KnownTerm(l) then ExpressionTerm else ExpressionUnknown
    decreases l
  {
    hide Reading, TypeByName, Unknown;
    FirstIsName(l, rest);
    var tail := WriteTermMembers(l[1..], rest);
    if l[0].BoundTo? {
      TypeBehindVariable(env, l[0].v, tail);
      if l[1..] != [] { TermNamesType(env, l[1..], rest); }
    } else {
      TermMemberType(env, l[0], tail);
    }
  }

  lemma {:induction false} JoinNamesType(env: Env, l: seq<JoinMember>, rest: Tokens)
    requires Reading(env) && l != [] && JoinsProper(env, l) && TagOf(rest) == TagClose
    ensures TagOf(WriteJoinMembers(l, rest)) == TagName
    ensures TypeByName(env, WriteJoinMembers(l, rest)) == if KnownJoin(l) then ExpressionJoin else ExpressionUnknown
    decreases l
  {
    hide Reading, TypeByName, Write, Unknown, Proper;
    var tail := WriteJoinMembers(l[1..], rest);
    if l[0].VariableIs? {
      TypeBehindVariable(env, l[0].v, tail);
      if l[1..] != [] { JoinNamesType(env, l[1..], rest); }
    } else {
      JoinMemberType(env, l[0], tail);
    }
  }

  lemma {:induction false} VariablesType(env: Env, l: seq<Value>, rest: Tokens)
    requires Reading(env) && l != [] && TagOf(rest) == TagClose
    ensures TagOf(WriteVariables(l, rest)) == TagName
    ensures TypeByName(env, WriteVariables(l, rest)) == ExpressionUnknown
    decreases l
  {
    hide Reading, TypeByName;
    TypeBehindVariable(env, l[0], WriteVariables(l[1..], rest));
    if l[1..] != [] { VariablesType(env, l[1..], rest); }
  }

  lemma HeadIsJoin(op: Value, numbers: Numbers, rest: Tokens)
    requires TagOf(rest) == TagOpen
    ensures TypeByValues([Val(op)] + WriteNumbers(numbers, rest)) == ExpressionJoin
  {
    var ts := [Val(op)] + WriteNumbers(numbers, rest);
    match numbers
    case NoNumbers => assert LeadingValues(ts, 3) == 1 && ts[1..] == rest;
    case Ranged(_) =>
      assert LeadingValues(ts, 3) == 1 + LeadingValues(ts[1..], 2) == 2 + LeadingValues(rest, 1);
      assert ts[2..] == rest;
    case Counted(_, _) =>
      assert ts[1..][1..][1..] == rest;
      assert LeadingValues(ts, 3) == 1 + LeadingValues(ts[1..], 2) == 2 + LeadingValues(ts[1..][1..], 1);
      assert ts[3..] == rest;
  }

  lemma ValuesAreTerm(termType: Value, behind: Behind, rest: Tokens)
    requires TagOf(rest) == TagClose
    ensures TypeByValues([Val(termType)] + WriteBehind(behind, rest)) == ExpressionTerm
  {
    var ts := [Val(termType)] + WriteBehind(behind, rest);
    match behind
    case TypeOnly => assert LeadingValues(ts, 3) == 1 && ts[1..] == rest;
    case Valued(_) =>
      assert LeadingValues(ts, 3) == 1 + LeadingValues(ts[1..], 2) == 2 + LeadingValues(rest, 1);
      assert ts[2..] == rest;
    case Measured(_, _) =>
      assert ts[1..][1..][1..] == rest;
      assert LeadingValues(ts, 3) == 1 + LeadingValues(ts[1..], 2) == 2 + LeadingValues(ts[1..][1..], 1);
      assert ts[3..] == rest;
  }

  /** A leading structure with variables is understood exactly if it holds one. */
  lemma OptionsType(env: Env, l: seq<Value>, values: Tokens)
    ensures var ts := [Open] + WriteVariables(l, [Close] + values);
            GetExpressionType(env, ts)
              == if l == [] then Done(ExpressionList, ts)
                 else if |l| == 1 then Done(TypeByValues(values), ts) else Fail
  {
    hide TypeByValues, GetExpressionType, TypeByName;
    if l == [] {
      NoVariables([Close] + values);
      StructureType(env, [Close] + values);
    } else {
      var tail := WriteVariables(l[1..], [Close] + values);
      StructureType(env, [Name("variable")] + ([Val(l[0])] + tail));
      assert ([Name("variable")] + ([Val(l[0])] + tail))[1..] == [Val(l[0])] + tail;
      if |l| == 1 {
        assert l[1..] == [] && tail == [Close] + values && tail[1..] == values;
      } else {
        assert tail[0] == Name("variable");
      }
    }
  }

  /** The kind of an expression that begins with a structure. */
  lemma StructureType(env: Env, ts: Tokens)
    ensures GetExpressionType(env, [Open] + ts) == (
              if TagOf(ts) == TagName && ts[0].name == "variable" then
                if TagOf(ts[1..]) == TagValue then
                  if ConsumeClose(ts[1..][1..]).Done? then Done(TypeByValues(ts[1..][1..][1..]), [Open] + ts) else Fail
                else GetExpressionType(env, [Open] + ts)
              else Done(ExpressionList, [Open] + ts))
  {
    hide TypeByValues, TypeByName, SkipBrackets;
    assert ([Open] + ts)[1..] == ts;
    if ts != [] { assert ([Open] + ts)[2..] == ts[1..]; }
  }

  lemma NothingIsNoExpression(env: Env, rest: Tokens, lists: bool)
    requires TagOf(rest) == TagClose
    ensures ParseExpression(env, rest, lists) == Fail
  {
    assert LeadingValues(rest, 3) == 0 && rest[0..] == rest;
  }

  lemma EmptyStructure(env: Env, rest: Tokens)
    ensures ParseList(env, [Open] + ([Close] + rest)) == Fail
  {
    hide ParseExpression;
    NothingIsNoExpression(env, [Close] + rest, false);
    assert Bracketed(env, [Open] + ([Close] + rest)) == Fail;
  }

  lemma PlainUnfolds(env: Env, ts: Tokens, lists: bool)
    requires TagOf(ts) == TagName ==> env.index(ExpressionNames, ts[0].name) < 0
    ensures ParseExpression(env, ts, lists)
         == if GetExpressionType(env, ts).Done? then ParseTyped(env, GetExpressionType(env, ts).value, ts, lists)
            else Fail
  {
    hide GetExpressionType, ParseTyped;
  }

  /** Variables alone are no expression. */
  lemma OnlyVariablesFail(env: Env, l: seq<Value>, rest: Tokens, lists: bool)
    requires Reading(env) && TagOf(rest) == TagClose
    ensures ParseExpression(env, WriteVariables(l, rest), lists) == Fail
  {
    hide ParseExpression, TypeByName;
    if l == [] {
      NothingIsNoExpression(env, rest, lists);
    } else {
      VariablesType(env, l, rest);
      PlainUnfolds(env, WriteVariables(l, rest), lists);
    }
  }

  function TypeOf(f: Form): ExpressionType
  {
    match f
    case TermByValues(_, _, _, _) => ExpressionTerm
    case TermByNames(_, _) => ExpressionTerm
    case Listed(_, _) => ExpressionList
    case _ => ExpressionJoin
  }

  lemma KeywordRead(env: Env, f: Form, content: Tokens, lists: bool)
    requires Reading(env)
    ensures ParseExpression(env, [Name(Keyword(f))] + ([Open] + content), lists)
         == Closed(ParseTyped(env, TypeOf(f), content, lists))
  {
    hide MembersKnown, ParseTyped;
    var ts := [Name(Keyword(f))] + ([Open] + content);
    assert ts[1..] == [Open] + content && ts[2..] == content;
  }

  lemma JoinFirstName(env: Env, m: JoinMember, rest: Tokens)
    requires Reading(env) && (m.NoneOfJoin? ==> Unknown(env, m.name))
    ensures TagOf(WriteJoinMember(m, rest)) == TagName
    ensures env.index(ExpressionNames, WriteJoinMember(m, rest)[0].name) < 0
    ensures WriteJoinMember(m, rest)[0].name == "variable" <==> m.VariableIs?
  {
    hide Write;
  }

  lemma JoinIsName(m: JoinMember, rest: Tokens)
    ensures TagOf(WriteJoinMember(m, rest)) == TagName
  {
    hide Write;
  }

  lemma TermFirstName(env: Env, m: TermMember, rest: Tokens)
    requires Reading(env) && (m.NoneOfTerm? ==> Unknown(env, m.name))
    ensures TagOf(WriteTermMember(m, rest)) == TagName
    ensures env.index(ExpressionNames, WriteTermMember(m, rest)[0].name) < 0
    ensures WriteTermMember(m, rest)[0].name == "variable" <==> m.BoundTo?
  {
  }

  lemma TermNamesRecognized(env: Env, l: seq<TermMember>, rest: Tokens, lists: bool)
    requires Reading(env) && TermsProper(env, l) && TagOf(rest) == TagClose
    ensures ParseExpression(env, WriteTermMembers(l, rest), lists)
         == if KnownTerm(l) then ParseTyped(env, ExpressionTerm, WriteTermMembers(l, rest), lists) else Fail
  {
    hide Reading, ParseExpression, ParseTyped, TypeByName, WriteTermMember, Unknown;
    if l == [] {
      NothingIsNoExpression(env, rest, lists);
    } else {
      TermFirstName(env, l[0], WriteTermMembers(l[1..], rest));
      TermNamesType(env, l, rest);
      PlainUnfolds(env, WriteTermMembers(l, rest), lists);
      UnknownFails(env, WriteTermMembers(l, rest), lists);
    }
  }

  lemma JoinNamesRecognized(env: Env, l: seq<JoinMember>, rest: Tokens, lists: bool)
    requires Reading(env) && JoinsProper(env, l) && TagOf(rest) == TagClose
    ensures ParseExpression(env, WriteJoinMembers(l, rest), lists)
         == if KnownJoin(l) then ParseTyped(env, ExpressionJoin, WriteJoinMembers(l, rest), lists) else Fail
  {
    hide Reading, ParseExpression, ParseTyped, TypeByName, WriteJoinMember, Unknown, Proper;
    if l == [] {
      NothingIsNoExpression(env, rest, lists);
    } else {
      JoinFirstName(env, l[0], WriteJoinMembers(l[1..], rest));
      JoinNamesType(env, l, rest);
      PlainUnfolds(env, WriteJoinMembers(l, rest), lists);
      UnknownFails(env, WriteJoinMembers(l, rest), lists);
    }
  }

  lemma UnknownFails(env: Env, ts: Tokens, lists: bool)
    ensures ParseTyped(env, ExpressionUnknown, ts, lists) == Fail
    ensures ParseTyped(env, ExpressionList, ts, lists)
         == if !lists || ParseList(env, ts).Fail? then Fail
            else if ParseList(env, ts).Stuck? then Stuck
            else Done(ParseList(env, ts).value.1, ParseList(env, ts).rest)
  {
    hide ParseList;
  }

  lemma TermValuesRecognized(env: Env, f: Form, rest: Tokens, lists: bool)
    requires f.TermByValues? && TagOf(rest) == TagClose
    ensures ParseExpression(env, WriteBody(f, rest), lists)
         == ParseTyped(env, ExpressionTerm, WriteBody(f, rest), lists)
  {
    hide ParseExpression, ParseTyped, TypeByValues, WriteVariables, WriteBehind;
    var values := [Val(f.termType)] + WriteBehind(f.behind, rest);
    ValuesAreTerm(f.termType, f.behind, rest);
    if f.variable.Some? { OptionsType(env, [f.variable.value], values); }
    PlainUnfolds(env, WriteBody(f, rest), lists);
  }

  lemma JoinValuesRecognized(env: Env, f: Form, rest: Tokens, lists: bool)
    requires f.JoinByValues? && (f.args != [] || !Recognized(f)) && TagOf(rest) == TagClose
    ensures ParseExpression(env, WriteBody(f, rest), lists)
         == if Recognized(f) then ParseTyped(env, ExpressionJoin, WriteBody(f, rest), lists) else Fail
  {
    hide ParseExpression, ParseTyped, TypeByValues, WriteVariables, WriteNumbers, WriteItems, ParseList;
    var values := [Val(f.op)] + WriteNumbers(f.numbers, WriteItems(f.args, rest));
    ItemsTag(f.args, rest);
    if f.args != [] { HeadIsJoin(f.op, f.numbers, WriteItems(f.args, rest)); }
    PlainUnfolds(env, WriteBody(f, rest), lists);
    if f.options.Some? {
      OptionsType(env, f.options.value, values);
      if f.options.value == [] {
        NoVariables([Close] + values);
        UnknownFails(env, WriteBody(f, rest), lists);
        EmptyStructure(env, values);
      }
    }
  }

  lemma NoVariables(rest: Tokens)
    ensures WriteVariables([], rest) == rest
  {
  }

  /** A list whose first expression begins with the name of its variable is taken for options. */
  lemma VariableFirst(env: Env, s: Value, more: Tokens, lists: bool)
    requires Reading(env)
    requires TagOf(more) == TagName || (more != [] && more[0] == Close && TagOf(more[1..]) in {TagOpen, TagClose})
    ensures ParseExpression(env, [Open] + ([Name("variable")] + ([Val(s)] + more)), lists) == Fail
  {
    hide ParseExpression, Reading, TypeByValues, ParseTyped, ParseJoin, GetExpressionType;
    var inner := [Name("variable")] + ([Val(s)] + more);
    var ts := [Open] + inner;
    assert inner[1..] == [Val(s)] + more && inner[1..][1..] == more;
    StructureType(env, inner);
    PlainUnfolds(env, ts, lists);
    if TagOf(more) != TagName {
      var behind := more[1..];
      assert more == [Close] + behind;
      JustOpen(behind);
      EmptyFails(env, ts, lists);
      if TagOf(behind) == TagOpen { NoOperator(env, s, behind); }
    }
  }

  lemma EmptyFails(env: Env, ts: Tokens, lists: bool)
    ensures ParseTyped(env, ExpressionEmpty, ts, lists) == Fail
    ensures ParseTyped(env, ExpressionJoin, ts, lists) == ParseJoin(env, ts)
  {
    hide ParseJoin;
  }

  lemma JustOpen(ts: Tokens)
    ensures TagOf(ts) == TagOpen ==> TypeByValues(ts) == ExpressionJoin
    ensures TagOf(ts) == TagClose ==> TypeByValues(ts) == ExpressionEmpty
  {
    assert ts[0..] == ts;
  }

  lemma NoOperator(env: Env, s: Value, behind: Tokens)
    requires Reading(env) && TagOf(behind) == TagOpen
    ensures ParseJoin(env, [Open] + ([Name("variable")] + ([Val(s)] + ([Close] + behind)))) == Fail
  {
    hide MembersKnown, JoinVariable;
    OptionsRead(env, [s], behind, "");
    assert WriteVariables([s], [Close] + behind) == [Name("variable")] + ([Val(s)] + ([Close] + behind)) by {
      assert [s][1..] == [];
    }
  }

  // ---- the theorem ----

  lemma UnknownProper(env: Env, m: JoinMember)
    requires JoinProper(env, m)
    ensures m.NoneOfJoin? ==> Unknown(env, m.name)
  {
  }

  lemma FirstToken(env: Env, f: Form, rest: Tokens)
    requires Reading(env) && Proper(env, f) && TagOf(rest) == TagClose
    ensures var ts := Write(f, rest);
            && (TagOf(ts) == TagOpen <==> BeginsWithStructure(f) || (f.Listed? && !f.keyword && f.items != []))
            && (TagOf(ts) == TagName && ts[0].name == "variable" <==> BeginsWithVariable(f))
  {
    hide Reading, WriteVariables, WriteBehind, WriteNumbers, WriteJoinMember, WriteTermMember, Unknown;
    if !f.keyword {
      assert Write(f, rest) == WriteBody(f, rest);
      match f
      case TermByNames(_, l) =>
        assert WriteBody(f, rest) == WriteTermMembers(l, rest);
        if l != [] { TermFirstName(env, l[0], WriteTermMembers(l[1..], rest)); }
      case JoinByNames(_, l) =>
        assert WriteBody(f, rest) == WriteJoinMembers(l, rest);
        if l != [] {
          FirstProper(env, l);
          UnknownProper(env, l[0]);
          JoinFirstName(env, l[0], WriteJoinMembers(l[1..], rest));
        }
      case Listed(_, l) => assert WriteBody(f, rest) == WriteItems(l, rest);
      case _ =>
    }
  }

  lemma ListRecognized(env: Env, f: Form, rest: Tokens, lists: bool)
    requires Reading(env) && f.Listed? && AllProper(env, f.items) && TagOf(rest) == TagClose
    ensures ParseExpression(env, WriteBody(f, rest), lists)
         == if Recognized(f) then ParseTyped(env, ExpressionList, WriteBody(f, rest), lists) else Fail
  {
    hide Reading, ParseExpression, ParseTyped, Write, BeginsWithVariable, BeginsWithStructure, TypeByValues, Proper;
    assert WriteBody(f, rest) == WriteItems(f.items, rest);
    if f.items == [] {
      NothingIsNoExpression(env, rest, lists);
    } else {
      var content := Write(f.items[0], [Close] + WriteItems(f.items[1..], rest));
      FirstToken(env, f.items[0], [Close] + WriteItems(f.items[1..], rest));
      assert WriteBody(f, rest)[1..] == content;
      if BeginsWithVariable(f.items[0]) {
        VariableItemFails(env, f, rest, lists);
      } else {
        PlainUnfolds(env, WriteBody(f, rest), lists);
        assert TagOf(content) == TagName ==> WriteBody(f, rest)[1] == content[0];
      }
    }
  }

  lemma VariableItemFails(env: Env, f: Form, rest: Tokens, lists: bool)
    requires Reading(env) && f.Listed? && f.items != [] && BeginsWithVariable(f.items[0]) && TagOf(rest) == TagClose
    ensures ParseExpression(env, WriteBody(f, rest), lists) == Fail
  {
    hide Reading, ParseExpression, WriteTermMember, WriteJoinMember;
    var first, behind := f.items[0], [Close] + WriteItems(f.items[1..], rest);
    assert WriteBody(f, rest) == WriteItems(f.items, rest) == [Open] + WriteBody(first, behind);
    ItemsTag(f.items[1..], rest);
    assert behind[1..] == WriteItems(f.items[1..], rest);
    if first.TermByNames? {
      var more := WriteTermMembers(first.terms[1..], behind);
      assert WriteBody(first, behind) == WriteTermMembers(first.terms, behind);
      WrittenVariable(first.terms[0].v, more);
      if first.terms[1..] != [] { FirstIsName(first.terms[1..], behind); }
      VariableFirst(env, first.terms[0].v, more, lists);
    } else {
      var more := WriteJoinMembers(first.joins[1..], behind);
      assert WriteBody(first, behind) == WriteJoinMembers(first.joins, behind);
      WrittenVariable(first.joins[0].v, more);
      if first.joins[1..] != [] { JoinIsName(first.joins[1..][0], WriteJoinMembers(first.joins[1..][1..], behind)); }
      VariableFirst(env, first.joins[0].v, more, lists);
    }
  }

  lemma WrittenVariable(s: Value, more: Tokens)
    ensures WriteTermMember(BoundTo(s), more) == WriteJoinMember(VariableIs(s), more)
         == [Name("variable")] + ([Val(s)] + more)
  {
  }

  /** Without keyword: what is made of the first tokens. */
  lemma Recognition(env: Env, f: Form, rest: Tokens, lists: bool)
    requires Reading(env) && !f.keyword && Proper(env, f) && TagOf(rest) == TagClose
    requires ParseTyped(env, TypeOf(f), WriteBody(f, rest), lists)
          == if BodyAccepted(env, f, lists) then Done(Pushed(env, f), rest) else Fail
    ensures ParseExpression(env, WriteBody(f, rest), lists)
         == if Accepted(env, f, lists) then Done(Pushed(env, f), rest) else Fail
  {
    hide Reading, ParseExpression, ParseTyped, WriteBody, Pushed, AllProper, AllAccepted, JoinsAccepted;
    match f
    case TermByValues(_, _, _, _) => TermValuesRecognized(env, f, rest, lists);
    case TermByNames(_, l) =>
      BodyOfTerms(f, rest);
      TermNamesRecognized(env, l, rest, lists);
      if !KnownTerm(l) { UnknownTerm(env, l); }
    case JoinByValues(_, _, _, _, _) => JoinValuesRecognized(env, f, rest, lists);
    case JoinByNames(_, l) =>
      BodyOfJoins(f, rest);
      JoinNamesRecognized(env, l, rest, lists);
      UnknownJoin(env, l);
    case Listed(_, _) => ListRecognized(env, f, rest, lists);
  }

  lemma BodyOfTerms(f: Form, rest: Tokens)
    requires f.TermByNames?
    ensures WriteBody(f, rest) == WriteTermMembers(f.terms, rest)
  {
  }

  lemma BodyOfJoins(f: Form, rest: Tokens)
    requires f.JoinByNames?
    ensures WriteBody(f, rest) == WriteJoinMembers(f.joins, rest)
  {
  }

  /** What the content of an expression comes to, with the given close or end behind it. */
  lemma {:induction false} BodyRead(env: Env, f: Form, rest: Tokens, lists: bool)
    requires Reading(env) && Proper(env, f) && TagOf(rest) == TagClose
    ensures ParseTyped(env, TypeOf(f), WriteBody(f, rest), lists)
         == if BodyAccepted(env, f, lists) then Done(Pushed(env, f), rest) else Fail
    decreases f, 2
  {
    hide *;
    match f
    case TermByValues(_, _, _, _) => TermTyped(f); TermByValuesRead(env, f, rest, lists);
    case TermByNames(_, _) => TermTyped(f); TermByNamesRead(env, f, rest, lists);
    case JoinByValues(_, _, _, _, args) =>
      PartsProper(env, f);
      ArgumentsRead(env, args, rest);
      JoinByValuesRead(env, f, rest, lists);
    case JoinByNames(_, joins) =>
      PartsProper(env, f);
      JoinByNamesParts(env, f, rest);
      if joins == [] { NoJoin(env, rest, lists); } else {
        NothingDefined();
        MembersRead(env, joins, rest, NO_JOIN);
        JoinByNamesRead(env, f, rest, lists);
      }
    case Listed(_, items) =>
      PartsProper(env, f);
      ItemsRead(env, items, rest);
      ListedRead(env, f, rest, lists);
  }

  lemma TermTyped(f: Form)
    ensures f.TermByValues? || f.TermByNames? ==> TypeOf(f) == ExpressionTerm
  {
  }

  lemma PartsProper(env: Env, f: Form)
    requires Proper(env, f)
    ensures f.JoinByValues? ==> AllProper(env, f.args)
    ensures f.JoinByNames? ==> JoinsProper(env, f.joins)
    ensures f.Listed? ==> AllProper(env, f.items)
  {
  }

  lemma JoinByValuesRead(env: Env, f: Form, rest: Tokens, lists: bool)
    requires f.JoinByValues? && TagOf(rest) == TagClose
    requires ParseArguments(env, WriteItems(f.args, rest))
          == if AllAccepted(env, f.args) then Done((|f.args|, PushedAll(env, f.args)), rest) else Fail
    ensures ParseTyped(env, TypeOf(f), WriteBody(f, rest), lists)
         == if BodyAccepted(env, f, lists) then Done(Pushed(env, f), rest) else Fail
  {
    hide WriteBody, WriteItems, PositionalHead, ParseArguments, AllAccepted, PushedAll, LastOr, AllTexts;
    hide NumbersAccepted, RangeInPlace, CardinalityInPlace, TextOf, IsText;
    HeadRead(env, f, rest);
    var r := PositionalHead(env, WriteBody(f, rest));
    if r.Done? && TagOf(r.rest) == TagValue { NoArguments(env, r.rest); }
    if BodyAccepted(env, f, lists) {
      var variable := if f.options.Some? then LastOr(env, f.options.value, "") else "";
      var push := PushExpression(TextOf(env, f.op), |f.args|, RangeInPlace(env, f.numbers),
                                 CardinalityInPlace(env, f.numbers));
      assert Pushed(env, f) == PushedAll(env, f.args) + [push] + Attached(variable);
      Assoc(PushedAll(env, f.args), [push], Attached(variable));
    }
  }

  lemma NoArguments(env: Env, ts: Tokens)
    requires TagOf(ts) == TagValue
    ensures ParseArguments(env, ts) == Fail
  {
  }

  lemma ListedRead(env: Env, f: Form, rest: Tokens, lists: bool)
    requires f.Listed?
    requires ParseList(env, WriteItems(f.items, rest))
          == if AllAccepted(env, f.items) then Done((|f.items|, PushedAll(env, f.items)), rest) else Fail
    ensures ParseTyped(env, TypeOf(f), WriteBody(f, rest), lists)
         == if BodyAccepted(env, f, lists) then Done(Pushed(env, f), rest) else Fail
  {
    hide WriteItems, ParseList, AllAccepted, PushedAll;
  }

  lemma NoJoin(env: Env, rest: Tokens, lists: bool)
    requires TagOf(rest) == TagClose
    ensures ParseTyped(env, ExpressionJoin, rest, lists) == Fail
  {
  }

  lemma JoinByNamesParts(env: Env, f: Form, rest: Tokens)
    requires f.JoinByNames?
    ensures TypeOf(f) == ExpressionJoin && WriteBody(f, rest) == WriteJoinMembers(f.joins, rest)
    ensures f.joins == [] ==> WriteJoinMembers(f.joins, rest) == rest
    ensures f.joins == [] ==> !BodyAccepted(env, f, true) && !BodyAccepted(env, f, false)
    ensures NoneOf(f.joins, NO_JOIN.defined)
  {
  }

  /** The members of a join, as they were before or as they are given. */
  ghost predicate Merged(env: Env, e: JoinDef, def: JoinDef, l: seq<JoinMember>)
  {
    && e.variable == (if 0 in def.defined then def.variable else VariableOf(env, l))
    && e.op == (if 1 in def.defined then def.op else OpOf(env, l))
    && e.range == (if 2 in def.defined then def.range else JoinRange(env, l))
    && e.cardinality == (if 3 in def.defined then def.cardinality else CardinalityOf(env, l))
    && e.argc == (if 4 in def.defined then def.argc else CountOf(l))
  }

  /** What is not defined has its default. */
  ghost predicate Fresh(def: JoinDef)
  {
    && (0 !in def.defined ==> def.variable == "")
    && (1 !in def.defined ==> def.op == "")
    && (2 !in def.defined ==> def.range == 0)
    && (3 !in def.defined ==> def.cardinality == 0)
    && (4 !in def.defined ==> def.argc == 0)
  }

  /** The definition of a join with one more member. */
  function JoinWith(env: Env, def: JoinDef, m: JoinMember): JoinDef
  {
    var d := def.(defined := def.defined + {Kind(m)});
    match m
    case VariableIs(v) => d.(variable := TextOf(env, v))
    case OpIs(v) => d.(op := TextOf(env, v))
    case RangeIs(v) => d.(range := ValueOr(env.cv.int32(v), 0))
    case CardinalityIs(v) => d.(cardinality := ValueOr(env.cv.uint32(v), 0))
    case ArgIs(form) => d.(argc := ArgumentCount(form))
    case NoneOfJoin(_, _) => d
  }

  ghost predicate MembersResult(env: Env, l: seq<JoinMember>, rest: Tokens, def: JoinDef)
  {
    var r := JoinMembersNext(env, WriteJoinMembers(l, rest), def);
    if Different(l) && NoneOf(l, def.defined) && JoinsAccepted(env, l)
    then r.Done? && r.rest == rest && r.value.1 == PushedArguments(env, l) && Merged(env, r.value.0, def, l)
    else r == Fail
  }

  lemma {:induction false} MembersRead(env: Env, l: seq<JoinMember>, rest: Tokens, def: JoinDef)
    requires Reading(env) && JoinsProper(env, l) && TagOf(rest) == TagClose && Fresh(def)
    ensures MembersResult(env, l, rest, def)
    decreases l, 0
  {
    hide *;
    if l == [] {
      NoMember(env, rest, def);
    } else {
      FirstProper(env, l);
      var tail := WriteJoinMembers(l[1..], rest);
      MemberRead(env, l[0], tail, def);
      WithIsFresh(env, def, l[0]);
      if Kind(l[0]) !in def.defined { MembersRead(env, l[1..], rest, JoinWith(env, def, l[0])); }
      MembersStep(env, l, rest, def);
    }
  }

  lemma FirstProper(env: Env, l: seq<JoinMember>)
    requires l != [] && JoinsProper(env, l)
    ensures JoinProper(env, l[0]) && JoinsProper(env, l[1..])
  {
  }

  lemma NoMember(env: Env, rest: Tokens, def: JoinDef)
    requires TagOf(rest) == TagClose && Fresh(def)
    ensures MembersResult(env, [], rest, def)
  {
    hide JoinMembers;
  }

  lemma WithIsFresh(env: Env, def: JoinDef, m: JoinMember)
    requires Fresh(def)
    ensures Fresh(JoinWith(env, def, m))
  {
  }

  /** One member in front of others. */
  ghost predicate MemberResult(env: Env, m: JoinMember, tail: Tokens, def: JoinDef)
  {
    JoinMembersNext(env, WriteJoinMember(m, tail), def) == (
      if Kind(m) in def.defined || !MemberAccepted(env, m) then Fail
      else match JoinMembersNext(env, tail, JoinWith(env, def, m))
           case Done((e, more), rest) => Done((e, PushedMember(env, m) + more), rest)
           case Fail => Fail
           case Stuck => Stuck)
  }

  lemma DifferentFirst(env: Env, l: seq<JoinMember>, def: JoinDef)
    requires l != []
    ensures Different(l) && NoneOf(l, def.defined)
       <==> Kind(l[0]) !in def.defined && Different(l[1..]) && NoneOf(l[1..], JoinWith(env, def, l[0]).defined)
  {
    hide Kind;
    assert JoinWith(env, def, l[0]).defined == def.defined + {Kind(l[0])};
    var tail := l[1..];
    assert forall m :: m in l <==> m == l[0] || m in tail;
    if Different(l) && NoneOf(l, def.defined) {
      forall m | m in tail ensures Kind(m) !in def.defined + {Kind(l[0])} {
        var j :| 1 <= j < |l| && l[j] == m;
        assert Kind(l[0]) != Kind(l[j]);
      }
    }
    if Kind(l[0]) !in def.defined && Different(tail) && NoneOf(tail, def.defined + {Kind(l[0])}) {
      forall i, j | 0 <= i < j < |l| ensures Kind(l[i]) != Kind(l[j]) {
        assert l[j] == tail[j - 1] && l[j] in tail;
        if i > 0 { assert l[i] == tail[i - 1]; }
      }
    }
  }

  lemma MembersStep(env: Env, l: seq<JoinMember>, rest: Tokens, def: JoinDef)
    requires l != [] && Fresh(def)
    requires MemberResult(env, l[0], WriteJoinMembers(l[1..], rest), def)
    requires Kind(l[0]) !in def.defined ==> MembersResult(env, l[1..], rest, JoinWith(env, def, l[0]))
    ensures MembersResult(env, l, rest, def)
  {
    hide JoinMembersNext, Different, NoneOf, MemberAccepted, PushedMember, WriteJoinMember, Merged, Fresh, JoinWith;
    hide Kind;
    DifferentFirst(env, l, def);
    MergedStep(env, l, def);
  }

  lemma MergedStep(env: Env, l: seq<JoinMember>, def: JoinDef)
    requires l != []
    ensures Kind(l[0]) !in def.defined ==>
              forall e :: Merged(env, e, JoinWith(env, def, l[0]), l[1..]) ==> Merged(env, e, def, l)
  {
    hide ArgumentCount;
  }

  lemma NothingDefined()
    ensures Fresh(NO_JOIN)
  {
  }

  lemma JoinByNamesRead(env: Env, f: Form, rest: Tokens, lists: bool)
    requires Reading(env) && f.JoinByNames? && f.joins != [] && MembersResult(env, f.joins, rest, NO_JOIN)
    requires WriteBody(f, rest) == WriteJoinMembers(f.joins, rest) && TypeOf(f) == ExpressionJoin
    ensures ParseTyped(env, TypeOf(f), WriteBody(f, rest), lists)
         == if BodyAccepted(env, f, lists) then Done(Pushed(env, f), rest) else Fail
  {
    hide Reading, JoinMembers, WriteBody, WriteJoinMember, Different, JoinsAccepted, PushedArguments;
    hide VariableOf, OpOf, JoinRange, CardinalityOf, CountOf;
    var l := f.joins;
    JoinIsName(l[0], WriteJoinMembers(l[1..], rest));
    assert NoneOf(l, NO_JOIN.defined);
    if BodyAccepted(env, f, lists) {
      var push := PushExpression(OpOf(env, l), CountOf(l), JoinRange(env, l), CardinalityOf(env, l));
      assert Pushed(env, f) == PushedArguments(env, l) + [push] + Attached(VariableOf(env, l));
      Assoc(PushedArguments(env, l), [push], Attached(VariableOf(env, l)));
    }
  }

  lemma OptionMemberRead(env: Env, m: JoinMember, tail: Tokens, def: JoinDef)
    requires Reading(env) && JoinProper(env, m) && !m.ArgIs?
    ensures JoinMembersNext(env, WriteJoinMember(m, tail), def)
         == if Kind(m) in def.defined || !MemberAccepted(env, m) then Fail
            else JoinMembersNext(env, tail, JoinWith(env, def, m))
  {
    hide NoKeywords, Write, JoinArgument;
  }

  lemma ArgumentMemberRead(env: Env, form: Form, tail: Tokens, def: JoinDef)
    requires Reading(env)
    requires ContentResult(env, form, tail)
    ensures MemberResult(env, ArgIs(form), tail, def)
  {
    hide NoKeywords, Write, JoinArgument, ArgumentAccepted, Pushed, ContentResult;
    var m := ArgIs(form);
    var ts := WriteJoinMember(m, tail);
    assert ts[1..] == [Open] + Write(form, [Close] + tail);
    ArgumentIsCounted(env, form, tail);
    assert PushedMember(env, m) == Pushed(env, form) && (MemberAccepted(env, m) <==> ArgumentAccepted(env, form));
    assert JoinMembersNext(env, ts, def) == JoinMembers(env, ts, def);
    assert JoinWith(env, def, m) == def.(defined := def.defined + {4}).(argc := ArgumentCount(form));
  }

  /** The expressions between the brackets of an argument. */
  ghost predicate ContentResult(env: Env, form: Form, tail: Tokens)
  {
    Discipline.ParseCounted(env, Write(form, [Close] + tail)) == (
      if ArgumentAccepted(env, form) then Done((ArgumentCount(form), Pushed(env, form)), [Close] + tail) else Fail)
  }

  lemma ArgumentIsCounted(env: Env, form: Form, tail: Tokens)
    requires ContentResult(env, form, tail)
    ensures JoinArgument(env, [Open] + Write(form, [Close] + tail))
         == if ArgumentAccepted(env, form) then Done((ArgumentCount(form), Pushed(env, form)), tail) else Fail
  {
    hide Write, ArgumentAccepted, Pushed, ParseList, ParseExpression;
    assert ([Open] + Write(form, [Close] + tail))[1..] == Write(form, [Close] + tail);
    assert ([Close] + tail)[1..] == tail;
  }

  lemma {:induction false} MemberRead(env: Env, m: JoinMember, tail: Tokens, def: JoinDef)
    requires Reading(env) && JoinProper(env, m)
    ensures MemberResult(env, m, tail, def)
    decreases m, 5
  {
    hide *;
    if m.ArgIs? {
      FormProper(env, m);
      ContentRead(env, m.form, tail);
      ArgumentMemberRead(env, m.form, tail, def);
      assert ArgIs(m.form) == m;
    } else {
      OptionMemberRead(env, m, tail, def);
      NoCalls(env, m, tail, def);
    }
  }

  lemma FormProper(env: Env, m: JoinMember)
    requires JoinProper(env, m) && m.ArgIs?
    ensures Proper(env, m.form)
  {
  }

  lemma NoCalls(env: Env, m: JoinMember, tail: Tokens, def: JoinDef)
    requires !m.ArgIs?
    requires JoinMembersNext(env, WriteJoinMember(m, tail), def)
          == if Kind(m) in def.defined || !MemberAccepted(env, m) then Fail
             else JoinMembersNext(env, tail, JoinWith(env, def, m))
    ensures MemberResult(env, m, tail, def)
  {
    hide JoinMembersNext, JoinWith, Kind, WriteJoinMember;
    var r := JoinMembersNext(env, tail, JoinWith(env, def, m));
    if r.Done? { Unit(r.value.1); }
    assert PushedMember(env, m) == [];
  }

  lemma {:induction false} ContentRead(env: Env, form: Form, tail: Tokens)
    requires Reading(env) && Proper(env, form)
    ensures ContentResult(env, form, tail)
    decreases form, 4
  {
    hide *;
    if form.Listed? && !form.keyword {
      PartsProper(env, form);
      CloseTag(tail);
      ItemsRead(env, form.items, [Close] + tail);
      ListContent(env, form, tail);
    } else if BeginsWithStructure(form) {
      StructureContent(env, form, tail);
    } else {
      CloseTag(tail);
      FormRead(env, form, [Close] + tail, false);
      SingleContent(env, form, tail);
    }
  }

  lemma CloseTag(tail: Tokens)
    ensures TagOf([Close] + tail) == TagClose
  {
  }

  lemma ListContent(env: Env, form: Form, tail: Tokens)
    requires form.Listed? && !form.keyword
    requires ParseList(env, WriteItems(form.items, [Close] + tail))
          == if AllAccepted(env, form.items) then Done((|form.items|, PushedAll(env, form.items)), [Close] + tail)
             else Fail
    ensures ContentResult(env, form, tail)
  {
    hide ParseList, ParseExpression, PushedAll, AllAccepted;
    var behind := [Close] + tail;
    assert Write(form, behind) == WriteBody(form, behind) == WriteItems(form.items, behind);
    ItemsTag(form.items, behind);
    if form.items == [] { NothingIsNoExpression(env, behind, false); }
  }

  lemma StructureContent(env: Env, form: Form, tail: Tokens)
    requires Reading(env) && BeginsWithStructure(form)
    ensures ContentResult(env, form, tail)
  {
    hide Reading, ParseList, ParseExpression, WriteVariables, Pushed, Accepted, WriteBehind, WriteItems, WriteNumbers;
    var variables := if form.TermByValues? then [form.variable.value] else form.options.value;
    var values := if form.TermByValues? then [Val(form.termType)] + WriteBehind(form.behind, [Close] + tail)
                  else [Val(form.op)] + WriteNumbers(form.numbers, WriteItems(form.args, [Close] + tail));
    assert Write(form, [Close] + tail) == WriteBody(form, [Close] + tail)
        == [Open] + WriteVariables(variables, [Close] + values);
    VariableStructure(env, variables, values);
  }

  lemma VariableStructure(env: Env, l: seq<Value>, values: Tokens)
    requires Reading(env)
    ensures ParseList(env, [Open] + WriteVariables(l, [Close] + values)) == Fail
  {
    hide Reading, ParseExpression, WriteVariables, Bracketed;
    OnlyVariablesFail(env, l, [Close] + values, false);
    BracketFails(env, WriteVariables(l, [Close] + values));
    ListUnfolds(env, [Open] + WriteVariables(l, [Close] + values));
  }

  lemma BracketFails(env: Env, ts: Tokens)
    requires ParseExpression(env, ts, false) == Fail
    ensures Bracketed(env, [Open] + ts) == Fail
  {
    hide ParseExpression;
    assert ([Open] + ts)[1..] == ts;
  }

  lemma SingleContent(env: Env, form: Form, tail: Tokens)
    requires Reading(env) && Proper(env, form) && !(form.Listed? && !form.keyword) && !BeginsWithStructure(form)
    requires ParseExpression(env, Write(form, [Close] + tail), false)
          == if Accepted(env, form, false) then Done(Pushed(env, form), [Close] + tail) else Fail
    ensures ContentResult(env, form, tail)
  {
    hide Reading, ParseList, ParseExpression, Write, Pushed, Accepted, Proper;
    FirstToken(env, form, [Close] + tail);
  }

  lemma ItemFirst(env: Env, l: seq<Form>)
    requires l != []
    ensures AllAccepted(env, l) <==> Accepted(env, l[0], false) && AllAccepted(env, l[1..])
    ensures PushedAll(env, l) == Pushed(env, l[0]) + PushedAll(env, l[1..])
    ensures AllProper(env, l) ==> Proper(env, l[0]) && AllProper(env, l[1..])
  {
    hide Accepted, Pushed, Proper;
  }

  lemma ItemsUnfold(env: Env, l: seq<Form>, rest: Tokens)
    ensures l == [] ==> WriteItems(l, rest) == rest && AllAccepted(env, l) && PushedAll(env, l) == []
    ensures l != [] ==> WriteItems(l, rest) == [Open] + Write(l[0], [Close] + WriteItems(l[1..], rest))
  {
    hide Write, Accepted, Pushed;
  }

  lemma {:induction false} ItemsRead(env: Env, l: seq<Form>, rest: Tokens)
    requires Reading(env) && AllProper(env, l) && TagOf(rest) == TagClose
    ensures ParseList(env, WriteItems(l, rest))
         == if AllAccepted(env, l) then Done((|l|, PushedAll(env, l)), rest) else Fail
    decreases l, 0
  {
    hide *;
    ItemsUnfold(env, l, rest);
    if l == [] {
      NoItems(env, rest);
    } else {
      ItemFirst(env, l);
      var tail := WriteItems(l[1..], rest);
      CloseTag(tail);
      FormRead(env, l[0], [Close] + tail, false);
      BracketRead(env, l[0], tail);
      OpenTag(Write(l[0], [Close] + tail));
      ListUnfolds(env, WriteItems(l, rest));
      ItemsRead(env, l[1..], rest);
    }
  }

  lemma OpenTag(tail: Tokens)
    ensures TagOf([Open] + tail) == TagOpen
  {
  }

  lemma {:induction false} ArgumentsRead(env: Env, l: seq<Form>, rest: Tokens)
    requires Reading(env) && AllProper(env, l) && TagOf(rest) == TagClose
    ensures ParseArguments(env, WriteItems(l, rest))
         == if AllAccepted(env, l) then Done((|l|, PushedAll(env, l)), rest) else Fail
    decreases l, 0
  {
    hide *;
    ItemsUnfold(env, l, rest);
    if l == [] {
      NoItems(env, rest);
    } else {
      ItemFirst(env, l);
      var tail := WriteItems(l[1..], rest);
      CloseTag(tail);
      FormRead(env, l[0], [Close] + tail, false);
      BracketRead(env, l[0], tail);
      OpenTag(Write(l[0], [Close] + tail));
      ArgumentsUnfold(env, WriteItems(l, rest));
      ArgumentsRead(env, l[1..], rest);
    }
  }

  /** Whatever its form, an expression is read as its calls exactly if it is accepted. */
  lemma {:induction false} FormRead(env: Env, f: Form, rest: Tokens, lists: bool)
    requires Reading(env) && Proper(env, f) && TagOf(rest) == TagClose
    ensures ParseExpression(env, Write(f, rest), lists)
         == if Accepted(env, f, lists) then Done(Pushed(env, f), rest) else Fail
    decreases f, 3
  {
    hide *;
    if f.keyword {
      CloseTag(rest);
      BodyRead(env, f, [Close] + rest, lists);
      KeywordFormRead(env, f, rest, lists);
    } else {
      BodyRead(env, f, rest, lists);
      Recognition(env, f, rest, lists);
      WithoutKeyword(f, rest);
    }
  }

  lemma WithoutKeyword(f: Form, rest: Tokens)
    requires !f.keyword
    ensures Write(f, rest) == WriteBody(f, rest)
  {
    hide WriteBody;
  }

  lemma KeywordFormRead(env: Env, f: Form, rest: Tokens, lists: bool)
    requires Reading(env) && f.keyword
    requires ParseTyped(env, TypeOf(f), WriteBody(f, [Close] + rest), lists)
          == if BodyAccepted(env, f, lists) then Done(Pushed(env, f), [Close] + rest) else Fail
    ensures ParseExpression(env, Write(f, rest), lists)
         == if Accepted(env, f, lists) then Done(Pushed(env, f), rest) else Fail
  {
    hide Reading, ParseExpression, ParseTyped, WriteBody, BodyAccepted, Pushed, TypeOf, Recognized;
    KeywordRead(env, f, WriteBody(f, [Close] + rest), lists);
    assert ([Close] + rest)[1..] == rest;
  }

  /** A serialization with one expression in any form is read as the calls of the expression exactly if it is
      accepted, and refused otherwise. */
  lemma ExpressionIsRead(env: Env, f: Form, lists: bool)
    requires Names.FindsNames(env) && Proper(env, f)
    ensures ParseContent(env, Write(f, []), lists)
         == if Accepted(env, f, lists) then Done(Pushed(env, f), []) else Fail
  {
    NamesAreKnown(env);
    hide Names.FindsNames, Reading, Proper, Write, Accepted, Pushed, ParseExpression;
    FormRead(env, f, [], lists);
  }

  function NumbersBehind(n: Numbers): Behind
  {
    match n
    case NoNumbers => TypeOnly
    case Ranged(range) => Valued(range)
    case Counted(range, cardinality) => Measured(range, cardinality)
  }

  /** Without keyword and arguments, an operator with its numbers is written as a term is, and read as this term: the
      range as its value and the cardinality as its length. Options that do not hold one variable are refused. */
  lemma JoinWithoutArguments(env: Env, options: Option<seq<Value>>, op: Value, numbers: Numbers, rest: Tokens,
                             lists: bool)
    requires Names.FindsNames(env) && TagOf(rest) == TagClose
    ensures var join := JoinByValues(false, options, op, numbers, []);
            if options.None? || |options.value| == 1 then
              var term := TermByValues(false, if options.Some? then Some(options.value[0]) else None, op,
                                       NumbersBehind(numbers));
              && Write(join, rest) == Write(term, rest)
              && ParseExpression(env, Write(join, rest), lists)
                 == if Accepted(env, term, lists) then Done(Pushed(env, term), rest) else Fail
            else ParseExpression(env, Write(join, rest), lists) == Fail
  {
    NamesAreKnown(env);
    hide *;
    var join := JoinByValues(false, options, op, numbers, []);
    WithoutKeyword(join, rest);
    if options.None? || |options.value| == 1 {
      var variable := if options.Some? then Some(options.value[0]) else None;
      var term := TermByValues(false, variable, op, NumbersBehind(numbers));
      WrittenAsTerm(options, op, numbers, rest);
      TermIsProper(env, term);
      FormRead(env, term, rest, lists);
    } else {
      NotRecognized(join);
      JoinValuesRecognized(env, join, rest, lists);
    }
  }

  lemma TermIsProper(env: Env, f: Form)
    requires f.TermByValues?
    ensures Proper(env, f)
  {
  }

  lemma NotRecognized(f: Form)
    requires f.JoinByValues? && f.options.Some? && |f.options.value| != 1
    ensures !Recognized(f)
  {
  }

  lemma WrittenAsTerm(options: Option<seq<Value>>, op: Value, numbers: Numbers, rest: Tokens)
    requires options.None? || |options.value| == 1
    ensures Write(JoinByValues(false, options, op, numbers, []), rest)
         == Write(TermByValues(false, if options.Some? then Some(options.value[0]) else None, op,
                               NumbersBehind(numbers)), rest)
  {
    hide WriteVariables;
    var join := JoinByValues(false, options, op, numbers, []);
    var variable := if options.Some? then Some(options.value[0]) else None;
    var term := TermByValues(false, variable, op, NumbersBehind(numbers));
    WithoutKeyword(join, rest);
    WithoutKeyword(term, rest);
    assert WriteItems([], rest) == rest;
    assert options.Some? ==> options.value == [options.value[0]];
  }
}
