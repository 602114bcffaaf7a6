module ExpressionDiscipline {

  // What the expression reader keeps for every list of tokens, and when it runs forever.
  // Brackets are consumed in pairs, the builder never underflows, and one expression leaves one element on its stack.

  import opened Wrappers
  import opened Serialization
  import opened ExpressionParser
  import SNM = StructureNameMap

  /** Height of the builder's stack after some calls; none if a call finds too few elements. */
  function StackAfter(calls: Calls, height: nat): StackHeight
  {
    if calls == [] then Height(height)
    else match calls[0]
         case PushExpression(_, argc, _, _) =>
           if argc > height then Underflow else StackAfter(calls[1..], height - argc + 1)
         case AttachVariable(_) => if height == 0 then Underflow else StackAfter(calls[1..], height)
         case DefineFeature(_, _) => if height == 0 then Underflow else StackAfter(calls[1..], height - 1)
         case _ => StackAfter(calls[1..], height + 1)
  }

  datatype StackHeight = Underflow | Height(value: nat)

  lemma {:induction false} StackConcat(a: Calls, b: Calls, height: nat)
    ensures StackAfter(a + b, height)
         == match StackAfter(a, height) case Underflow => Underflow case Height(h) => StackAfter(b, h)
  {
    if a == [] {
      assert a + b == b;
    } else {
      assert (a + b)[1..] == a[1..] + b;
      match a[0]
      case PushExpression(_, argc, _, _) => if argc <= height { StackConcat(a[1..], b, height - argc + 1); }
      case AttachVariable(_) => if height > 0 { StackConcat(a[1..], b, height); }
      case DefineFeature(_, _) => if height > 0 { StackConcat(a[1..], b, height - 1); }
      case _ => StackConcat(a[1..], b, height + 1);
    }
  }

  lemma StackOfTerm(def: TermDef, height: nat)
    requires def.termType.Some? && (def.length.Some? ==> def.value.Some?)
    ensures StackAfter(TermCalls(def), height) == Height(height + 1)
  {
    var calls := TermCalls(def);
    assert StackAfter(calls[1..], height + 1) == Height(height + 1);
  }

  lemma StackOfJoin(def: JoinDef, height: nat)
    ensures StackAfter(JoinCalls(def), height + def.argc) == Height(height + 1)
  {
    var calls := JoinCalls(def);
    assert StackAfter(calls[1..], height + 1) == Height(height + 1);
  }

  // ---- terms are balanced ----

  lemma {:induction false} TermMembersBalanced(env: Env, ts: Tokens, def: TermDef)
    requires TagOf(ts) == TagName
    ensures var r := TermMembers(env, ts, def); r.Done? ==> Leaves(ts, r.rest)
    decreases |ts|
  {
    var r := TermMembers(env, ts, def);
    if r.Done? {
      LeavesTwo(ts);
      var rest := ts[1..][1..];
      var idx := env.index(TermNames, ts[0].name);
      var d := if idx == 3 then def.(length := Some(GetUint(env.cv, ts[1..]).value))
               else if idx == 0 then def.(termType := Some(GetText(env.cv, ts[1..]).value))
               else if idx == 1 then def.(value := Some(GetText(env.cv, ts[1..]).value))
               else def.(variable := GetText(env.cv, ts[1..]).value);
      assert r == TermMembersNext(env, rest, d);
      if TagOf(rest) == TagName {
        TermMembersBalanced(env, rest, d);
        LeavesTrans(ts, rest, r.rest);
      }
    }
  }

  lemma TermBalanced(env: Env, ts: Tokens)
    ensures var r := GetTermDef(env, ts); r.Done? ==> Leaves(ts, r.rest)
  {
    var r := GetTermDef(env, ts);
    if r.Done? {
      if TagOf(ts) == TagName {
        TermMembersBalanced(env, ts, NO_TERM);
      } else {
        var v := TermVariable(env, ts);
        TermVariableBalanced(env, ts);
        TermValuesBalanced(env, v.rest, v.value);
        LeavesTrans(ts, v.rest, r.rest);
      }
    }
  }

  lemma TermVariableBalanced(env: Env, ts: Tokens)
    ensures var r := TermVariable(env, ts); r.Done? ==> Leaves(ts, r.rest)
  {
    var r := TermVariable(env, ts);
    if r.Done? && r.rest != ts {
      LeavesOne(ts[1..]);
      LeavesOne(ts[1..][1..]);
      assert ts[1..][1..] == ts[2..];
      LeavesTrans(ts[1..], ts[2..], ts[2..][1..]);
      LeavesBracket(ts, ts[2..][1..]);
    }
  }

  lemma TermValuesBalanced(env: Env, ts: Tokens, variable: string)
    ensures var r := TermValues(env, ts, variable); r.Done? ==> Leaves(ts, r.rest)
  {
    var r := TermValues(env, ts, variable);
    if r.Done? {
      LeavesTwo(ts);
      if r.rest != ts[1..][1..] {
        LeavesOne(ts[1..][1..]);
        LeavesTrans(ts, ts[1..][1..], r.rest);
      }
    }
  }

  // ---- joins and expressions ----

  /** Reading an expression keeps the discipline. */
  ghost predicate Disciplined(ts: Tokens, r: Outcome<Calls>, grown: nat, height: nat)
  {
    r.Done? ==> Leaves(ts, r.rest) && StackAfter(r.value, height) == Height(height + grown)
  }

  lemma {:induction false} JoinMembersDiscipline(env: Env, ts: Tokens, def: JoinDef, height: nat)
    requires TagOf(ts) == TagName && (4 !in def.defined ==> def.argc == 0)
    ensures var r := JoinMembers(env, ts, def);
            r.Done? ==> Leaves(ts, r.rest) && r.value.0.argc >= def.argc
                        && StackAfter(r.value.1, height) == Height(height + r.value.0.argc - def.argc)
    ensures var r := JoinMembers(env, ts, def); r.Done? && 4 in def.defined ==> r.value.0.argc == def.argc
    decreases |ts|, 0
  {
    var r := JoinMembers(env, ts, def);
    if r.Done? {
      LeavesOne(ts);
      var idx := env.index(JoinNames, ts[0].name);
      var d := def.(defined := def.defined + {idx});
      if idx == 4 {
        JoinArgumentDiscipline(env, ts[1..], height);
        var a := JoinArgument(env, ts[1..]);
        LeavesTrans(ts, ts[1..], a.rest);
        var e := d.(argc := a.value.0);
        JoinMembersNextDiscipline(env, a.rest, e, height + e.argc);
        LeavesTrans(ts, a.rest, r.rest);
        StackConcat(a.value.1, JoinMembersNext(env, a.rest, e).value.1, height);
      } else {
        LeavesOne(ts[1..]);
        LeavesTrans(ts, ts[1..], ts[1..][1..]);
        JoinMembersNextDiscipline(env, ts[1..][1..], JoinOption(env, ts[1..], idx, d).value, height);
        LeavesTrans(ts, ts[1..][1..], r.rest);
      }
    }
  }

  lemma {:induction false} JoinMembersNextDiscipline(env: Env, ts: Tokens, def: JoinDef, height: nat)
    requires 4 !in def.defined ==> def.argc == 0
    ensures var r := JoinMembersNext(env, ts, def);
            r.Done? ==> Leaves(ts, r.rest) && r.value.0.argc >= def.argc
                        && StackAfter(r.value.1, height) == Height(height + r.value.0.argc - def.argc)
    ensures var r := JoinMembersNext(env, ts, def); r.Done? && 4 in def.defined ==> r.value.0.argc == def.argc
    decreases |ts|, 1
  {
    if TagOf(ts) == TagName { JoinMembersDiscipline(env, ts, def, height); }
  }

  lemma {:induction false} JoinArgumentDiscipline(env: Env, ts: Tokens, height: nat)
    ensures var r := JoinArgument(env, ts);
            r.Done? ==> Leaves(ts, r.rest) && StackAfter(r.value.1, height) == Height(height + r.value.0)
    decreases |ts|, 4
  {
    var r := JoinArgument(env, ts);
    if r.Done? {
      if TagOf(ts[1..]) == TagOpen {
        ListDiscipline(env, ts[1..], height);
        LeavesBracket(ts, ParseList(env, ts[1..]).rest);
      } else {
        ExpressionDisciplined(env, ts[1..], height);
        LeavesBracket(ts, ParseExpression(env, ts[1..], false).rest);
      }
    }
  }

  lemma {:induction false} BracketedDiscipline(env: Env, ts: Tokens, height: nat)
    requires TagOf(ts) == TagOpen
    ensures Disciplined(ts, Bracketed(env, ts), 1, height)
    decreases |ts|, 0
  {
    if Bracketed(env, ts).Done? {
      ExpressionDisciplined(env, ts[1..], height);
      LeavesBracket(ts, ParseExpression(env, ts[1..], false).rest);
    }
  }

  /** A list of n bracketed expressions leaves n elements. */
  lemma {:induction false} ListDiscipline(env: Env, ts: Tokens, height: nat)
    ensures var r := ParseList(env, ts);
            r.Done? ==> Leaves(ts, r.rest) && StackAfter(r.value.1, height) == Height(height + r.value.0)
    decreases |ts|, 5
  {
    var r := ParseList(env, ts);
    if r.Done? && TagOf(ts) == TagOpen {
      var e := Bracketed(env, ts);
      BracketedDiscipline(env, ts, height);
      ListDiscipline(env, e.rest, height + 1);
      LeavesTrans(ts, e.rest, r.rest);
      StackConcat(e.value, ParseList(env, e.rest).value.1, height);
    }
  }

  lemma {:induction false} ArgumentsDiscipline(env: Env, ts: Tokens, height: nat)
    ensures var r := ParseArguments(env, ts);
            r.Done? ==> Leaves(ts, r.rest) && StackAfter(r.value.1, height) == Height(height + r.value.0)
    decreases |ts|, 1
  {
    var r := ParseArguments(env, ts);
    if r.Done? && TagOf(ts) == TagOpen {
      var e := Bracketed(env, ts);
      BracketedDiscipline(env, ts, height);
      ArgumentsDiscipline(env, e.rest, height + 1);
      LeavesTrans(ts, e.rest, r.rest);
      StackConcat(e.value, ParseArguments(env, e.rest).value.1, height);
    }
  }

  lemma {:induction false} OptionsBalanced(env: Env, ts: Tokens, variable: string, n: nat)
    ensures var r := OptionLoop(env, ts, variable, n); r.Done? ==> Leaves(ts, r.rest)
    decreases n
  {
    var r := OptionLoop(env, ts, variable, n);
    if n > 0 && TagOf(ts) == TagName && r.Done? {
      var d := OptionalDefinition(env, ts, "variable");
      if d.value.Some? { LeavesTwo(ts); }
      OptionsBalanced(env, d.rest, if d.value.Some? then d.value.value else variable, n - 1);
      LeavesTrans(ts, d.rest, r.rest);
    }
  }

  lemma JoinHeadBalanced(env: Env, ts: Tokens, variable: string)
    ensures var r := JoinHead(env, ts, variable); r.Done? ==> Leaves(ts, r.rest) && r.value.argc == 0
  {
    var r := JoinHead(env, ts, variable);
    if r.Done? {
      LeavesOne(ts);
      var rest := ts[1..];
      if NumericOption(env, rest).Some? {
        LeavesOne(rest);
        LeavesTrans(ts, rest, rest[1..]);
        if NumericOption(env, rest[1..]).Some? {
          LeavesOne(rest[1..]);
          assert rest[1..][1..] == rest[2..];
          LeavesTrans(ts, rest[1..], rest[2..]);
        }
      }
    }
  }

  /** Options and head of a positional join. */
  lemma PositionalBalanced(env: Env, ts: Tokens)
    requires PositionalHead(env, ts).Done?
    ensures Leaves(ts, PositionalHead(env, ts).rest) && PositionalHead(env, ts).value.argc == 0
  {
    var v := if TagOf(ts) == TagOpen then JoinVariable(env, ts[1..], "") else Done("", ts);
    if TagOf(ts) == TagOpen {
      OptionsBalanced(env, ts[1..], "", |ts[1..]|);
      LeavesBracket(ts, OptionLoop(env, ts[1..], "", |ts[1..]|).rest);
    }
    JoinHeadBalanced(env, v.rest, v.value);
    LeavesTrans(ts, v.rest, PositionalHead(env, ts).rest);
  }

  lemma {:induction false} JoinDiscipline(env: Env, ts: Tokens, height: nat)
    ensures Disciplined(ts, ParseJoin(env, ts), 1, height)
    decreases |ts|, 2
  {
    if ParseJoin(env, ts).Done? {
      if TagOf(ts) == TagName { NamedDiscipline(env, ts, height); } else { PositionalDiscipline(env, ts, height); }
    }
  }

  lemma {:induction false} NamedDiscipline(env: Env, ts: Tokens, height: nat)
    requires TagOf(ts) == TagName && ParseJoin(env, ts).Done?
    ensures Disciplined(ts, ParseJoin(env, ts), 1, height)
    decreases |ts|, 1
  {
    hide JoinMembers, StackAfter, Leaves, JoinCalls;
    JoinMembersDiscipline(env, ts, NO_JOIN, height);
    var (def, calls) := JoinMembers(env, ts, NO_JOIN).value;
    StackConcat(calls, JoinCalls(def), height);
    StackOfJoin(def, height);
  }

  lemma {:induction false} PositionalDiscipline(env: Env, ts: Tokens, height: nat)
    requires TagOf(ts) != TagName && ParseJoin(env, ts).Done?
    ensures Disciplined(ts, ParseJoin(env, ts), 1, height)
    decreases |ts|, 1, 1
  {
    assert PositionalHead(env, ts).Done? && |PositionalHead(env, ts).rest| <= |ts|;
    hide PositionalHead, ParseArguments, StackAfter, Leaves, JoinCalls;
    PositionalBalanced(env, ts);
    var head := PositionalHead(env, ts);
    ArgumentsDiscipline(env, head.rest, height);
    var a := ParseArguments(env, head.rest);
    LeavesTrans(ts, head.rest, a.rest);
    var def := head.value.(argc := a.value.0);
    StackConcat(a.value.1, JoinCalls(def), height);
    StackOfJoin(def, height);
  }

  lemma {:induction false} TypedDiscipline(env: Env, etype: ExpressionType, ts: Tokens, height: nat)
    ensures Disciplined(ts, ParseTyped(env, etype, ts, false), 1, height)
    decreases |ts|, 6
  {
    match etype
    case ExpressionTerm =>
      TermBalanced(env, ts);
      var r := GetTermDef(env, ts);
      if r.Done? { StackOfTerm(r.value, height); }
    case ExpressionJoin => JoinDiscipline(env, ts, height);
    case _ =>
  }

  /** Main result: whatever the tokens are, an expression that is read without error takes a bracket-balanced
      beginning of them, never pops an element that it has not pushed, and leaves exactly one element. */
  lemma {:induction false} ExpressionDisciplined(env: Env, ts: Tokens, height: nat)
    ensures Disciplined(ts, ParseExpression(env, ts, false), 1, height)
    decreases |ts|, 7
  {
    var r := ParseExpression(env, ts, false);
    if r.Done? {
      if TagOf(ts) == TagName && env.index(ExpressionNames, ts[0].name) >= 0 {
        var etype := KeywordType(env.index(ExpressionNames, ts[0].name));
        TypedDiscipline(env, etype, ts[2..], height);
        LeavesOne(ts);
        assert ts[1..][1..] == ts[2..];
        LeavesBracket(ts[1..], ParseTyped(env, etype, ts[2..], false).rest);
        LeavesTrans(ts, ts[1..], r.rest);
      } else {
        TypedDiscipline(env, GetExpressionType(env, ts).value, ts, height);
      }
    }
  }

  // ---- feature lists ----

  /** The expressions of a feature and their number. */
  function ParseCounted(env: Env, ts: Tokens): (r: Outcome<(nat, Calls)>)
    ensures r.Done? ==> |r.rest| <= |ts|
  {
    if TagOf(ts) == TagOpen then ParseList(env, ts)
    else
      match ParseExpression(env, ts, false)
      case Fail => Fail
      case Stuck => Stuck
      case Done(calls, rest) => Done((1, calls), rest)
  }

  function Features(featureSet: string, weight: real, n: nat): Calls
  {
    if n == 0 then [] else [DefineFeature(featureSet, weight)] + Features(featureSet, weight, n - 1)
  }

  lemma {:induction false} FeaturesPop(featureSet: string, weight: real, n: nat, height: nat)
    ensures StackAfter(Features(featureSet, weight, n), height + n) == Height(height)
    ensures |Features(featureSet, weight, n)| == n
  {
    if n > 0 {
      assert Features(featureSet, weight, n)[1..] == Features(featureSet, weight, n - 1);
      FeaturesPop(featureSet, weight, n - 1, height);
    }
  }

  /** A counted list grows the stack by its number, and defining as many features takes all of it again. */
  lemma FeaturesTakeAll(env: Env, ts: Tokens, featureSet: string, weight: real, height: nat)
    requires ParseCounted(env, ts).Done?
    ensures var (n, calls) := ParseCounted(env, ts).value;
            && Leaves(ts, ParseCounted(env, ts).rest)
            && StackAfter(calls, height) == Height(height + n)
            && StackAfter(calls + Features(featureSet, weight, n), height) == Height(height)
  {
    var (n, calls) := ParseCounted(env, ts).value;
    if TagOf(ts) == TagOpen { ListDiscipline(env, ts, height); } else { ExpressionDisciplined(env, ts, height); }
    StackConcat(calls, Features(featureSet, weight, n), height);
    FeaturesPop(featureSet, weight, n, height);
  }

  // ---- features ----

  /** The members of a feature, as far as they have been read. */
  datatype FeatureDef = FeatureDef(featureSet: string, weight: real, n: nat, defined: set<int>)

  const NO_FEATURE := FeatureDef("", 1.0, 0, {})

  function GetWeight(env: Env, ts: Tokens): (r: Outcome<real>)
    ensures r.Done? ==> ts != [] && r.rest == ts[1..]
    ensures !r.Stuck?
  {
    if TagOf(ts) == TagValue && env.float(ts[0].v).Some? then Done(env.float(ts[0].v).value, ts[1..]) else Fail
  }

  /** The structure with the analyzed expressions of a feature. */
  function ParseAnalyzed(env: Env, ts: Tokens): (r: Outcome<(nat, Calls)>)
    ensures r.Done? ==> |r.rest| <= |ts|
  {
    if TagOf(ts) != TagOpen then Fail
    else
      match ParseCounted(env, ts[1..])
      case Done(counted, rest) => if ConsumeClose(rest).Done? then Done(counted, rest[1..]) else Fail
      case o => o
  }

  /** What is left behind a member that is passed; nobody asks whether there was a structure to pass. */
  function Passed(ts: Tokens): (rest: Tokens)
    ensures |rest| <= |ts|
  {
    match SkipStructure(ts)
    case Some(rest) => rest
    case None => if TagOf(ts) == TagOpen then [] else ts
  }

  /** Named members of a feature, each at most once; the calls of its expressions are kept. */
  function FeatureMembers(env: Env, ts: Tokens, m: FeatureDef): (r: Outcome<(FeatureDef, Calls)>)
    ensures r.Done? ==> |r.rest| <= |ts|
    decreases |ts|
  {
    if TagOf(ts) != TagName then Done((m, []), ts)
    else
      var idx := env.index(FeatureNames, ts[0].name);
      var d := m.(defined := m.defined + {idx});
      if idx < 0 || idx > 4 || idx in m.defined then Fail
      else if idx == 0 then
        var text := GetText(env.cv, ts[1..]);
        if text.Done? then FeatureMembers(env, text.rest, d.(featureSet := text.value)) else Fail
      else if idx == 1 then
        var weight := GetWeight(env, ts[1..]);
        if weight.Done? then FeatureMembers(env, weight.rest, d.(weight := weight.value)) else Fail
      else if idx == 2 then
        match ParseAnalyzed(env, ts[1..])
        case Fail => Fail
        case Stuck => Stuck
        case Done((n, calls), rest) =>
          match FeatureMembers(env, rest, d.(n := n))
          case Fail => Fail
          case Stuck => Stuck
          case Done((f, more), rest') => Done((f, calls + more), rest')
      else FeatureMembers(env, Passed(ts[1..]), d)
  }

  /** A feature with named members, or as set, expressions and weight. */
  function ParseFeature(env: Env, ts: Tokens): (r: Outcome<Calls>)
    ensures r.Done? ==> |r.rest| <= |ts|
  {
    if TagOf(ts) == TagName then
      match FeatureMembers(env, ts, NO_FEATURE)
      case Fail => Fail
      case Stuck => Stuck
      case Done((m, calls), rest) => Done(calls + Features(m.featureSet, m.weight, m.n), rest)
    else
      var featureSet := GetText(env.cv, ts);
      if !featureSet.Done? then Fail
      else
        match ParseAnalyzed(env, featureSet.rest)
        case Fail => Fail
        case Stuck => Stuck
        case Done((n, calls), rest) =>
          var weight := GetWeight(env, rest);
          if weight.Done? then Done(calls + Features(featureSet.value, weight.value, n), weight.rest) else Fail
  }

  lemma CountedGrows(env: Env, ts: Tokens, height: nat)
    requires ParseCounted(env, ts).Done?
    ensures var (n, calls) := ParseCounted(env, ts).value; StackAfter(calls, height) == Height(height + n)
  {
    if TagOf(ts) == TagOpen { ListDiscipline(env, ts, height); } else { ExpressionDisciplined(env, ts, height); }
  }

  /** The members of a feature grow the stack by the number that is counted for it. */
  lemma {:induction false} FeatureMembersGrow(env: Env, ts: Tokens, m: FeatureDef, height: nat)
    requires FeatureMembers(env, ts, m).Done? && (2 !in m.defined ==> m.n == 0)
    ensures var (f, calls) := FeatureMembers(env, ts, m).value;
            f.n >= m.n && StackAfter(calls, height) == Height(height + f.n - m.n) && (2 in m.defined ==> f.n == m.n)
    decreases |ts|
  {
    if TagOf(ts) == TagName {
      var idx := env.index(FeatureNames, ts[0].name);
      var d := m.(defined := m.defined + {idx});
      if idx == 2 {
        var a := ParseAnalyzed(env, ts[1..]);
        CountedGrows(env, ts[1..][1..], height);
        FeatureMembersGrow(env, a.rest, d.(n := a.value.0), height + a.value.0);
        StackConcat(a.value.1, FeatureMembers(env, a.rest, d.(n := a.value.0)).value.1, height);
      } else if idx == 0 {
        FeatureMembersGrow(env, ts[1..][1..], d.(featureSet := GetText(env.cv, ts[1..]).value), height);
      } else if idx == 1 {
        FeatureMembersGrow(env, ts[1..][1..], d.(weight := GetWeight(env, ts[1..]).value), height);
      } else {
        FeatureMembersGrow(env, Passed(ts[1..]), d, height);
      }
    }
  }

  /** A feature takes exactly the elements of its expressions from the stack again, in both of its forms. */
  lemma FeatureTakesAll(env: Env, ts: Tokens, height: nat)
    requires ParseFeature(env, ts).Done?
    ensures StackAfter(ParseFeature(env, ts).value, height) == Height(height)
  {
    if TagOf(ts) == TagName {
      var (m, calls) := FeatureMembers(env, ts, NO_FEATURE).value;
      FeatureMembersGrow(env, ts, NO_FEATURE, height);
      StackConcat(calls, Features(m.featureSet, m.weight, m.n), height);
      FeaturesPop(m.featureSet, m.weight, m.n, height);
    } else {
      var rest := GetText(env.cv, ts).rest;
      var (n, calls) := ParseAnalyzed(env, rest).value;
      var weight := GetWeight(env, ParseAnalyzed(env, rest).rest).value;
      CountedGrows(env, rest[1..], height);
      StackConcat(calls, Features(GetText(env.cv, ts).value, weight, n), height);
      FeaturesPop(GetText(env.cv, ts).value, weight, n, height);
    }
  }

  // ---- termination: the options of a join ----

  lemma {:induction false} LoopStaysAfter(env: Env, ts: Tokens, variable: string, n: nat)
    requires |ts| <= n
    ensures OptionLoop(env, ts, variable, n) == OptionLoop(env, ts, variable, |ts|)
    decreases |ts|
  {
    if TagOf(ts) == TagName {
      var d := OptionalDefinition(env, ts, "variable");
      if d.Done? && d.value.Some? {
        LoopStaysAfter(env, d.rest, d.value.value, n - 1);
        LoopStaysAfter(env, d.rest, d.value.value, |ts| - 1);
      } else if d.Done? {
        CursorStays(env, ts, variable, n);
        CursorStays(env, ts, variable, |ts|);
      }
    }
  }

  /** At a member with another name, the cursor has not moved after any number of iterations. */
  lemma {:induction false} CursorStays(env: Env, ts: Tokens, variable: string, n: nat)
    requires TagOf(ts) == TagName && ts[0].name != "variable"
    ensures OptionLoop(env, ts, variable, n) == Done(variable, ts)
    decreases n
  {
    if n > 0 { CursorStays(env, ts, variable, n - 1); }
  }

  /** One iteration of the loop over the options. */
  lemma OptionStep(env: Env, ts: Tokens, variable: string)
    ensures JoinVariable(env, ts, variable)
         == if TagOf(ts) == TagName then
              if ts[0].name != "variable" then Stuck
              else var t := GetText(env.cv, ts[1..]); if t.Done? then JoinVariable(env, t.rest, t.value) else Fail
            else if ConsumeClose(ts).Done? then Done(variable, ts[1..]) else Fail
  {
    if TagOf(ts) == TagName {
      if ts[0].name != "variable" {
        CursorStays(env, ts, variable, |ts|);
      } else {
        var t := GetText(env.cv, ts[1..]);
        if t.Done? { LoopStaysAfter(env, t.rest, t.value, |ts| - 1); }
      }
    }
  }

  /** Behind n variables with their values comes a member with another name. */
  ghost predicate OtherBehind(env: Env, ts: Tokens, n: nat)
  {
    && 2 * n < |ts| && ts[2 * n].Name? && ts[2 * n].name != "variable"
    && (forall i :: 0 <= i < n ==> ts[2 * i] == Name("variable"))
    && (forall i :: 0 <= i < n ==> ts[2 * i + 1].Val? && env.cv.text(ts[2 * i + 1].v).Some?)
  }

  ghost predicate OtherOption(env: Env, ts: Tokens) { exists n: nat :: OtherBehind(env, ts, n) }

  lemma FirstBehind(env: Env, ts: Tokens, n: nat)
    requires OtherBehind(env, ts, n)
    ensures ts[0].Name?
    ensures if n == 0 then ts[0].name != "variable"
            else |ts| >= 2 && ts[0] == Name("variable") && GetText(env.cv, ts[1..]).Done?
  {
    if n == 0 {
      assert ts[2 * n] == ts[0];
    } else {
      assert ts[2 * 0] == Name("variable") && ts[2 * 0 + 1].Val? && env.cv.text(ts[2 * 0 + 1].v).Some?;
      assert ts[1..][0] == ts[1];
    }
  }

  lemma OtherSteps(env: Env, ts: Tokens)
    requires |ts| >= 2 && ts[0] == Name("variable") && ts[1].Val? && env.cv.text(ts[1].v).Some?
    ensures OtherOption(env, ts) <==> OtherOption(env, ts[2..])
  {
    var rest := ts[2..];
    assert forall i :: 0 <= i < |rest| ==> rest[i] == ts[i + 2];
    if n: nat :| OtherBehind(env, ts, n) {
      FirstBehind(env, ts, n);
      assert 2 * (n - 1) + 2 == 2 * n;
      forall i | 0 <= i < n - 1
        ensures rest[2 * i] == Name("variable") && rest[2 * i + 1].Val? && env.cv.text(rest[2 * i + 1].v).Some?
      {
        assert rest[2 * i] == ts[2 * (i + 1)] && rest[2 * i + 1] == ts[2 * (i + 1) + 1];
      }
      assert OtherBehind(env, rest, n - 1);
    }
    if n: nat :| OtherBehind(env, rest, n) {
      forall i | 0 <= i < n + 1
        ensures ts[2 * i] == Name("variable") && ts[2 * i + 1].Val? && env.cv.text(ts[2 * i + 1].v).Some?
      {
        if i > 0 { assert rest[2 * (i - 1)] == ts[2 * i] && rest[2 * (i - 1) + 1] == ts[2 * i + 1]; }
      }
      assert rest[2 * n] == ts[2 * (n + 1)];
      assert OtherBehind(env, ts, n + 1);
    }
  }

  /** After any number of iterations, the loop over the options goes on. */
  ghost predicate NeverEnds(env: Env, ts: Tokens, variable: string)
  {
    forall n: nat :: GoesOn(OptionLoop(env, ts, variable, n))
  }

  /** The loop over the options goes on forever exactly if behind some variables with their values comes a member with
      another name; whether it does is decided after as many iterations as there are tokens. */
  lemma {:induction false} LoopsExactly(env: Env, ts: Tokens, variable: string)
    ensures JoinVariable(env, ts, variable).Stuck? <==> OtherOption(env, ts)
    ensures JoinVariable(env, ts, variable).Stuck? <==> NeverEnds(env, ts, variable)
    decreases |ts|
  {
    OptionStep(env, ts, variable);
    if TagOf(ts) != TagName {
      assert !GoesOn(OptionLoop(env, ts, variable, 0));
      NoOption(env, ts);
    } else if ts[0].name != "variable" {
      assert OtherBehind(env, ts, 0);
      forall n: nat ensures GoesOn(OptionLoop(env, ts, variable, n)) { CursorStays(env, ts, variable, n); }
    } else if GetText(env.cv, ts[1..]).Done? {
      var t := GetText(env.cv, ts[1..]);
      assert t.rest == ts[2..];
      LoopsExactly(env, t.rest, t.value);
      OtherSteps(env, ts);
      LoopShifted(env, ts, variable, t.value, t.rest);
    } else {
      assert !GoesOn(OptionLoop(env, ts, variable, 1));
      NoOption(env, ts);
    }
  }

  lemma LoopShifted(env: Env, ts: Tokens, variable: string, text: string, rest: Tokens)
    requires TagOf(ts) == TagName && ts[0].name == "variable" && GetText(env.cv, ts[1..]) == Done(text, rest)
    ensures NeverEnds(env, ts, variable) <==> NeverEnds(env, rest, text)
  {
    if NeverEnds(env, ts, variable) {
      forall n: nat ensures GoesOn(OptionLoop(env, rest, text, n)) {
        assert GoesOn(OptionLoop(env, ts, variable, n + 1));
      }
    }
    if NeverEnds(env, rest, text) {
      forall n: nat ensures GoesOn(OptionLoop(env, ts, variable, n)) {
        if n > 0 { assert GoesOn(OptionLoop(env, rest, text, n - 1)); }
      }
    }
  }

  lemma NoOption(env: Env, ts: Tokens)
    requires TagOf(ts) != TagName || (ts[0].name == "variable" && !GetText(env.cv, ts[1..]).Done?)
    ensures !OtherOption(env, ts)
  {
    forall n: nat ensures !OtherBehind(env, ts, n) {
      if OtherBehind(env, ts, n) { FirstBehind(env, ts, n); }
    }
  }

  // ---- termination: expressions ----

  /** A join structure whose option structure has a member with another name behind its variables. */
  ghost predicate LoopsForever(env: Env, ts: Tokens)
  {
    && TagOf(ts) == TagName && env.index(ExpressionNames, ts[0].name) == 0
    && TagOf(ts[1..]) == TagOpen && TagOf(ts[2..]) == TagOpen
    && OtherOption(env, ts[3..])
  }

  // where the reader begins expressions, as long as what it reads before them is read without error

  /** While it reads an expression, the reader begins an expression at `sub`. */
  ghost predicate Reads(env: Env, ts: Tokens, allowLists: bool, sub: Tokens)
    decreases |ts|, 7
  {
    || sub == ts
    || (if TagOf(ts) == TagName && env.index(ExpressionNames, ts[0].name) >= 0
        then TagOf(ts[1..]) == TagOpen
             && ReadsTyped(env, KeywordType(env.index(ExpressionNames, ts[0].name)), ts[2..], allowLists, sub)
        else match GetExpressionType(env, ts)
             case Done(etype, _) => ReadsTyped(env, etype, ts, allowLists, sub)
             case _ => false)
  }

  ghost predicate ReadsTyped(env: Env, etype: ExpressionType, ts: Tokens, allowLists: bool, sub: Tokens)
    decreases |ts|, 6
  {
    match etype
    case ExpressionJoin =>
      if TagOf(ts) == TagName then ReadsMembers(env, ts, NO_JOIN, sub)
      else PositionalHead(env, ts).Done? && ReadsBracketed(env, PositionalHead(env, ts).rest, sub)
    case ExpressionList => allowLists && ReadsBracketed(env, ts, sub)
    case _ => false
  }

  ghost predicate ReadsBracketed(env: Env, ts: Tokens, sub: Tokens)
    decreases |ts|, 1
  {
    && TagOf(ts) == TagOpen
    && (|| Reads(env, ts[1..], false, sub)
        || (Bracketed(env, ts).Done? && ReadsBracketed(env, Bracketed(env, ts).rest, sub)))
  }

  ghost predicate ReadsMembers(env: Env, ts: Tokens, def: JoinDef, sub: Tokens)
    requires TagOf(ts) == TagName
    decreases |ts|, 0
  {
    var idx := env.index(JoinNames, ts[0].name);
    var d := def.(defined := def.defined + {idx});
    && 0 <= idx <= 4 && idx !in def.defined
    && if idx == 4 then
         || ReadsArgument(env, ts[1..], sub)
         || (var a := JoinArgument(env, ts[1..]);
             a.Done? && TagOf(a.rest) == TagName && ReadsMembers(env, a.rest, d.(argc := a.value.0), sub))
       else
         var e := JoinOption(env, ts[1..], idx, d);
         e.Done? && TagOf(e.rest) == TagName && ReadsMembers(env, e.rest, e.value, sub)
  }

  ghost predicate ReadsArgument(env: Env, ts: Tokens, sub: Tokens)
    decreases |ts|, 4
  {
    && TagOf(ts) == TagOpen
    && if TagOf(ts[1..]) == TagOpen then ReadsBracketed(env, ts[1..], sub) else Reads(env, ts[1..], false, sub)
  }

  /** An options structure in front of an expression without keyword is a variable with its value. */
  lemma PlainOptionsEnd(env: Env, ts: Tokens)
    requires TagOf(ts) == TagOpen && GetExpressionType(env, ts) == Done(ExpressionJoin, ts)
    ensures !JoinVariable(env, ts[1..], "").Stuck?
  {
    OptionStep(env, ts[1..], "");
    assert ts[1..][1..] == ts[2..];
    var t := GetText(env.cv, ts[2..]);
    if t.Done? { OptionStep(env, t.rest, t.value); }
  }

  // if the reader does not come back, it has begun such a structure

  lemma {:induction false} StuckReads(env: Env, ts: Tokens, allowLists: bool) returns (sub: Tokens)
    requires ParseExpression(env, ts, allowLists).Stuck?
    ensures Reads(env, ts, allowLists, sub) && LoopsForever(env, sub)
    decreases |ts|, 7
  {
    if TagOf(ts) == TagName && env.index(ExpressionNames, ts[0].name) >= 0 {
      var ki := env.index(ExpressionNames, ts[0].name);
      if ki == 0 && TagOf(ts[2..]) == TagOpen && JoinVariable(env, ts[2..][1..], "").Stuck? {
        assert ts[2..][1..] == ts[3..];
        LoopsExactly(env, ts[3..], "");
        sub := ts;
      } else {
        sub := StuckTyped(env, KeywordType(ki), ts[2..], allowLists);
      }
    } else {
      var etype := GetExpressionType(env, ts).value;
      if etype.ExpressionJoin? && TagOf(ts) == TagOpen { PlainOptionsEnd(env, ts); }
      sub := StuckTyped(env, etype, ts, allowLists);
    }
  }

  lemma {:induction false} StuckTyped(env: Env, etype: ExpressionType, ts: Tokens, allowLists: bool)
    returns (sub: Tokens)
    requires ParseTyped(env, etype, ts, allowLists).Stuck?
    requires etype.ExpressionJoin? && TagOf(ts) == TagOpen ==> !JoinVariable(env, ts[1..], "").Stuck?
    ensures ReadsTyped(env, etype, ts, allowLists, sub) && LoopsForever(env, sub)
    decreases |ts|, 6
  {
    if etype.ExpressionList? {
      sub := StuckList(env, ts);
    } else if TagOf(ts) == TagName {
      sub := StuckMembers(env, ts, NO_JOIN);
    } else {
      sub := StuckArguments(env, PositionalHead(env, ts).rest);
    }
  }

  lemma {:induction false} StuckList(env: Env, ts: Tokens) returns (sub: Tokens)
    requires ParseList(env, ts).Stuck?
    ensures ReadsBracketed(env, ts, sub) && LoopsForever(env, sub)
    decreases |ts|, 5
  {
    if Bracketed(env, ts).Stuck? {
      sub := StuckReads(env, ts[1..], false);
    } else {
      sub := StuckList(env, Bracketed(env, ts).rest);
    }
  }

  lemma {:induction false} StuckArguments(env: Env, ts: Tokens) returns (sub: Tokens)
    requires ParseArguments(env, ts).Stuck?
    ensures ReadsBracketed(env, ts, sub) && LoopsForever(env, sub)
    decreases |ts|, 1
  {
    if Bracketed(env, ts).Stuck? {
      sub := StuckReads(env, ts[1..], false);
    } else {
      sub := StuckArguments(env, Bracketed(env, ts).rest);
    }
  }

  lemma {:induction false} StuckMembers(env: Env, ts: Tokens, def: JoinDef) returns (sub: Tokens)
    requires TagOf(ts) == TagName && JoinMembers(env, ts, def).Stuck?
    ensures ReadsMembers(env, ts, def, sub) && LoopsForever(env, sub)
    decreases |ts|, 0
  {
    var idx := env.index(JoinNames, ts[0].name);
    var d := def.(defined := def.defined + {idx});
    if idx == 4 {
      var a := JoinArgument(env, ts[1..]);
      if a.Stuck? {
        sub := StuckArgument(env, ts[1..]);
      } else {
        sub := StuckMembers(env, a.rest, d.(argc := a.value.0));
      }
    } else {
      var e := JoinOption(env, ts[1..], idx, d);
      sub := StuckMembers(env, e.rest, e.value);
    }
  }

  lemma {:induction false} StuckArgument(env: Env, ts: Tokens) returns (sub: Tokens)
    requires JoinArgument(env, ts).Stuck?
    ensures ReadsArgument(env, ts, sub) && LoopsForever(env, sub)
    decreases |ts|, 4
  {
    if TagOf(ts[1..]) == TagOpen { sub := StuckList(env, ts[1..]); } else { sub := StuckReads(env, ts[1..], false); }
  }

  // and where it begins one, it does not come back

  lemma {:induction false} ReadsStuck(env: Env, ts: Tokens, allowLists: bool, sub: Tokens)
    requires Reads(env, ts, allowLists, sub) && LoopsForever(env, sub)
    ensures ParseExpression(env, ts, allowLists).Stuck?
    decreases |ts|, 7
  {
    if sub == ts {
      LoopIsStuck(env, ts, allowLists);
    } else if TagOf(ts) == TagName && env.index(ExpressionNames, ts[0].name) >= 0 {
      ReadsTypedStuck(env, KeywordType(env.index(ExpressionNames, ts[0].name)), ts[2..], allowLists, sub);
    } else {
      ReadsTypedStuck(env, GetExpressionType(env, ts).value, ts, allowLists, sub);
    }
  }

  /** Such a structure at the front stops the reader from coming back. */
  lemma LoopIsStuck(env: Env, ts: Tokens, allowLists: bool)
    requires LoopsForever(env, ts)
    ensures ParseExpression(env, ts, allowLists).Stuck?
  {
    assert ts[2..][1..] == ts[3..];
    LoopsExactly(env, ts[3..], "");
    assert PositionalHead(env, ts[2..]).Stuck?;
    assert ParseTyped(env, ExpressionJoin, ts[2..], allowLists).Stuck?;
  }

  lemma {:induction false} ReadsTypedStuck(env: Env, etype: ExpressionType, ts: Tokens, allowLists: bool, sub: Tokens)
    requires ReadsTyped(env, etype, ts, allowLists, sub) && LoopsForever(env, sub)
    ensures ParseTyped(env, etype, ts, allowLists).Stuck?
    decreases |ts|, 6
  {
    if etype.ExpressionList? {
      ReadsBracketedStuck(env, ts, sub);
    } else if TagOf(ts) == TagName {
      ReadsMembersStuck(env, ts, NO_JOIN, sub);
    } else {
      ReadsBracketedStuck(env, PositionalHead(env, ts).rest, sub);
    }
  }

  lemma {:induction false} ReadsBracketedStuck(env: Env, ts: Tokens, sub: Tokens)
    requires ReadsBracketed(env, ts, sub) && LoopsForever(env, sub)
    ensures ParseList(env, ts).Stuck? && ParseArguments(env, ts).Stuck?
    decreases |ts|, 1
  {
    if Reads(env, ts[1..], false, sub) {
      ReadsStuck(env, ts[1..], false, sub);
    } else {
      ReadsBracketedStuck(env, Bracketed(env, ts).rest, sub);
    }
  }

  lemma {:induction false} ReadsMembersStuck(env: Env, ts: Tokens, def: JoinDef, sub: Tokens)
    requires TagOf(ts) == TagName && ReadsMembers(env, ts, def, sub) && LoopsForever(env, sub)
    ensures JoinMembers(env, ts, def).Stuck?
    decreases |ts|, 0
  {
    var idx := env.index(JoinNames, ts[0].name);
    var d := def.(defined := def.defined + {idx});
    if idx == 4 {
      if ReadsArgument(env, ts[1..], sub) {
        ReadsArgumentStuck(env, ts[1..], sub);
      } else {
        var a := JoinArgument(env, ts[1..]);
        ReadsMembersStuck(env, a.rest, d.(argc := a.value.0), sub);
      }
    } else {
      var e := JoinOption(env, ts[1..], idx, d);
      ReadsMembersStuck(env, e.rest, e.value, sub);
    }
  }

  lemma {:induction false} ReadsArgumentStuck(env: Env, ts: Tokens, sub: Tokens)
    requires ReadsArgument(env, ts, sub) && LoopsForever(env, sub)
    ensures JoinArgument(env, ts).Stuck?
    decreases |ts|, 4
  {
    if TagOf(ts[1..]) == TagOpen {
      ReadsBracketedStuck(env, ts[1..], sub);
    } else {
      ReadsStuck(env, ts[1..], false, sub);
    }
  }

  /** Main result on termination: the reader does not come back exactly if, behind a beginning that is read without
      error, it begins an expression whose option structure has another member than variables. */
  lemma StuckExactly(env: Env, ts: Tokens, allowLists: bool)
    ensures ParseExpression(env, ts, allowLists).Stuck?
       <==> exists sub :: Reads(env, ts, allowLists, sub) && LoopsForever(env, sub)
  {
    if ParseExpression(env, ts, allowLists).Stuck? {
      var sub := StuckReads(env, ts, allowLists);
    }
    if sub :| Reads(env, ts, allowLists, sub) && LoopsForever(env, sub) {
      ReadsStuck(env, ts, allowLists, sub);
    }
  }

  /** The shortest such input. */
  lemma LoopExample(env: Env, rest: Tokens)
    requires FaithfulEnv(env)
    ensures ParseExpression(env, [Name("expression"), Open, Open, Name("op")] + rest, false).Stuck?
  {
    var ts := [Name("expression"), Open, Open, Name("op")] + rest;
    var names := Names(ExpressionNames);
    assert names[0] == "expression" && SNM.IsTable(names, ',');
    SNM.IndexOfName(names, ',', 0);
    assert env.index(ExpressionNames, ts[0].name) == 0;
    assert TagOf(ts[1..]) == TagOpen && TagOf(ts[2..]) == TagOpen && ts[3..][0] == Name("op");
    assert OtherBehind(env, ts[3..], 0);
    LoopIsStuck(env, ts, false);
  }
}
