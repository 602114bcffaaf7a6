module FeatureForms {

  // Query features in both their forms: what set, weight and expressions they are read as.

  import opened Wrappers
  import opened Serialization
  import opened ExpressionParser
  import opened ExpressionForms
  import Read = ExpressionFormsRead
  import Names = ExpressionKeywords
  import Discipline = ExpressionDiscipline

  /** Set and weight, the expressions, and what is passed over: an original text and where it comes from. The last one
      has a name that is not known. */
  datatype FeatureMember =
    | SetIs(v: Value)
    | WeightIs(v: Value)
    | AnalyzedIs(form: Form)
    | ContentIs(v: Value)
    | SentenceIs(v: Value)
    | NoneOfFeature(name: string, v: Value)

  datatype FeatureForm =
    | FeatureByValues(featureSet: Value, analyzed: Form, weight: Value)
    | FeatureByNames(members: seq<FeatureMember>)

  function FeatureName(m: FeatureMember): string
  {
    match m
    case SetIs(_) => "set"
    case WeightIs(_) => "weight"
    case AnalyzedIs(_) => "analyzed"
    case ContentIs(_) => "content"
    case SentenceIs(_) => "sentence"
    case NoneOfFeature(name, _) => name
  }

  function WriteFeatureMember(m: FeatureMember, rest: Tokens): Tokens
  {
    [Name(FeatureName(m))] + if m.AnalyzedIs? then [Open] + Write(m.form, [Close] + rest) else [Val(m.v)] + rest
  }

  function WriteFeatureMembers(l: seq<FeatureMember>, rest: Tokens): Tokens
  {
    if l == [] then rest else WriteFeatureMember(l[0], WriteFeatureMembers(l[1..], rest))
  }

  function WriteFeature(f: FeatureForm, rest: Tokens): Tokens
  {
    match f
    case FeatureByValues(featureSet, analyzed, weight) =>
      [Val(featureSet)] + ([Open] + Write(analyzed, [Close] + ([Val(weight)] + rest)))
    case FeatureByNames(members) => WriteFeatureMembers(members, rest)
  }

  predicate MemberProper(env: Env, m: FeatureMember)
  {
    (m.AnalyzedIs? ==> Proper(env, m.form)) && (m.NoneOfFeature? ==> env.index(FeatureNames, m.name) < 0)
  }

  predicate FeatureProper(env: Env, f: FeatureForm)
  {
    match f
    case FeatureByValues(_, analyzed, _) => Proper(env, analyzed)
    case FeatureByNames(members) => forall m :: m in members ==> MemberProper(env, m)
  }

  function FeatureKind(m: FeatureMember): nat
  {
    match m
    case SetIs(_) => 0
    case WeightIs(_) => 1
    case AnalyzedIs(_) => 2
    case ContentIs(_) => 3
    case SentenceIs(_) => 4
    case NoneOfFeature(_, _) => 5
  }

  ghost predicate FeatureMemberAccepted(env: Env, m: FeatureMember)
  {
    match m
    case SetIs(v) => IsText(env, v)
    case WeightIs(v) => env.float(v).Some?
    case AnalyzedIs(form) => ArgumentAccepted(env, form)
    case NoneOfFeature(_, _) => false
    case _ => true
  }

  /** Each name at most once, and members that can be converted. */
  ghost predicate FeatureAccepted(env: Env, f: FeatureForm)
  {
    match f
    case FeatureByValues(featureSet, analyzed, weight) =>
      IsText(env, featureSet) && ArgumentAccepted(env, analyzed) && env.float(weight).Some?
    case FeatureByNames(l) =>
      && l != [] && (forall i, j :: 0 <= i < j < |l| ==> FeatureKind(l[i]) != FeatureKind(l[j]))
      && forall m :: m in l ==> FeatureMemberAccepted(env, m)
  }

  /** The calls of a feature: those of its expressions, and as many definitions as there are of them, with this set
      and weight. */
  ghost predicate Defines(calls: Calls, analyzed: Calls, n: nat, featureSet: string, weight: real)
  {
    && |calls| == |analyzed| + n && calls[..|analyzed|] == analyzed
    && forall i :: |analyzed| <= i < |calls| ==> calls[i] == DefineFeature(featureSet, weight)
  }

  /** What is given for a name; what is not given has its default. */
  function SetOf(env: Env, l: seq<FeatureMember>): string
  {
    if l == [] then "" else if l[0].SetIs? then TextOf(env, l[0].v) else SetOf(env, l[1..])
  }

  function WeightOf(env: Env, l: seq<FeatureMember>): real
  {
    if l == [] then 1.0
    else if l[0].WeightIs? && env.float(l[0].v).Some? then env.float(l[0].v).value
    else WeightOf(env, l[1..])
  }

  function AnalyzedCount(l: seq<FeatureMember>): nat
  {
    if l == [] then 0 else if l[0].AnalyzedIs? then ArgumentCount(l[0].form) else AnalyzedCount(l[1..])
  }

  function PushedBy(env: Env, m: FeatureMember): Calls { if m.AnalyzedIs? then Pushed(env, m.form) else [] }

  function AnalyzedCalls(env: Env, l: seq<FeatureMember>): Calls
  {
    if l == [] then [] else PushedBy(env, l[0]) + AnalyzedCalls(env, l[1..])
  }

  ghost predicate FeatureDefines(env: Env, f: FeatureForm, calls: Calls)
  {
    match f
    case FeatureByValues(featureSet, analyzed, weight) =>
      && env.float(weight).Some?
      && Defines(calls, Pushed(env, analyzed), ArgumentCount(analyzed), TextOf(env, featureSet),
                 env.float(weight).value)
    case FeatureByNames(l) => Defines(calls, AnalyzedCalls(env, l), AnalyzedCount(l), SetOf(env, l), WeightOf(env, l))
  }

  // ---- reading ----

  lemma FeaturesAreDefinitions(calls: Calls, featureSet: string, weight: real, n: nat)
    ensures Defines(calls + Discipline.Features(featureSet, weight, n), calls, n, featureSet, weight)
  {
    AllAreDefinitions(featureSet, weight, n);
  }

  lemma {:induction false} AllAreDefinitions(featureSet: string, weight: real, n: nat)
    ensures var defs := Discipline.Features(featureSet, weight, n);
            |defs| == n && forall i :: 0 <= i < n ==> defs[i] == DefineFeature(featureSet, weight)
  {
    if n > 0 { AllAreDefinitions(featureSet, weight, n - 1); }
  }

  lemma AnalyzedRead(env: Env, form: Form, tail: Tokens)
    requires Read.Reading(env) && Proper(env, form)
    ensures Discipline.ParseAnalyzed(env, [Open] + Write(form, [Close] + tail))
         == if ArgumentAccepted(env, form) then Done((ArgumentCount(form), Pushed(env, form)), tail) else Fail
  {
    Read.ContentRead(env, form, tail);
    hide Read.Reading, Write, ArgumentAccepted, Pushed, Discipline.ParseCounted, Proper;
    assert ([Open] + Write(form, [Close] + tail))[1..] == Write(form, [Close] + tail);
    assert ([Close] + tail)[1..] == tail;
  }

  ghost predicate FeatureNamesKnown(env: Env)
  {
    && env.index(FeatureNames, "set") == 0 && env.index(FeatureNames, "weight") == 1
    && env.index(FeatureNames, "analyzed") == 2 && env.index(FeatureNames, "content") == 3
    && env.index(FeatureNames, "sentence") == 4
  }

  lemma FeaturesAreKnown(env: Env)
    requires Names.FindsNames(env)
    ensures FeatureNamesKnown(env)
  {
    hide Names.FindsNames;
    Names.Keyword(env, FeatureNames, 0);
    Names.Keyword(env, FeatureNames, 1);
    Names.Keyword(env, FeatureNames, 2);
    Names.Keyword(env, FeatureNames, 3);
    Names.Keyword(env, FeatureNames, 4);
  }

  /** The definition with one more member. */
  function With(env: Env, m: Discipline.FeatureDef, x: FeatureMember): Discipline.FeatureDef
  {
    var d := m.(defined := m.defined + {FeatureKind(x)});
    match x
    case SetIs(v) => d.(featureSet := TextOf(env, v))
    case WeightIs(v) => if env.float(v).Some? then d.(weight := env.float(v).value) else d
    case AnalyzedIs(form) => d.(n := ArgumentCount(form))
    case _ => d
  }

  lemma ValueMemberRead(env: Env, x: FeatureMember, tail: Tokens, m: Discipline.FeatureDef)
    requires Read.Reading(env) && FeatureNamesKnown(env) && !x.AnalyzedIs? && MemberProper(env, x)
    ensures TagOf(WriteFeatureMember(x, tail)) == TagName
    ensures Discipline.FeatureMembers(env, WriteFeatureMember(x, tail), m)
         == if FeatureKind(x) in m.defined || !FeatureMemberAccepted(env, x) then Fail
            else Discipline.FeatureMembers(env, tail, With(env, m, x))
  {
    hide Read.MembersKnown, Write, Discipline.ParseAnalyzed;
    var ts := WriteFeatureMember(x, tail);
    assert ts[1..][1..] == tail;
    if x.ContentIs? || x.SentenceIs? { assert Discipline.Passed(ts[1..]) == tail; }
  }

  lemma AnalyzedMemberRead(env: Env, form: Form, tail: Tokens, m: Discipline.FeatureDef)
    requires Read.Reading(env) && FeatureNamesKnown(env) && Proper(env, form)
    ensures TagOf(WriteFeatureMember(AnalyzedIs(form), tail)) == TagName
    ensures Discipline.FeatureMembers(env, WriteFeatureMember(AnalyzedIs(form), tail), m) == (
              if 2 in m.defined || !ArgumentAccepted(env, form) then Fail
              else match Discipline.FeatureMembers(env, tail, With(env, m, AnalyzedIs(form)))
                   case Done((f, more), rest) => Done((f, Pushed(env, form) + more), rest)
                   case Fail => Fail
                   case Stuck => Stuck)
  {
    AnalyzedRead(env, form, tail);
    hide Read.Reading, Write, ArgumentAccepted, Pushed, Discipline.ParseAnalyzed, Proper;
    var ts := WriteFeatureMember(AnalyzedIs(form), tail);
    assert ts[1..] == [Open] + Write(form, [Close] + tail);
  }

  /** Names that are given once, and none that has been met before. */
  ghost predicate Once(l: seq<FeatureMember>, defined: set<int>)
  {
    && (forall i, j :: 0 <= i < j < |l| ==> FeatureKind(l[i]) != FeatureKind(l[j]))
    && forall m :: m in l ==> FeatureKind(m) !in defined
  }

  lemma OnceFirst(env: Env, l: seq<FeatureMember>, m: Discipline.FeatureDef)
    requires l != []
    ensures Once(l, m.defined)
       <==> FeatureKind(l[0]) !in m.defined && Once(l[1..], With(env, m, l[0]).defined)
  {
    assert With(env, m, l[0]).defined == m.defined + {FeatureKind(l[0])};
    hide FeatureKind, With;
    var tail := l[1..];
    assert forall x :: x in l <==> x == l[0] || x in tail;
    if Once(l, m.defined) {
      forall x | x in tail ensures FeatureKind(x) !in m.defined + {FeatureKind(l[0])} {
        var j :| 1 <= j < |l| && l[j] == x;
        assert FeatureKind(l[0]) != FeatureKind(l[j]);
      }
      assert forall i, j :: 0 <= i < j < |tail| ==> tail[i] == l[i + 1] && tail[j] == l[j + 1];
    }
    if FeatureKind(l[0]) !in m.defined && Once(tail, m.defined + {FeatureKind(l[0])}) {
      forall i, j | 0 <= i < j < |l| ensures FeatureKind(l[i]) != FeatureKind(l[j]) {
        assert l[j] == tail[j - 1] && l[j] in tail;
        if i > 0 { assert l[i] == tail[i - 1]; }
      }
    }
  }

  ghost predicate AllAccepted(env: Env, l: seq<FeatureMember>) { forall m :: m in l ==> FeatureMemberAccepted(env, m) }

  lemma AllAcceptedFirst(env: Env, l: seq<FeatureMember>)
    requires l != []
    ensures AllAccepted(env, l) <==> FeatureMemberAccepted(env, l[0]) && AllAccepted(env, l[1..])
  {
    hide FeatureMemberAccepted;
    assert forall x :: x in l <==> x == l[0] || x in l[1..];
  }

  /** The members of a feature, as they were before or as they are given. */
  ghost predicate Merged(env: Env, e: Discipline.FeatureDef, m: Discipline.FeatureDef, l: seq<FeatureMember>)
  {
    && e.featureSet == (if 0 in m.defined then m.featureSet else SetOf(env, l))
    && e.weight == (if 1 in m.defined then m.weight else WeightOf(env, l))
    && e.n == (if 2 in m.defined then m.n else AnalyzedCount(l))
  }

  ghost predicate Fresh(m: Discipline.FeatureDef)
  {
    && (0 !in m.defined ==> m.featureSet == "")
    && (1 !in m.defined ==> m.weight == 1.0)
    && (2 !in m.defined ==> m.n == 0)
  }

  ghost predicate MembersResult(env: Env, l: seq<FeatureMember>, rest: Tokens, m: Discipline.FeatureDef)
  {
    var r := Discipline.FeatureMembers(env, WriteFeatureMembers(l, rest), m);
    if Once(l, m.defined) && AllAccepted(env, l)
    then r.Done? && r.rest == rest && r.value.1 == AnalyzedCalls(env, l) && Merged(env, r.value.0, m, l)
    else r == Fail
  }

  /** One member in front of others. */
  ghost predicate MemberResult(env: Env, x: FeatureMember, tail: Tokens, m: Discipline.FeatureDef)
  {
    Discipline.FeatureMembers(env, WriteFeatureMember(x, tail), m) == (
      if FeatureKind(x) in m.defined || !FeatureMemberAccepted(env, x) then Fail
      else match Discipline.FeatureMembers(env, tail, With(env, m, x))
           case Done((f, more), rest) => Done((f, PushedBy(env, x) + more), rest)
           case Fail => Fail
           case Stuck => Stuck)
  }

  lemma MemberRead(env: Env, x: FeatureMember, tail: Tokens, m: Discipline.FeatureDef)
    requires Read.Reading(env) && FeatureNamesKnown(env) && MemberProper(env, x)
    ensures MemberResult(env, x, tail, m)
  {
    hide Read.Reading, FeatureNamesKnown, Discipline.FeatureMembers, With, WriteFeatureMember, Proper, Pushed;
    hide ArgumentAccepted;
    if x.AnalyzedIs? {
      assert x == AnalyzedIs(x.form);
      AnalyzedMemberRead(env, x.form, tail, m);
    } else {
      ValueMemberRead(env, x, tail, m);
      var r := Discipline.FeatureMembers(env, tail, With(env, m, x));
      if r.Done? { Unit(r.value.1); }
    }
  }

  lemma {:induction false} MembersRead(env: Env, l: seq<FeatureMember>, rest: Tokens, m: Discipline.FeatureDef)
    requires Read.Reading(env) && FeatureNamesKnown(env) && FeatureProper(env, FeatureByNames(l))
    requires TagOf(rest) == TagClose && Fresh(m)
    ensures MembersResult(env, l, rest, m)
    decreases l
  {
    hide Read.Reading, FeatureNamesKnown, With, FeatureKind, FeatureMemberAccepted, WriteFeatureMembers;
    hide MembersResult, Proper, Fresh, MemberResult;
    if l == [] {
      NoMember(env, rest, m);
    } else {
      MemberRead(env, l[0], WriteFeatureMembers(l[1..], rest), m);
      if FeatureMemberAccepted(env, l[0]) {
        WithIsFresh(env, m, l[0]);
        MembersRead(env, l[1..], rest, With(env, m, l[0]));
      }
      MembersStep(env, l, rest, m);
    }
  }

  lemma MembersStep(env: Env, l: seq<FeatureMember>, rest: Tokens, m: Discipline.FeatureDef)
    requires l != [] && Fresh(m)
    requires MemberResult(env, l[0], WriteFeatureMembers(l[1..], rest), m)
    requires FeatureMemberAccepted(env, l[0]) ==> MembersResult(env, l[1..], rest, With(env, m, l[0]))
    ensures MembersResult(env, l, rest, m)
  {
    hide Discipline.FeatureMembers, Once, AllAccepted, FeatureMemberAccepted, PushedBy, WriteFeatureMember, Merged;
    hide Fresh, With, FeatureKind;
    OnceFirst(env, l, m);
    AllAcceptedFirst(env, l);
    if FeatureMemberAccepted(env, l[0]) { MergedStep(env, l, m); }
  }

  lemma MergedStep(env: Env, l: seq<FeatureMember>, m: Discipline.FeatureDef)
    requires l != [] && FeatureMemberAccepted(env, l[0])
    ensures FeatureKind(l[0]) !in m.defined ==>
              forall e :: Merged(env, e, With(env, m, l[0]), l[1..]) ==> Merged(env, e, m, l)
  {
    hide ArgumentCount, ArgumentAccepted;
  }

  lemma NoMember(env: Env, rest: Tokens, m: Discipline.FeatureDef)
    requires TagOf(rest) == TagClose && Fresh(m)
    ensures MembersResult(env, [], rest, m)
  {
  }

  lemma WithIsFresh(env: Env, m: Discipline.FeatureDef, x: FeatureMember)
    requires Fresh(m)
    ensures FeatureMemberAccepted(env, x) ==> Fresh(With(env, m, x))
  {
  }

  /** A feature is read exactly if it is accepted, and defined as often as it has expressions, each time with its set
      and its weight. */
  lemma FeatureIsRead(env: Env, f: FeatureForm, rest: Tokens)
    requires Names.FindsNames(env)
    requires FeatureProper(env, f) && TagOf(rest) == TagClose
    ensures var r := Discipline.ParseFeature(env, WriteFeature(f, rest));
            && !r.Stuck? && (r.Done? <==> FeatureAccepted(env, f))
            && (r.Done? ==> r.rest == rest && FeatureDefines(env, f, r.value))
  {
    Read.NamesAreKnown(env);
    FeaturesAreKnown(env);
    match f
    case FeatureByValues(_, _, _) => ValuesRead(env, f, rest);
    case FeatureByNames(l) => NamedRead(env, l, rest);
  }

  lemma ValuesRead(env: Env, f: FeatureForm, rest: Tokens)
    requires Read.Reading(env) && f.FeatureByValues? && FeatureProper(env, f)
    ensures var r := Discipline.ParseFeature(env, WriteFeature(f, rest));
            && !r.Stuck? && (r.Done? <==> FeatureAccepted(env, f))
            && (r.Done? ==> r.rest == rest && FeatureDefines(env, f, r.value))
  {
    hide Read.MembersKnown, Write, ArgumentAccepted, Pushed, Discipline.ParseAnalyzed, Proper, Discipline.Features;
    hide Defines;
    var behind := [Val(f.weight)] + rest;
    var ts := WriteFeature(f, rest);
    assert ts[1..] == [Open] + Write(f.analyzed, [Close] + behind) && behind[1..] == rest;
    AnalyzedRead(env, f.analyzed, behind);
    if FeatureAccepted(env, f) {
      FeaturesAreDefinitions(Pushed(env, f.analyzed), TextOf(env, f.featureSet), env.float(f.weight).value,
                             ArgumentCount(f.analyzed));
    }
  }

  lemma NamedRead(env: Env, l: seq<FeatureMember>, rest: Tokens)
    requires Read.Reading(env) && FeatureNamesKnown(env) && FeatureProper(env, FeatureByNames(l))
    requires TagOf(rest) == TagClose
    ensures var r := Discipline.ParseFeature(env, WriteFeature(FeatureByNames(l), rest));
            && !r.Stuck? && (r.Done? <==> FeatureAccepted(env, FeatureByNames(l)))
            && (r.Done? ==> r.rest == rest && FeatureDefines(env, FeatureByNames(l), r.value))
  {
    hide Read.Reading, WriteFeatureMember, AnalyzedCalls, Discipline.Features, Discipline.FeatureMembers, FeatureKind;
    hide FeatureMemberAccepted, SetOf, WeightOf, AnalyzedCount, Proper, Defines;
    if l != [] {
      MembersRead(env, l, rest, Discipline.NO_FEATURE);
      FirstIsName(l[0], WriteFeatureMembers(l[1..], rest));
      assert Once(l, {}) && AllAccepted(env, l) <==> FeatureAccepted(env, FeatureByNames(l));
      FeaturesAreDefinitions(AnalyzedCalls(env, l), SetOf(env, l), WeightOf(env, l), AnalyzedCount(l));
    }
  }

  lemma FirstIsName(x: FeatureMember, rest: Tokens)
    ensures TagOf(WriteFeatureMember(x, rest)) == TagName
  {
  }
}
