/** The names of the expression reader: each is found under its number in its table. */
module ExpressionKeywords {
  import opened ExpressionParser
  import SNM = StructureNameMap

  lemma ExpressionNamesDiffer()
    ensures SNM.NoneInEarlier(Names(ExpressionNames))
  {
    hide SNM.Infix;
    SNM.NoInfix("term", "expression", [0, 0, 0, 0, 0, 0, 0]);
    SNM.NoInfix("list", "expression", [0, 0, 0, 0, 0, 0, 0]);
    SNM.NoInfix("list", "term", [0]);
  }

  lemma TermNamesDiffer()
    ensures SNM.NoneInEarlier(Names(TermNames))
  {
    hide SNM.Infix;
    SNM.NoInfix("value", "type", []);
    SNM.NoInfix("variable", "type", []);
    SNM.NoInfix("variable", "value", []);
    SNM.NoInfix("len", "type", [0, 0]);
    SNM.NoInfix("len", "value", [0, 0, 1]);
    SNM.NoInfix("len", "variable", [0, 0, 0, 0, 0, 0]);
  }

  lemma FirstJoinNamesDiffer()
    ensures var names := Names(JoinNames); forall i, j :: 0 <= i < 4 && 0 <= j < i ==> !SNM.Infix(names[i], names[j])
  {
    hide SNM.Infix;
    SNM.NoInfix("op", "variable", [0, 0, 0, 0, 0, 0, 0]);
    SNM.NoInfix("range", "variable", [0, 0, 1, 0]);
    SNM.NoInfix("range", "op", []);
    SNM.NoInfix("cardinality", "variable", []);
    SNM.NoInfix("cardinality", "op", []);
    SNM.NoInfix("cardinality", "range", []);
  }

  lemma JoinArgDiffers()
    ensures var names := Names(JoinNames); forall i, j :: 4 <= i < 5 && 0 <= j < i ==> !SNM.Infix(names[i], names[j])
  {
    hide SNM.Infix;
    SNM.NoInfix("arg", "variable", [0, 2, 0, 0, 1, 0]);
    SNM.NoInfix("arg", "op", []);
    SNM.NoInfix("arg", "range", [0, 1, 0]);
    SNM.NoInfix("arg", "cardinality", [0, 2, 0, 0, 0, 0, 1, 0, 0]);
  }

  lemma FeatureNamesDiffer()
    ensures SNM.NoneInEarlier(Names(FeatureNames))
  {
    hide SNM.Infix;
    SNM.NoInfix("weight", "set", []);
    SNM.NoInfix("analyzed", "set", []);
    SNM.NoInfix("analyzed", "weight", []);
    SNM.NoInfix("content", "set", []);
    SNM.NoInfix("content", "weight", []);
    SNM.NoInfix("content", "analyzed", [0, 0]);
    SNM.NoInfix("sentence", "set", []);
    SNM.NoInfix("sentence", "weight", []);
    SNM.NoInfix("sentence", "analyzed", [0]);
    SNM.NoInfix("sentence", "content", []);
  }

  lemma FirstTypeNamesDiffer()
    ensures var names := Names(TypeNames); forall i, j :: 0 <= i < 5 && 0 <= j < i ==> !SNM.Infix(names[i], names[j])
  {
    hide SNM.Infix;
    SNM.NoInfix("value", "type", []);
    SNM.NoInfix("len", "type", [0, 0]);
    SNM.NoInfix("len", "value", [0, 0, 1]);
    SNM.NoInfix("variable", "type", []);
    SNM.NoInfix("variable", "value", []);
    SNM.NoInfix("variable", "len", []);
    SNM.NoInfix("op", "type", [0, 0, 0]);
    SNM.NoInfix("op", "value", [0, 0, 0, 0]);
    SNM.NoInfix("op", "len", [0, 0]);
    SNM.NoInfix("op", "variable", [0, 0, 0, 0, 0, 0, 0]);
  }

  lemma RangeDiffers()
    ensures var names := Names(TypeNames); forall i, j :: 5 <= i < 6 && 0 <= j < i ==> !SNM.Infix(names[i], names[j])
  {
    hide SNM.Infix;
    SNM.NoInfix("range", "type", []);
    SNM.NoInfix("range", "value", [0]);
    SNM.NoInfix("range", "len", []);
    SNM.NoInfix("range", "variable", [0, 0, 1, 0]);
    SNM.NoInfix("range", "op", []);
  }

  lemma CardinalityDiffers()
    ensures var names := Names(TypeNames); forall i, j :: 6 <= i < 7 && 0 <= j < i ==> !SNM.Infix(names[i], names[j])
  {
    hide SNM.Infix;
    SNM.NoInfix("cardinality", "type", []);
    SNM.NoInfix("cardinality", "value", []);
    SNM.NoInfix("cardinality", "len", []);
    SNM.NoInfix("cardinality", "variable", []);
    SNM.NoInfix("cardinality", "op", []);
    SNM.NoInfix("cardinality", "range", []);
  }

  lemma ArgDiffers()
    ensures var names := Names(TypeNames); forall i, j :: 7 <= i < 8 && 0 <= j < i ==> !SNM.Infix(names[i], names[j])
  {
    hide SNM.Infix;
    SNM.NoInfix("arg", "type", [0, 0]);
    SNM.NoInfix("arg", "value", [0, 1, 0]);
    SNM.NoInfix("arg", "len", [0]);
    SNM.NoInfix("arg", "variable", [0, 2, 0, 0, 1, 0]);
    SNM.NoInfix("arg", "op", []);
    SNM.NoInfix("arg", "range", [0, 1, 0]);
    SNM.NoInfix("arg", "cardinality", [0, 2, 0, 0, 0, 0, 1, 0, 0]);
  }

  lemma TypeNamesDiffer()
    ensures SNM.NoneInEarlier(Names(TypeNames))
  {
    hide SNM.Infix;
    FirstTypeNamesDiffer();
    RangeDiffers();
    CardinalityDiffers();
    ArgDiffers();
  }

  lemma JoinNamesDiffer()
    ensures SNM.NoneInEarlier(Names(JoinNames))
  {
    hide SNM.Infix;
    FirstJoinNamesDiffer();
    JoinArgDiffers();
  }

  lemma NamesDiffer(t: Table)
    ensures SNM.NoneInEarlier(Names(t))
  {
    hide SNM.NoneInEarlier, Names;
    match t
    case ExpressionNames => ExpressionNamesDiffer();
    case TypeNames => TypeNamesDiffer();
    case TermNames => TermNamesDiffer();
    case JoinNames => JoinNamesDiffer();
    case FeatureNames => FeatureNamesDiffer();
  }

  /** Names are looked up as the name tables do it. */
  ghost predicate FindsNames(env: Env)
  {
    forall t, name :: env.index(t, name) == SNM.Index(SNM.Join(Names(t), ','), ',', name)
  }

  /** A name is found under its number. */
  lemma Keyword(env: Env, t: Table, i: nat)
    requires FindsNames(env) && i < |Names(t)|
    ensures env.index(t, Names(t)[i]) == i
  {
    hide SNM.NoneInEarlier, SNM.Index, SNM.Join;
    NamesDiffer(t);
    assert SNM.IsTable(Names(t), ',');
    SNM.AllNamesFound(Names(t), ',');
  }

  /** The names of members do not begin an expression of their own. */
  lemma NoExpressionName(env: Env, i: nat)
    requires FindsNames(env) && i < |Names(TypeNames)|
    ensures env.index(ExpressionNames, Names(TypeNames)[i]) < 0
  {
    hide SNM.Index, SNM.Join, SNM.IsSuffix;
    var names, id := Names(ExpressionNames), Names(TypeNames)[i];
    assert SNM.IsTable(names, ',') && SNM.IsTable(Names(TypeNames), ',');
    SNM.IndexIsSuffix(names, ',', id);
    NoSuffix(i, 0);
    NoSuffix(i, 1);
    NoSuffix(i, 2);
  }

  lemma NoSuffix(i: nat, j: nat)
    requires i < |Names(TypeNames)| && j < |Names(ExpressionNames)|
    ensures !SNM.IsSuffix(Names(TypeNames)[i], Names(ExpressionNames)[j])
  {
    var id, name := Names(TypeNames)[i], Names(ExpressionNames)[j];
    if |id| <= |name| { assert name[|name| - |id|..][|id| - 1] == name[|name| - 1]; }
  }
}
