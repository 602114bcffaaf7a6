/** A member with an unknown name, or with a value that cannot be converted, is refused behind all members that
    can be read. */
module MalformedMembers {
  import opened Wrappers
  import opened Serialization
  import Doc = DocumentInsertion
  import Forms = DocumentForms
  import Members = NamedMembers
  import Ranges = RangeForms
  import Restrictions = MetaDataRestriction
  import Conditions = MetaDataConditions

  // ---- ranges ----

  predicate BadRangeMember(cv: Conversions, ts: Tokens)
  {
    TagOf(ts) == TagName && (RangeMember(ts[0].name) !in {0, 1} || GetInt(cv, ts[1..]).Fail?)
  }

  lemma {:induction false} BadBehindParts(cv: Conversions, l: seq<Ranges.Part>, bad: Tokens, m: RangeMembers)
    requires Faithful(cv) && Ranges.PartsInRange(l) && BadRangeMember(cv, bad)
    ensures ReadRangeMembers(cv, Ranges.PrintParts(l) + bad, m) == Fail
    decreases l
  {
    if l == [] {
      Unit(bad);
    } else {
      Assoc(Ranges.PrintPart(l[0]), Ranges.PrintParts(l[1..]), bad);
      Ranges.PartRead(cv, l[0], Ranges.PrintParts(l[1..]) + bad, m);
      hide Faithful, ReadRangeMembers, Ranges.PrintPart, BadRangeMember;
      BadBehindParts(cv, l[1..], bad, Ranges.Added(m, l[0]));
    }
  }

  lemma BadRange(cv: Conversions, l: seq<Ranges.Part>, bad: Tokens)
    requires Faithful(cv) && Ranges.PartsInRange(l) && BadRangeMember(cv, bad)
    ensures ReadRange(cv, [Open] + (Ranges.PrintParts(l) + bad)) == Fail
  {
    BadBehindParts(cv, l, bad, RangeMembers(None, None));
    hide ReadRangeMembers, Faithful;
    assert ([Open] + (Ranges.PrintParts(l) + bad))[1..] == Ranges.PrintParts(l) + bad;
    assert TagOf(Ranges.PrintParts(l) + bad) == TagName;
  }

  // ---- conditions of a restriction ----

  predicate BadCondition(env: Restrictions.Env, ts: Tokens)
  {
    && TagOf(ts) == TagName
    && var idx := env.index(Restrictions.CompareNames, ts[0].name);
       || idx !in {0, 1, 2} || (idx == 0 && Restrictions.ReadOp(env, ts[1..]).Fail?)
       || (idx == 1 && GetText(env.cv, ts[1..]).Fail?) || (idx == 2 && TagOf(ts[1..]) != TagValue)
  }

  lemma {:induction false} BadBehindConditions(env: Restrictions.Env, l: seq<Conditions.CondMember>, bad: Tokens,
                                               m: Restrictions.Members)
    requires Restrictions.FaithfulEnv(env) && BadCondition(env, bad)
    ensures Restrictions.CompareMembers(env, Conditions.PrintMembers(l) + bad, m) == Fail
    decreases l
  {
    if l == [] {
      hide Restrictions.FaithfulEnv, Restrictions.ReadOp;
      Unit(bad);
    } else {
      hide Restrictions.FaithfulEnv, Restrictions.CompareMembers, Conditions.PrintMember, BadCondition;
      Assoc(Conditions.PrintMember(l[0]), Conditions.PrintMembers(l[1..]), bad);
      Conditions.MemberRead(env, l[0], Conditions.PrintMembers(l[1..]) + bad, m);
      if Conditions.Addable(m, l[0]) { BadBehindConditions(env, l[1..], bad, Conditions.Added(m, l[0])); }
    }
  }

  lemma BadConditionRefused(env: Restrictions.Env, l: seq<Conditions.CondMember>, bad: Tokens, newGroup: bool)
    requires Restrictions.FaithfulEnv(env) && BadCondition(env, bad)
    ensures Restrictions.ReadCompare(env, Conditions.PrintMembers(l) + bad, newGroup) == Fail
  {
    BadBehindConditions(env, l, bad, Restrictions.Members(None, None, None));
    hide Restrictions.FaithfulEnv, Restrictions.CompareMembers;
    assert TagOf(Conditions.PrintMembers(l) + bad) == TagName;
  }

  // ---- documents ----

  predicate BadPair(env: Doc.Env, numeric: bool, ts: Tokens)
  {
    && TagOf(ts) == TagName
    && var idx := env.index(Doc.PairNames, ts[0].name);
       || idx !in {0, 1} || (idx == 0 && GetText(env.cv, ts[1..]).Fail?)
       || (idx == 1 && if numeric then Doc.GetNumber(env, ts[1..]).Fail? else GetText(env.cv, ts[1..]).Fail?)
  }

  lemma BadPairFails(env: Doc.Env, numeric: bool, bad: Tokens, m: Doc.PairMembers)
    requires BadPair(env, numeric, bad)
    ensures Doc.ReadPairMembers(env, numeric, bad, m) == Fail
  {
  }

  lemma {:induction false} BadBehindPair(env: Doc.Env, numeric: bool, l: seq<Members.Entry<Value>>, bad: Tokens,
                                         m: map<nat, Value>)
    requires Doc.FaithfulEnv(env) && Forms.IsPairMap(numeric, m) && forall e :: e in l ==> Forms.IsPairEntry(numeric, e)
    requires BadPair(env, numeric, bad)
    ensures Doc.ReadPairMembers(env, numeric, Forms.PrintPairMembers(l) + bad, Forms.PairOf(numeric, m)) == Fail
    decreases l
  {
    hide Doc.FaithfulEnv, Doc.ReadPairMembers, Forms.PairOf, Forms.PairName, BadPair;
    if l == [] {
      Unit(bad);
      BadPairFails(env, numeric, bad, Forms.PairOf(numeric, m));
    } else {
      var first := [Name(Forms.PairName(l[0].kind)), Val(l[0].value)];
      Assoc(first, Forms.PrintPairMembers(l[1..]), bad);
      Forms.PairMemberRead(env, numeric, l[0], Forms.PrintPairMembers(l[1..]) + bad, m);
      if l[0].kind !in m { BadBehindPair(env, numeric, l[1..], bad, m[l[0].kind := l[0].value]); }
    }
  }

  predicate BadTerm(env: Doc.Env, ts: Tokens)
  {
    && TagOf(ts) == TagName
    && var idx := env.index(Doc.TermNames, ts[0].name);
       || idx !in {0, 1, 2, 3} || (idx in {0, 1} && GetText(env.cv, ts[1..]).Fail?)
       || (idx in {2, 3} && GetUint(env.cv, ts[1..]).Fail?)
  }

  lemma BadTermFails(env: Doc.Env, bad: Tokens, m: Doc.TermMembers)
    requires BadTerm(env, bad)
    ensures Doc.ReadTermMembers(env, bad, m) == Fail
  {
  }

  lemma {:induction false} BadBehindTerm(env: Doc.Env, l: seq<Forms.TermPart>, bad: Tokens,
                                         m: map<nat, Forms.TermValue>)
    requires Doc.FaithfulEnv(env) && Forms.IsTermMap(m) && forall x :: x in l ==> Forms.TermPartInRange(x)
    requires BadTerm(env, bad)
    ensures Doc.ReadTermMembers(env, Forms.PrintTermParts(l) + bad, Forms.TermOf(m)) == Fail
    decreases l
  {
    hide Doc.FaithfulEnv, Doc.ReadTermMembers, Forms.TermOf, Forms.PrintTermPart, BadTerm;
    if l == [] {
      Unit(bad);
      BadTermFails(env, bad, Forms.TermOf(m));
    } else {
      Assoc(Forms.PrintTermPart(l[0]), Forms.PrintTermParts(l[1..]), bad);
      Forms.TermPartRead(env, l[0], Forms.PrintTermParts(l[1..]) + bad, m);
      if l[0].Length? {
        BadBehindTerm(env, l[1..], bad, m);
      } else if l[0].e.kind !in m {
        BadBehindTerm(env, l[1..], bad, m[l[0].e.kind := l[0].e.value]);
      }
    }
  }

  predicate BadStructure(env: Doc.Env, ts: Tokens)
  {
    && TagOf(ts) == TagName
    && var idx := env.index(Doc.StructureNames, ts[0].name);
       || idx !in {0, 1, 2} || (idx == 0 && GetText(env.cv, ts[1..]).Fail?)
       || (idx in {1, 2} && ReadRange(env.cv, ts[1..]).Fail?)
  }

  lemma BadStructureFails(env: Doc.Env, bad: Tokens, m: Doc.StructureMembers)
    requires BadStructure(env, bad)
    ensures Doc.ReadStructureMembers(env, bad, m) == Fail
  {
    hide ReadRange;
  }

  lemma {:induction false} BadBehindStructure(env: Doc.Env, l: seq<Members.Entry<Forms.StructureValue>>, bad: Tokens,
                                              m: map<nat, Forms.StructureValue>)
    requires Doc.FaithfulEnv(env) && Forms.IsStructureMap(m) && forall e :: e in l ==> Forms.IsStructureEntry(e)
    requires BadStructure(env, bad)
    ensures Doc.ReadStructureMembers(env, Forms.PrintStructureMembers(l) + bad, Forms.StructureOf(m)) == Fail
    decreases l
  {
    hide Doc.FaithfulEnv, Doc.ReadStructureMembers, Forms.StructureOf, Forms.PrintStructureMember, BadStructure;
    if l == [] {
      Unit(bad);
      BadStructureFails(env, bad, Forms.StructureOf(m));
    } else {
      Assoc(Forms.PrintStructureMember(l[0]), Forms.PrintStructureMembers(l[1..]), bad);
      Forms.StructureMemberRead(env, l[0], Forms.PrintStructureMembers(l[1..]) + bad, m);
      if l[0].kind !in m { BadBehindStructure(env, l[1..], bad, m[l[0].kind := l[0].value]); }
    }
  }

  predicate BadSection(env: Doc.Env, ts: Tokens)
  {
    && TagOf(ts) == TagName
    && var idx := env.index(Doc.SectionNames, ts[0].name);
       || !(0 <= idx <= 7) || (idx in {0, 1} && GetText(env.cv, ts[1..]).Fail?)
       || (2 <= idx && TagOf(ts[1..]) in {TagName, TagClose})
  }

  lemma BadSectionFails(env: Doc.Env, bad: Tokens)
    requires BadSection(env, bad)
    ensures Doc.ReadNamedSections(env, bad) == Fail
  {
  }

  lemma {:induction false} BadBehindSections(env: Doc.Env, l: seq<Forms.SectionForm>, bad: Tokens)
    requires Doc.FaithfulEnv(env) && (forall s :: s in l ==> Forms.SectionInRange(s)) && BadSection(env, bad)
    ensures Doc.ReadNamedSections(env, Forms.PrintSections(l) + bad) == Fail
    decreases l
  {
    hide Doc.FaithfulEnv, Doc.ReadNamedSection, Doc.ReadNamedSections, Forms.PrintSection, Forms.SectionComplete;
    hide Forms.TellsSection, Forms.SectionInRange, BadSection;
    if l == [] {
      Unit(bad);
      BadSectionFails(env, bad);
    } else {
      var tail := Forms.PrintSections(l[1..]) + bad;
      Assoc(Forms.PrintSection(l[0]), Forms.PrintSections(l[1..]), bad);
      Forms.SectionFormRead(env, l[0], tail);
      Forms.SectionsUnfold(env, Forms.PrintSection(l[0]) + tail);
      BadBehindSections(env, l[1..], bad);
    }
  }

  /** An attribute or metadata element, a term and a structure with a malformed member are refused. */
  lemma BadPairRefused(env: Doc.Env, numeric: bool, l: seq<Members.Entry<Value>>, bad: Tokens)
    requires Doc.FaithfulEnv(env) && forall e :: e in l ==> Forms.IsPairEntry(numeric, e)
    requires BadPair(env, numeric, bad)
    ensures Forms.ReadPair(env, numeric, [Open] + (Forms.PrintPairMembers(l) + bad)) == Fail
  {
    BadBehindPair(env, numeric, l, bad, map[]);
    hide Doc.FaithfulEnv, Doc.ReadPairMembers;
    assert ([Open] + (Forms.PrintPairMembers(l) + bad))[1..] == Forms.PrintPairMembers(l) + bad;
    assert TagOf(Forms.PrintPairMembers(l) + bad) == TagName;
  }

  lemma BadTermRefused(env: Doc.Env, l: seq<Forms.TermPart>, forward: bool, bad: Tokens)
    requires Doc.FaithfulEnv(env) && (forall x :: x in l ==> Forms.TermPartInRange(x)) && BadTerm(env, bad)
    ensures Doc.ReadTerm(env, [Open] + (Forms.PrintTermParts(l) + bad), forward) == Fail
  {
    BadBehindTerm(env, l, bad, map[]);
    hide Doc.FaithfulEnv, Doc.ReadTermMembers;
    assert ([Open] + (Forms.PrintTermParts(l) + bad))[1..] == Forms.PrintTermParts(l) + bad;
    assert TagOf(Forms.PrintTermParts(l) + bad) == TagName;
  }

  lemma BadStructureRefused(env: Doc.Env, l: seq<Members.Entry<Forms.StructureValue>>, bad: Tokens)
    requires Doc.FaithfulEnv(env) && (forall e :: e in l ==> Forms.IsStructureEntry(e)) && BadStructure(env, bad)
    ensures Doc.ReadStructure(env, [Open] + (Forms.PrintStructureMembers(l) + bad)) == Fail
  {
    BadBehindStructure(env, l, bad, map[]);
    hide Doc.FaithfulEnv, Doc.ReadStructureMembers, BadStructure;
    assert ([Open] + (Forms.PrintStructureMembers(l) + bad))[1..] == Forms.PrintStructureMembers(l) + bad;
    NameFirst(env, l, bad);
  }

  lemma NameFirst(env: Doc.Env, l: seq<Members.Entry<Forms.StructureValue>>, bad: Tokens)
    requires BadStructure(env, bad)
    ensures TagOf(Forms.PrintStructureMembers(l) + bad) == TagName
  {
  }

  /** A document with a malformed section is refused, whatever is in front of it. */
  lemma BadSectionRefused(env: Doc.Env, l: seq<Forms.SectionForm>, bad: Tokens)
    requires Doc.FaithfulEnv(env) && (forall s :: s in l ==> Forms.SectionInRange(s)) && BadSection(env, bad)
    ensures Doc.ReadDocument(env, Forms.PrintSections(l) + bad) == Fail
  {
    BadBehindSections(env, l, bad);
    hide Doc.FaithfulEnv, Doc.ReadNamedSections, Doc.ReadSections, Forms.PrintSection, Forms.SectionInRange;
    if l == [] {
      Unit(bad);
    } else {
      Assoc(Forms.PrintSection(l[0]), Forms.PrintSections(l[1..]), bad);
      Forms.SectionFormRead(env, l[0], Forms.PrintSections(l[1..]) + bad);
    }
  }
}
