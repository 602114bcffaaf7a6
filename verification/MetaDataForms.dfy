module MetaDataForms {

  // The forms of a metadata restriction: which of them are accepted, and how their conditions are grouped.

  import opened Wrappers
  import opened Serialization
  import opened MetaDataRestriction
  import opened MetaDataConditions

  // ---- unions among other items ----

  lemma {:induction false} DepthBehind(ts: Tokens, depth: nat, extra: nat, rest: Tokens)
    requires Reaches(ts, depth, rest)
    ensures Depth(ts, depth + extra) == Depth(rest, extra)
    decreases |ts|
  {
    if !(depth == 0 && ts == rest) {
      match ts[0]
      case Open => DepthBehind(ts[1..], depth + 1, extra, rest);
      case Close => DepthBehind(ts[1..], depth - 1, extra, rest);
      case _ => DepthBehind(ts[1..], depth, extra, rest);
    }
  }

  /** An item closes the brackets that it opens, except a named union, which leaves one open. */
  lemma ItemDepth(env: Env, ts: Tokens, extra: nat)
    requires ReadItem(env, ts).Done?
    ensures Depth(ts, extra) == Depth(ReadItem(env, ts).rest, if IsNamedUnion(env, ts) then extra + 1 else extra)
  {
    var rest := ReadItem(env, ts).rest;
    if IsNamedUnion(env, ts) {
      JoinStructBalanced(env, ts[3..], true);
      DepthBehind(ts[3..], 0, extra + 1, rest);
      assert ts[1..][1..] == ts[2..] && ts[2..][1..] == ts[3..];
      assert Depth(ts, extra) == Depth(ts[1..], extra) == Depth(ts[2..], extra + 1) == Depth(ts[3..], extra + 1);
    } else {
      OtherItemLeaves(env, ts);
      DepthBehind(ts, 0, extra, rest);
    }
  }

  lemma OtherItemLeaves(env: Env, ts: Tokens)
    requires ReadItem(env, ts).Done? && !IsNamedUnion(env, ts)
    ensures Leaves(ts, ReadItem(env, ts).rest)
  {
    match TagOf(ts)
    case TagName =>
      if env.index(RestrictionNames, ts[0].name) >= 2 {
        CompareBalanced(env, ts, true);
      } else {
        JoinStructBalanced(env, ts[1..], false);
        LeavesOne(ts);
        LeavesTrans(ts, ts[1..], ReadItem(env, ts).rest);
      }
    case TagOpen => JoinBalanced(env, ts, true, true);
    case _ => CompareBalanced(env, ts, true);
  }

  /** How many of the items that are read are named unions. */
  function UnionItems(env: Env, ts: Tokens): nat
    decreases |ts|
  {
    if TagOf(ts) != TagOpen then 0
    else
      var item := ReadItem(env, ts[1..]);
      if !item.Done? || !ConsumeClose(item.rest).Done? then 0
      else (if IsNamedUnion(env, ts[1..]) then 1 else 0) + UnionItems(env, item.rest[1..])
  }

  lemma FirstItemRead(env: Env, ts: Tokens)
    requires TagOf(ts) == TagOpen && ReadItems(env, ts).Done?
    ensures var item := ReadItem(env, ts[1..]);
            && item.Done? && ConsumeClose(item.rest).Done?
            && ReadItems(env, item.rest[1..]).Done? && ReadItems(env, ts).rest == ReadItems(env, item.rest[1..]).rest
            && UnionItems(env, ts) == (if IsNamedUnion(env, ts[1..]) then 1 else 0) + UnionItems(env, item.rest[1..])
  {
    hide ReadItem, IsNamedUnion;
  }

  lemma NoItemRead(env: Env, ts: Tokens)
    requires TagOf(ts) != TagOpen
    ensures ReadItems(env, ts) == Done([], ts) && UnionItems(env, ts) == 0
  {
  }

  lemma BracketDepth(ts: Tokens, extra: nat)
    requires ts != []
    ensures ts[0] == Open ==> Depth(ts, extra) == Depth(ts[1..], extra + 1)
    ensures ts[0] == Close ==> Depth(ts, extra + 1) == Depth(ts[1..], extra)
  {
  }

  lemma {:induction false} ItemsDepth(env: Env, ts: Tokens, extra: nat)
    requires ReadItems(env, ts).Done?
    ensures Depth(ts, extra) == Depth(ReadItems(env, ts).rest, extra + UnionItems(env, ts))
    decreases |ts|
  {
    hide ReadItem, Depth, IsNamedUnion, ReadItems, UnionItems;
    if TagOf(ts) != TagOpen {
      NoItemRead(env, ts);
    } else {
      FirstItemRead(env, ts);
      var item := ReadItem(env, ts[1..]);
      var inner := if IsNamedUnion(env, ts[1..]) then extra + 1 else extra;
      BracketDepth(ts, extra);
      ItemDepth(env, ts[1..], extra + 1);
      BracketDepth(item.rest, inner);
      ItemsDepth(env, item.rest[1..], inner);
    }
  }

  /** A balanced list of items with a named union anywhere among them is never accepted. */
  lemma UnionItemIsRejected(env: Env, ts: Tokens)
    requires Depth(ts, 0) == Some(0) && TagOf(ts) == TagOpen && TagOf(ts[1..]) != TagName && UnionItems(env, ts) > 0
    ensures ReadContent(env, ts) == Fail
  {
    if ReadItems(env, ts).Done? { ItemsDepth(env, ts, 0); }
  }

  // ---- all forms ----

  datatype Conds = Listed(cs: seq<Cond>) | One(c: Cond)

  datatype Item =
    | Single(c: Cond)
    | Group(cs: seq<Cond>)       // a list of conditions
    | Condition(what: Conds)     // conditions behind the name "condition"
    | PlainUnion(what: Conds)    // conditions behind the name "union"
    | NamedUnion(what: Conds)    // conditions behind both names

  function PrintList(cs: seq<Cond>): Tokens
  {
    if cs == [] then [] else [Open] + PrintCond(cs[0]) + [Close] + PrintList(cs[1..])
  }

  function PrintConds(what: Conds): Tokens
  {
    match what
    case Listed(cs) => PrintList(cs)
    case One(c) => PrintCond(c)
  }

  /** What stands between the brackets of an item. */
  function Body(item: Item): Tokens
  {
    match item
    case Single(c) => PrintCond(c)
    case Group(cs) => PrintList(cs)
    case Condition(what) => [Name("condition"), Open] + PrintConds(what) + [Close]
    case PlainUnion(what) => [Name("union"), Open] + PrintConds(what) + [Close]
    case NamedUnion(what) => [Name("union"), Open, Name("condition"), Open] + PrintConds(what) + [Close, Close]
  }

  function PrintItems(l: seq<Item>): Tokens
  {
    if l == [] then [] else [Open] + Body(l[0]) + [Close] + PrintItems(l[1..])
  }

  predicate AllClean(cs: seq<Cond>) { forall c :: c in cs ==> CleanCond(c) }

  function CondsOf(item: Item): seq<Cond>
  {
    match item
    case Single(c) => [c]
    case Group(cs) => cs
    case Condition(what) => ListOf(what)
    case PlainUnion(what) => ListOf(what)
    case NamedUnion(what) => ListOf(what)
  }

  function ListOf(what: Conds): seq<Cond> { if what.Listed? then what.cs else [what.c] }

  predicate CleanItems(l: seq<Item>) { forall item :: item in l ==> AllClean(CondsOf(item)) }

  ghost predicate AllComplete(cs: seq<Cond>) { forall c :: c in cs ==> Complete(c) }

  /** Only grouped conditions stand in one group: of them, the first begins it. */
  ghost predicate SayAll(cs: seq<Cond>, said: Comparisons, doGroup: bool, newGroup: bool)
  {
    && |said| == |cs|
    && forall i :: 0 <= i < |cs| ==> Says(cs[i], said[i]) && said[i].newGroup == (newGroup && (i == 0 || !doGroup))
  }

  /** What an accepted item is read as: its conditions, grouped only in a list without a name. */
  ghost predicate StandsFor(item: Item, said: Comparisons) { SayAll(CondsOf(item), said, item.Group?, true) }

  ghost predicate AllStandFor(l: seq<Item>, said: Comparisons)
    decreases l
  {
    if l == [] then said == []
    else
      var n := |CondsOf(l[0])|;
      n <= |said| && StandsFor(l[0], said[..n]) && AllStandFor(l[1..], said[n..])
  }

  predicate BeginsWithName(item: Item)
  {
    match item
    case Single(c) => c.ByNames? && c.members != []
    case Group(_) => false
    case _ => true
  }

  /** Items with complete conditions, except named unions and unions of one condition with names. */
  ghost predicate Acceptable(item: Item)
  {
    && CondsOf(item) != [] && AllComplete(CondsOf(item)) && !item.NamedUnion?
    && (item.PlainUnion? && item.what.One? ==> item.what.c.ByValues?)
  }

  ghost predicate AllAcceptable(l: seq<Item>) { forall item :: item in l ==> Acceptable(item) }

  lemma JoinUnfolds(env: Env, body: Tokens, more: Tokens, doGroup: bool, newGroup: bool)
    ensures ReadJoin(env, [Open] + (body + ([Close] + more)), doGroup, newGroup)
         == var c := ReadCompare(env, body + ([Close] + more), newGroup);
            if !c.Done? || !ConsumeClose(c.rest).Done? then Fail
            else
              match ReadJoin(env, c.rest[1..], doGroup, newGroup && !doGroup)
              case Done(cs, rest) => Done([c.value] + cs, rest)
              case _ => Fail
  {
    hide ReadCompare;
    var ts := [Open] + (body + ([Close] + more));
    assert ts[1..] == body + ([Close] + more);
  }

  lemma ListUnfolds(cs: seq<Cond>, rest: Tokens)
    requires cs != []
    ensures PrintList(cs) + rest == [Open] + (PrintCond(cs[0]) + ([Close] + (PrintList(cs[1..]) + rest)))
  {
    hide PrintCond;
  }

  lemma SayFirst(cs: seq<Cond>, first: Comparison<Value>, more: Comparisons, doGroup: bool, newGroup: bool)
    requires cs != [] && Says(cs[0], first) && first.newGroup == newGroup
    requires SayAll(cs[1..], more, doGroup, newGroup && !doGroup)
    ensures SayAll(cs, [first] + more, doGroup, newGroup)
  {
    hide Says;
    forall i | 0 < i < |cs|
      ensures Says(cs[i], ([first] + more)[i]) && more[i - 1].newGroup == (newGroup && !doGroup)
    {
      assert cs[1..][i - 1] == cs[i];
    }
  }

  /** Conditions in brackets are read exactly if all of them are complete. */
  lemma {:induction false} ListRead(env: Env, cs: seq<Cond>, rest: Tokens, doGroup: bool, newGroup: bool)
    requires FaithfulEnv(env) && AllClean(cs) && TagOf(rest) == TagClose
    ensures var r := ReadJoin(env, PrintList(cs) + rest, doGroup, newGroup);
            && (r.Done? <==> AllComplete(cs))
            && (r.Done? ==> r.rest == rest && SayAll(cs, r.value, doGroup, newGroup))
    ensures TagOf(PrintList(cs) + rest) == if cs == [] then TagClose else TagOpen
    decreases cs
  {
    hide FaithfulEnv, ReadCompare, ReadJoin, PrintList, PrintCond, SayAll, Says, Complete, CleanCond;
    if cs == [] {
      EmptyListRead(env, rest, doGroup, newGroup);
    } else {
      var more := PrintList(cs[1..]) + rest;
      ListUnfolds(cs, rest);
      JoinUnfolds(env, PrintCond(cs[0]), more, doGroup, newGroup);
      CondRead(env, cs[0], [Close] + more, newGroup);
      assert ([Close] + more)[1..] == more;
      ListRead(env, cs[1..], rest, doGroup, newGroup && !doGroup);
      assert forall c :: c in cs <==> c == cs[0] || c in cs[1..];
      var first, others := ReadCompare(env, PrintCond(cs[0]) + ([Close] + more), newGroup),
                           ReadJoin(env, more, doGroup, newGroup && !doGroup);
      if first.Done? && others.Done? { SayFirst(cs, first.value, others.value, doGroup, newGroup); }
    }
  }

  lemma EmptyListRead(env: Env, rest: Tokens, doGroup: bool, newGroup: bool)
    requires TagOf(rest) == TagClose
    ensures ReadJoin(env, PrintList([]) + rest, doGroup, newGroup) == Done([], rest) && PrintList([]) + rest == rest
    ensures SayAll([], [], doGroup, newGroup)
  {
    Unit(rest);
  }

  lemma CondTag(c: Cond, rest: Tokens)
    requires TagOf(rest) == TagClose
    ensures TagOf(PrintCond(c) + rest)
         == if c.ByValues? then TagValue else if c.members != [] then TagName else TagClose
  {
    if c.ByNames? && c.members == [] { Unit(rest); }
  }

  /** Conditions in one pair of brackets. */
  lemma StructRead(env: Env, what: Conds, rest: Tokens, doGroup: bool)
    requires FaithfulEnv(env) && AllClean(ListOf(what))
    ensures var r := ReadJoinStruct(env, [Open] + PrintConds(what) + [Close] + rest, doGroup);
            && (r.Done? <==> ListOf(what) != [] && AllComplete(ListOf(what)))
            && (r.Done? ==> r.rest == rest && SayAll(ListOf(what), r.value, doGroup && what.Listed?, true))
  {
    hide FaithfulEnv, ReadCompare, ReadJoin, PrintList, PrintCond, Says, Complete, CleanCond;
    var ts, behind := [Open] + PrintConds(what) + [Close] + rest, [Close] + rest;
    assert ts[1..] == PrintConds(what) + behind && behind[1..] == rest;
    match what
    case Listed(cs) =>
      ListRead(env, cs, behind, doGroup, true);
      if cs == [] { NothingRead(env, behind); }
    case One(c) =>
      CondRead(env, c, behind, true);
      CondTag(c, behind);
  }

  lemma NothingRead(env: Env, rest: Tokens)
    requires TagOf(rest) == TagClose
    ensures ReadCompare(env, PrintList([]) + rest, true) == Fail
  {
    Unit(rest);
  }

  lemma NamedStructIs(env: Env, ts: Tokens)
    requires TagOf(ts) == TagName && 0 <= env.index(RestrictionNames, ts[0].name) < 2 && TagOf(ts[1..]) == TagOpen
    requires env.index(RestrictionNames, ts[0].name) == 0 ==> TagOf(ts[2..]) != TagName
    ensures ReadNamed(env, ts) == ReadJoinStruct(env, ts[1..], false)
  {
    hide ReadJoinStruct;
  }

  lemma NamedUnionIs(env: Env, ts: Tokens)
    requires IsNamedUnion(env, ts)
    ensures ReadNamed(env, ts) == if ts[2].name == "condition" then ReadJoinStruct(env, ts[3..], true) else Fail
  {
    hide ReadJoinStruct;
  }

  lemma ConditionRead(env: Env, what: Conds, rest: Tokens)
    requires FaithfulEnv(env) && AllClean(ListOf(what))
    ensures var ts := Body(Condition(what)) + rest;
            var r := ReadNamed(env, ts);
            && TagOf(ts) == TagName
            && (r.Done? <==> Acceptable(Condition(what)))
            && (r.Done? ==> r.rest == rest && StandsFor(Condition(what), r.value))
  {
    hide FaithfulEnv, ReadJoinStruct, PrintConds, ReadNamed, SayAll, AllComplete, AllClean;
    Keyword(env, RestrictionNames, 1);
    var ts := Body(Condition(what)) + rest;
    StructRead(env, what, rest, false);
    assert ts[1..] == [Open] + PrintConds(what) + [Close] + rest;
    NamedStructIs(env, ts);
  }

  /** Behind "union", a condition with names is taken for a named list. */
  lemma PlainUnionRead(env: Env, what: Conds, rest: Tokens)
    requires FaithfulEnv(env) && AllClean(ListOf(what))
    ensures var ts := Body(PlainUnion(what)) + rest;
            var r := ReadNamed(env, ts);
            && TagOf(ts) == TagName
            && (r.Done? <==> Acceptable(PlainUnion(what)))
            && (r.Done? ==> r.rest == rest && StandsFor(PlainUnion(what), r.value))
  {
    hide FaithfulEnv, ReadJoinStruct, PrintConds, ReadNamed, SayAll, AllComplete, AllClean;
    Keyword(env, RestrictionNames, 0);
    var ts, behind := Body(PlainUnion(what)) + rest, [Close] + rest;
    assert ts[1..] == [Open] + PrintConds(what) + [Close] + rest && ts[2..] == PrintConds(what) + behind;
    StructRead(env, what, rest, false);
    FirstOfConds(what, behind);
    if what.One? && what.c.ByNames? && what.c.members != [] {
      assert ts[2] == ts[2..][0];
      NamedUnionIs(env, ts);
    } else {
      NamedStructIs(env, ts);
      if what.One? && what.c.ByNames? { EmptyIsIncomplete(what.c); }
    }
  }

  lemma EmptyIsIncomplete(c: Cond)
    requires c == ByNames([])
    ensures !AllComplete([c])
  {
    assert c in [c] && !Complete(c);
  }

  /** Only a condition with names begins with a name, and that is not "condition". */
  lemma FirstOfConds(what: Conds, rest: Tokens)
    requires TagOf(rest) == TagClose
    ensures var ts := PrintConds(what) + rest;
            if what.One? && what.c.ByNames? && what.c.members != []
            then TagOf(ts) == TagName && ts[0].name != "condition"
            else TagOf(ts) != TagName
  {
    if what.Listed? && what.cs == [] { Unit(rest); }
    if what.One? { CondTag(what.c, rest); }
  }

  lemma NamedUnionRead(env: Env, what: Conds, rest: Tokens)
    requires FaithfulEnv(env) && AllClean(ListOf(what))
    ensures var ts := Body(NamedUnion(what)) + rest;
            && TagOf(ts) == TagName
            && (ReadNamed(env, ts).Done? ==> ReadNamed(env, ts).rest == [Close] + rest)
  {
    hide FaithfulEnv, ReadJoinStruct, PrintConds, ReadNamed, SayAll, AllComplete, AllClean;
    Keyword(env, RestrictionNames, 0);
    var ts := Body(NamedUnion(what)) + rest;
    StructRead(env, what, [Close] + rest, true);
    assert ts[3..] == [Open] + PrintConds(what) + [Close] + ([Close] + rest);
    NamedUnionIs(env, ts);
  }

  /** Operator, name and value are no names of lists. */
  lemma MemberIsCompared(env: Env, c: Cond, rest: Tokens)
    requires FaithfulEnv(env) && c.ByNames? && c.members != []
    ensures var ts := PrintCond(c) + rest;
            && TagOf(ts) == TagName
            && ReadNamed(env, ts) == match ReadCompare(env, ts, true)
                                     case Done(d, end) => Done([d], end)
                                     case _ => Fail
  {
    hide FaithfulEnv, ReadCompare, ReadJoinStruct;
    Keyword(env, RestrictionNames, 2);
    Keyword(env, RestrictionNames, 3);
    Keyword(env, RestrictionNames, 4);
    var ts, x := PrintCond(c) + rest, c.members[0];
    assert ts[0] == PrintMember(x)[0];
  }

  lemma SingleRead(env: Env, c: Cond, rest: Tokens)
    requires FaithfulEnv(env) && CleanCond(c) && TagOf(rest) == TagClose
    ensures var r := ReadItem(env, PrintCond(c) + rest);
            && (r.Done? <==> Acceptable(Single(c)))
            && (r.Done? ==> r.rest == rest && StandsFor(Single(c), r.value))
    ensures TagOf(PrintCond(c) + rest) != TagOpen
    ensures TagOf(PrintCond(c) + rest) == TagName <==> BeginsWithName(Single(c))
  {
    hide FaithfulEnv, ReadCompare, PrintCond, Says, Complete, CleanCond, ReadNamed;
    CondRead(env, c, rest, true);
    CondTag(c, rest);
    assert AllComplete([c]) <==> Complete(c) by { assert c in [c]; }
    if BeginsWithName(Single(c)) { MemberIsCompared(env, c, rest); }
  }

  lemma GroupRead(env: Env, cs: seq<Cond>, rest: Tokens)
    requires FaithfulEnv(env) && AllClean(cs) && TagOf(rest) == TagClose
    ensures var r := ReadItem(env, PrintList(cs) + rest);
            && (r.Done? <==> Acceptable(Group(cs)))
            && (r.Done? ==> r.rest == rest && StandsFor(Group(cs), r.value))
    ensures TagOf(PrintList(cs) + rest) != TagName
  {
    hide FaithfulEnv, ReadCompare, ReadJoin, PrintList, SayAll, AllComplete;
    ListRead(env, cs, rest, true, true);
    if cs == [] { NothingRead(env, rest); }
  }

  /** An item in front of a closing bracket: it is read exactly if it is acceptable, but a named union may be read and
      leaves a bracket of its own. */
  lemma ItemRead(env: Env, item: Item, more: Tokens)
    requires FaithfulEnv(env) && AllClean(CondsOf(item))
    ensures var r := ReadItem(env, Body(item) + ([Close] + more));
            if item.NamedUnion? then r.Done? ==> r.rest == [Close] + ([Close] + more)
            else && (r.Done? <==> Acceptable(item))
                 && (r.Done? ==> r.rest == [Close] + more && StandsFor(item, r.value))
    ensures TagOf(Body(item) + ([Close] + more)) == TagName <==> BeginsWithName(item)
    ensures item.NamedUnion? ==> !Acceptable(item)
  {
    hide FaithfulEnv, ReadNamed, ReadJoin, PrintCond, PrintList, PrintConds, AllComplete, SayAll;
    var rest := [Close] + more;
    match item
    case Single(c) =>
      assert c in CondsOf(item);
      SingleRead(env, c, rest);
    case Group(cs) => GroupRead(env, cs, rest);
    case Condition(what) => ConditionRead(env, what, rest);
    case PlainUnion(what) => PlainUnionRead(env, what, rest);
    case NamedUnion(what) => NamedUnionRead(env, what, rest);
  }

  lemma FirstItem(l: seq<Item>)
    requires l != []
    ensures var more := PrintItems(l[1..]);
            && PrintItems(l) != [] && PrintItems(l)[0] == Open && PrintItems(l)[1..] == Body(l[0]) + ([Close] + more)
            && ([Close] + more)[1..] == more
  {
    hide Body;
    assert PrintItems(l) == [Open] + (Body(l[0]) + ([Close] + PrintItems(l[1..])));
  }

  lemma ItemsUnfold(env: Env, ts: Tokens)
    requires TagOf(ts) == TagOpen
    ensures ReadItems(env, ts)
         == var item := ReadItem(env, ts[1..]);
            if !item.Done? || !ConsumeClose(item.rest).Done? then Fail
            else
              match ReadItems(env, item.rest[1..])
              case Done(cs, rest) => Done(item.value + cs, rest)
              case _ => Fail
  {
    hide ReadItem;
  }

  lemma NoItems(env: Env, ts: Tokens)
    requires TagOf(ts) != TagOpen
    ensures ReadItems(env, ts) == Done([], ts)
  {
  }

  lemma StandFirst(l: seq<Item>, first: Comparisons, more: Comparisons)
    requires l != [] && StandsFor(l[0], first) && AllStandFor(l[1..], more)
    ensures AllStandFor(l, first + more)
  {
    var n := |CondsOf(l[0])|;
    assert |first| == n && (first + more)[..n] == first && (first + more)[n..] == more;
  }

  /** In a list of items. */
  lemma {:induction false} ItemsRead(env: Env, l: seq<Item>)
    requires FaithfulEnv(env) && CleanItems(l)
    ensures var r := ReadItems(env, PrintItems(l));
            && (r.Done? && r.rest == [] <==> AllAcceptable(l))
            && (AllAcceptable(l) ==> AllStandFor(l, r.value))
    decreases l
  {
    hide FaithfulEnv, ReadItem, ReadItems, Body, Acceptable, PrintItems, StandsFor, AllClean, AllStandFor;
    if l == [] {
      EmptyItems(env);
    } else {
      var more := PrintItems(l[1..]);
      FirstItem(l);
      assert l[0] in l;
      ItemRead(env, l[0], more);
      ItemsUnfold(env, PrintItems(l));
      assert forall item :: item in l <==> item == l[0] || item in l[1..];
      ItemsRead(env, l[1..]);
      var first := ReadItem(env, Body(l[0]) + ([Close] + more));
      if l[0].NamedUnion? {
        assert ([Close] + ([Close] + more))[1..] == [Close] + more;
        NoItems(env, [Close] + more);
      } else if AllAcceptable(l) {
        StandFirst(l, first.value, ReadItems(env, more).value);
      }
    }
  }

  lemma EmptyItems(env: Env)
    ensures ReadItems(env, PrintItems([])) == Done([], []) && AllStandFor([], [])
  {
  }

  /** Exactly which lists of items are accepted as restriction, and as which groups: those that do not begin with a
      named item, in which every item has complete conditions, none is a named union, and none a union of one
      condition with names. */
  lemma ListsAccepted(env: Env, l: seq<Item>)
    requires FaithfulEnv(env) && l != [] && CleanItems(l)
    ensures var r := ReadContent(env, PrintItems(l));
            && (r.Done? <==> !BeginsWithName(l[0]) && AllAcceptable(l))
            && (r.Done? ==> AllStandFor(l, r.value))
  {
    hide FaithfulEnv, Body, Acceptable, ReadItems, PrintItems, ReadNamed, AllClean, AllStandFor, StandsFor;
    var more, ts := PrintItems(l[1..]), PrintItems(l);
    FirstItem(l);
    ItemsRead(env, l);
    assert l[0] in l;
    ItemRead(env, l[0], more);
    if BeginsWithName(l[0]) {
      var r := ReadNamed(env, ts[1..]);
      NamedItemIs(env, ts[1..]);
      assert r.Done? ==> r.rest != [];
    }
  }

  lemma NamedItemIs(env: Env, ts: Tokens)
    requires TagOf(ts) == TagName
    ensures ReadItem(env, ts) == ReadNamed(env, ts)
  {
  }

  /** An item without brackets as whole restriction is accepted exactly if it is a named or a single one, and
      acceptable; a named list in a union never is. */
  lemma NamedAccepted(env: Env, item: Item)
    requires FaithfulEnv(env) && AllClean(CondsOf(item)) && (item.Single? || BeginsWithName(item)) && Body(item) != []
    ensures var r := ReadContent(env, Body(item));
            && (r.Done? <==> Acceptable(item))
            && (r.Done? ==> StandsFor(item, r.value))
  {
    hide FaithfulEnv, ReadNamed, PrintCond, PrintConds, AllComplete, SayAll, ReadCompare;
    Unit(Body(item));
    match item
    case Single(c) =>
      assert c in CondsOf(item);
      SingleRead(env, c, []);
      if BeginsWithName(item) { NamedItemIs(env, Body(item)); }
    case Condition(what) => ConditionRead(env, what, []);
    case PlainUnion(what) => PlainUnionRead(env, what, []);
    case NamedUnion(what) => NamedUnionRead(env, what, []);
    case Group(_) =>
  }
}
