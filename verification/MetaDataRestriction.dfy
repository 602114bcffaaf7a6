/** Meta data restrictions: how they are read, turned into postfix code, collected from it and printed. */
module MetaDataRestriction {
  import opened Wrappers
  import opened Serialization
  import SNM = StructureNameMap

  datatype CompareOp = Less | LessEqual | Equal | NotEqual | Greater | GreaterEqual

  function PrintOp(op: CompareOp): string
  {
    match op
    case Less => "<"
    case LessEqual => "<="
    case Equal => "=="
    case NotEqual => "!="
    case Greater => ">"
    case GreaterEqual => ">="
  }

  /** Characters of a zero-terminated string. */
  function At(s: string, i: nat): char { if i < |s| then s[i] else '\0' }

  function ParseOp(s: string): Option<CompareOp>
  {
    var a, b := At(s, 0), At(s, 1);
    if a == '<' then
      if b == '=' && At(s, 2) == '\0' then Some(LessEqual) else if b == '\0' then Some(Less) else None
    else if a == '>' then
      if b == '=' && At(s, 2) == '\0' then Some(GreaterEqual) else if b == '\0' then Some(Greater) else None
    else if a == '!' then
      if b == '=' && At(s, 2) == '\0' then Some(NotEqual) else None
    else if a == '=' then
      if b == '=' && At(s, 2) == '\0' then Some(Equal) else if b == '\0' then Some(Equal) else None
    else if a == 'g' then
      if b == 't' && At(s, 2) == '\0' then Some(Greater)
      else if b == 'e' && At(s, 2) == '\0' then Some(GreaterEqual)
      else None
    else if a == 'l' then
      if b == 't' && At(s, 2) == '\0' then Some(Less)
      else if b == 'e' && At(s, 2) == '\0' then Some(LessEqual)
      else None
    else if a == 'e' && b == 'q' && At(s, 2) == '\0' then Some(Equal)
    else if a == 'n' && b == 'e' && At(s, 2) == '\0' then Some(NotEqual)
    else None
  }

  /** A condition of a restriction; it opens a new group or widens the group of the one before it. */
  datatype Comparison<V> = Comparison(op: CompareOp, name: string, value: V, newGroup: bool)

  // ---- reading ----

  datatype Table = RestrictionNames | CompareNames

  function Names(t: Table): seq<string>
  {
    match t
    case RestrictionNames => ["union", "condition", "op", "name", "value"]
    case CompareNames => ["op", "name", "value"]
  }

  datatype Env = Env(cv: Conversions, index: (Table, string) -> int)

  ghost predicate FaithfulEnv(env: Env)
  {
    Faithful(env.cv) && forall t, name :: env.index(t, name) == SNM.Index(SNM.Join(Names(t), ','), ',', name)
  }

  datatype Members = Members(op: Option<CompareOp>, name: Option<string>, value: Option<Value>)

  /** A compare operator is taken from a value or from a name. */
  function ReadOp(env: Env, ts: Tokens): (r: Outcome<CompareOp>)
    ensures r.Done? ==> ts != [] && r.rest == ts[1..] && (ts[0].Val? || ts[0].Name?)
    ensures !r.Stuck?
  {
    var text := match TagOf(ts)
                case TagValue => env.cv.text(ts[0].v)
                case TagName => Some(ts[0].name)
                case _ => None;
    if text.Some? && ParseOp(text.value).Some? then Done(ParseOp(text.value).value, ts[1..]) else Fail
  }

  function CompareMembers(env: Env, ts: Tokens, m: Members): (r: Outcome<Members>)
    ensures r.Done? ==> |r.rest| <= |ts|
    ensures !r.Stuck?
    decreases |ts|
  {
    if TagOf(ts) != TagName then Done(m, ts)
    else
      var idx := env.index(CompareNames, ts[0].name);
      if idx == 0 then
        var op := ReadOp(env, ts[1..]);
        if m.op.None? && op.Done? then CompareMembers(env, op.rest, m.(op := Some(op.value))) else Fail
      else if idx == 1 then
        var name := GetText(env.cv, ts[1..]);
        if m.name.None? && name.Done? then CompareMembers(env, name.rest, m.(name := Some(name.value))) else Fail
      else if idx == 2 then
        if m.value.None? && TagOf(ts[1..]) == TagValue
        then CompareMembers(env, ts[2..], m.(value := Some(ts[1].v))) else Fail
      else Fail
  }

  /** One condition; the group flag is given. */
  function ReadCompare(env: Env, ts: Tokens, newGroup: bool): (r: Outcome<Comparison<Value>>)
    ensures r.Done? ==> |r.rest| <= |ts| && r.value.newGroup == newGroup
    ensures !r.Stuck?
  {
    if TagOf(ts) == TagValue then
      var op := ReadOp(env, ts);
      if !op.Done? then Fail
      else
        var name := GetText(env.cv, op.rest);
        if !name.Done? || TagOf(name.rest) != TagValue then Fail
        else Done(Comparison(op.value, name.value, name.rest[0].v, newGroup), name.rest[1..])
    else
      var m := CompareMembers(env, ts, Members(None, None, None));
      if m.Done? && m.value.op.Some? && m.value.name.Some? && m.value.value.Some?
      then Done(Comparison(m.value.op.value, m.value.name.value, m.value.value.value, newGroup), m.rest)
      else Fail
  }

  type Comparisons = seq<Comparison<Value>>

  /** Bracketed conditions as long as a bracket opens; with doGroup they form one group. */
  function ReadJoin(env: Env, ts: Tokens, doGroup: bool, newGroup: bool): (r: Outcome<Comparisons>)
    ensures r.Done? ==> |r.rest| <= |ts|
    ensures !r.Stuck?
    decreases |ts|
  {
    if TagOf(ts) != TagOpen then Done([], ts)
    else
      var c := ReadCompare(env, ts[1..], newGroup);
      if !c.Done? || !ConsumeClose(c.rest).Done? then Fail
      else
        match ReadJoin(env, c.rest[1..], doGroup, newGroup && !doGroup)
        case Done(cs, rest) => Done([c.value] + cs, rest)
        case _ => Fail
  }

  function ReadJoinStruct(env: Env, ts: Tokens, doGroup: bool): (r: Outcome<Comparisons>)
    ensures r.Done? ==> |r.rest| <= |ts|
    ensures !r.Stuck?
  {
    if TagOf(ts) != TagOpen then Fail
    else
      var r := if TagOf(ts[1..]) == TagOpen then ReadJoin(env, ts[1..], doGroup, true)
               else match ReadCompare(env, ts[1..], true)
                    case Done(c, rest) => Done([c], rest)
                    case _ => Fail;
      if r.Done? && ConsumeClose(r.rest).Done? then Done(r.value, r.rest[1..]) else Fail
  }

  /** A union or a condition with its name, or a condition with named members. */
  function ReadNamed(env: Env, ts: Tokens): (r: Outcome<Comparisons>)
    requires TagOf(ts) == TagName
    ensures r.Done? ==> |r.rest| <= |ts|
    ensures !r.Stuck?
  {
    var idx := env.index(RestrictionNames, ts[0].name);
    if idx < 0 then Fail
    else if idx >= 2 then
      match ReadCompare(env, ts, true)
      case Done(c, rest) => Done([c], rest)
      case _ => Fail
    else if TagOf(ts[1..]) != TagOpen then Fail
    else if idx == 0 && TagOf(ts[2..]) == TagName then
      if ts[2].name == "condition" then ReadJoinStruct(env, ts[3..], true) else Fail
    else ReadJoinStruct(env, ts[1..], false)
  }

  /** What stands between a pair of brackets. */
  function ReadItem(env: Env, ts: Tokens): (r: Outcome<Comparisons>)
    ensures r.Done? ==> |r.rest| <= |ts|
    ensures !r.Stuck?
  {
    match TagOf(ts)
    case TagName => ReadNamed(env, ts)
    case TagOpen => ReadJoin(env, ts, true, true)
    case _ =>
      match ReadCompare(env, ts, true)
      case Done(c, rest) => Done([c], rest)
      case _ => Fail
  }

  function ReadItems(env: Env, ts: Tokens): (r: Outcome<Comparisons>)
    ensures r.Done? ==> |r.rest| <= |ts|
    ensures !r.Stuck?
    decreases |ts|
  {
    if TagOf(ts) != TagOpen then Done([], ts)
    else
      var item := ReadItem(env, ts[1..]);
      if !item.Done? || !ConsumeClose(item.rest).Done? then Fail
      else
        match ReadItems(env, item.rest[1..])
        case Done(cs, rest) => Done(item.value + cs, rest)
        case _ => Fail
  }

  function ReadRestriction(env: Env, ts: Tokens): (r: Outcome<Comparisons>)
    ensures !r.Stuck?
  {
    match TagOf(ts)
    case TagName => ReadNamed(env, ts)
    case TagOpen => if TagOf(ts[1..]) == TagName then ReadNamed(env, ts[1..]) else ReadItems(env, ts)
    case _ => if ts == [] then Done([], ts) else ReadItem(env, ts)
  }

  /** A whole serialization as restriction. */
  function ReadContent(env: Env, ts: Tokens): Outcome<Comparisons>
  {
    var r := ReadRestriction(env, ts);
    if r.Done? && r.rest != [] then Fail else r
  }

  // ---- named unions ----

  lemma {:induction false} MembersBalanced(env: Env, ts: Tokens, m: Members)
    ensures var r := CompareMembers(env, ts, m); r.Done? ==> Leaves(ts, r.rest)
    decreases |ts|
  {
    var r := CompareMembers(env, ts, m);
    if r.Done? && TagOf(ts) == TagName {
      LeavesTwo(ts);
      assert ts[1..][1..] == ts[2..];
      var idx := env.index(CompareNames, ts[0].name);
      var n := if idx == 0 then m.(op := Some(ReadOp(env, ts[1..]).value))
               else if idx == 1 then m.(name := Some(GetText(env.cv, ts[1..]).value))
               else m.(value := Some(ts[1].v));
      MembersBalanced(env, ts[2..], n);
      LeavesTrans(ts, ts[2..], r.rest);
    }
  }

  lemma CompareBalanced(env: Env, ts: Tokens, newGroup: bool)
    ensures var r := ReadCompare(env, ts, newGroup); r.Done? ==> Leaves(ts, r.rest)
  {
    var r := ReadCompare(env, ts, newGroup);
    if r.Done? {
      if TagOf(ts) == TagValue {
        LeavesTwo(ts);
        var name := GetText(env.cv, ReadOp(env, ts).rest);
        LeavesOne(name.rest);
        LeavesTrans(ts, name.rest, r.rest);
      } else {
        MembersBalanced(env, ts, Members(None, None, None));
      }
    }
  }

  lemma {:induction false} JoinBalanced(env: Env, ts: Tokens, doGroup: bool, newGroup: bool)
    ensures var r := ReadJoin(env, ts, doGroup, newGroup); r.Done? ==> Leaves(ts, r.rest)
    decreases |ts|
  {
    var r := ReadJoin(env, ts, doGroup, newGroup);
    if r.Done? && TagOf(ts) == TagOpen {
      var c := ReadCompare(env, ts[1..], newGroup);
      CompareBalanced(env, ts[1..], newGroup);
      LeavesBracket(ts, c.rest);
      JoinBalanced(env, c.rest[1..], doGroup, newGroup && !doGroup);
      LeavesTrans(ts, c.rest[1..], r.rest);
    }
  }

  lemma JoinStructBalanced(env: Env, ts: Tokens, doGroup: bool)
    ensures var r := ReadJoinStruct(env, ts, doGroup); r.Done? ==> Leaves(ts, r.rest)
  {
    if ReadJoinStruct(env, ts, doGroup).Done? {
      if TagOf(ts[1..]) == TagOpen {
        JoinBalanced(env, ts[1..], doGroup, true);
        LeavesBracket(ts, ReadJoin(env, ts[1..], doGroup, true).rest);
      } else {
        CompareBalanced(env, ts[1..], true);
        LeavesBracket(ts, ReadCompare(env, ts[1..], true).rest);
      }
    }
  }

  /** Reaching the end from a nesting depth means that the brackets close exactly there. */
  lemma {:induction false} ReachedEnd(ts: Tokens, depth: nat, extra: nat)
    requires Reaches(ts, depth, [])
    ensures Depth(ts, depth + extra) == Some(extra)
    decreases |ts|
  {
    if !(depth == 0 && ts == []) {
      match ts[0]
      case Open => ReachedEnd(ts[1..], depth + 1, extra);
      case Close => ReachedEnd(ts[1..], depth - 1, extra);
      case _ => ReachedEnd(ts[1..], depth, extra);
    }
  }

  lemma UnionName(env: Env)
    requires FaithfulEnv(env)
    ensures env.index(RestrictionNames, "union") == 0
  {
    var names := Names(RestrictionNames);
    assert names[0] == "union" && SNM.IsTable(names, ',');
    SNM.IndexOfName(names, ',', 0);
  }

  /** Whether a named structure is a union whose conditions have a name, too. */
  predicate IsNamedUnion(env: Env, ts: Tokens)
  {
    && TagOf(ts) == TagName && env.index(RestrictionNames, ts[0].name) == 0
    && TagOf(ts[1..]) == TagOpen && TagOf(ts[2..]) == TagName
  }

  /** A named structure that is read to the very end closes the brackets that it opens, except a named union, which
      leaves one open. */
  lemma NamedDepth(env: Env, ts: Tokens, extra: nat)
    requires TagOf(ts) == TagName && ReadNamed(env, ts).Done? && ReadNamed(env, ts).rest == []
    ensures Depth(ts, extra) == Some(if IsNamedUnion(env, ts) then extra + 1 else extra)
  {
    var idx := env.index(RestrictionNames, ts[0].name);
    if idx >= 2 {
      CompareBalanced(env, ts, true);
      ReachedEnd(ts, 0, extra);
    } else if IsNamedUnion(env, ts) {
      JoinStructBalanced(env, ts[3..], true);
      ReachedEnd(ts[3..], 0, extra + 1);
      assert ts[1..][1..] == ts[2..] && ts[2..][1..] == ts[3..];
      assert Depth(ts, extra) == Depth(ts[1..], extra) == Depth(ts[2..], extra + 1) == Depth(ts[3..], extra + 1);
    } else {
      JoinStructBalanced(env, ts[1..], false);
      ReachedEnd(ts[1..], 0, extra);
    }
  }

  /** A restriction that is a named structure in brackets is never accepted: nothing reads its closing bracket. */
  lemma BracketedNameIsRejected(env: Env, ts: Tokens)
    requires Depth(ts, 0) == Some(0) && TagOf(ts) == TagOpen && TagOf(ts[1..]) == TagName
    ensures ReadContent(env, ts) == Fail
  {
    var r := ReadNamed(env, ts[1..]);
    if r.Done? && r.rest == [] { NamedDepth(env, ts[1..], 1); }
  }

  /** Neither is a union with a named condition list, for the same reason. */
  lemma NamedUnionIsRejected(env: Env, ts: Tokens)
    requires Depth(ts, 0) == Some(0) && IsNamedUnion(env, ts)
    ensures ReadContent(env, ts) == Fail
  {
    var r := ReadNamed(env, ts);
    if r.Done? && r.rest == [] { NamedDepth(env, ts, 0); }
  }

  lemma NamedUnionExample(env: Env, conditions: Tokens)
    requires FaithfulEnv(env) && Depth([Name("union"), Open, Name("condition")] + conditions, 0) == Some(0)
    ensures ReadContent(env, [Name("union"), Open, Name("condition")] + conditions) == Fail
  {
    UnionName(env);
    NamedUnionIsRejected(env, [Name("union"), Open, Name("condition")] + conditions);
  }

  /** Only a grouping reader widens a group, and only behind its first condition. */
  lemma {:induction false} JoinFlags(env: Env, ts: Tokens, doGroup: bool, newGroup: bool)
    requires ReadJoin(env, ts, doGroup, newGroup).Done?
    ensures var cs := ReadJoin(env, ts, doGroup, newGroup).value;
            forall i :: 0 <= i < |cs| ==> cs[i].newGroup == (newGroup && (i == 0 || !doGroup))
    decreases |ts|
  {
    if TagOf(ts) == TagOpen {
      JoinFlags(env, ReadCompare(env, ts[1..], newGroup).rest[1..], doGroup, newGroup && !doGroup);
    }
  }

  /** A union whose conditions are a plain list is no union: it is read with every condition as a group of its own. */
  lemma PlainUnionIsConjunction(env: Env, ts: Tokens)
    requires TagOf(ts) == TagName && !IsNamedUnion(env, ts) && ReadNamed(env, ts).Done?
    ensures forall c :: c in ReadNamed(env, ts).value ==> c.newGroup
  {
    var idx := env.index(RestrictionNames, ts[0].name);
    if idx < 2 && TagOf(ts[1..][1..]) == TagOpen { JoinFlags(env, ts[1..][1..], false, true); }
  }
}
