/** Restrictions as postfix code: written, collected as a conjunction of groups, and printed. */
module MetaDataExpression {
  import opened Wrappers
  import opened Serialization
  import opened MetaDataRestriction

  datatype Instruction =
    | Term(name: string, text: string)
    | Compare(op: CompareOp)
    | Boolean(isOr: bool, nofOperands: nat)

  type Program = seq<Instruction>

  datatype Error = TypeError | NofArgsError

  /** A condition without its place in the restriction. */
  datatype Condition = Condition(op: CompareOp, name: string, text: string)

  type Group = g: seq<Condition> | |g| > 0 witness [Condition(Less, "", "")]

  function Flag(c: Condition, newGroup: bool): Comparison<string>
  {
    Comparison(c.op, c.name, c.text, newGroup)
  }

  /** A group as conditions of which only the first opens a group. */
  function Flagged(g: seq<Condition>): (r: seq<Comparison<string>>)
    ensures |r| == |g|
  {
    seq(|g|, i requires 0 <= i < |g| => Flag(g[i], i == 0))
  }

  function AllFlagged(groups: seq<Group>): seq<Comparison<string>>
  {
    if groups == [] then [] else Flagged(groups[0]) + AllFlagged(groups[1..])
  }

  // ---- the writer ----

  function CodeOf(c: Condition): Program
  {
    [Term(c.name, c.text), Compare(c.op)]
  }

  function CodesOf(g: seq<Condition>): Program
  {
    if g == [] then [] else CodeOf(g[0]) + CodesOf(g[1..])
  }

  function GroupCode(g: seq<Condition>): Program
  {
    CodesOf(g) + if |g| > 1 then [Boolean(true, |g|)] else []
  }

  /** The code of a restriction: group after group, those with more than one condition joined by an OR. */
  function Code(groups: seq<Group>): Program
  {
    if groups == [] then [] else GroupCode(groups[0]) + Code(groups[1..])
  }

  datatype WriterState = WriterState(program: Program, termc: nat)

  function Added(st: WriterState, c: Comparison<string>): WriterState
  {
    var closed := if c.newGroup && st.termc > 1 then st.program + [Boolean(true, st.termc)] else st.program;
    WriterState(closed + [Term(c.name, c.value), Compare(c.op)], if c.newGroup then 1 else st.termc + 1)
  }

  function Finished(st: WriterState): WriterState
  {
    if st.termc > 1 then WriterState(st.program + [Boolean(true, st.termc)], 0) else st
  }

  function AddedAll(st: WriterState, cs: seq<Comparison<string>>): WriterState
    decreases cs
  {
    if cs == [] then st else AddedAll(Added(st, cs[0]), cs[1..])
  }

  class RestrictionWriter {
    var program: Program
    var termc: nat

    ghost function State(): WriterState
      reads this
    {
      WriterState(program, termc)
    }

    constructor ()
      ensures State() == WriterState([], 0)
    {
      program := [];
      termc := 0;
    }

    method AddCondition(c: Comparison<string>)
      modifies this
      ensures State() == Added(old(State()), c)
    {
      if c.newGroup && termc > 1 {
        program := program + [Boolean(true, termc)];
        termc := 0;
      }
      program := program + [Term(c.name, c.value), Compare(c.op)];
      if c.newGroup {
        termc := 1;
      } else {
        termc := termc + 1;
      }
    }

    method Done()
      modifies this
      ensures State() == Finished(old(State()))
    {
      if termc > 1 {
        program := program + [Boolean(true, termc)];
        termc := 0;
      }
    }
  }

  lemma {:induction false} AddedAllConcat(st: WriterState, a: seq<Comparison<string>>, b: seq<Comparison<string>>)
    ensures AddedAll(st, a + b) == AddedAll(AddedAll(st, a), b)
    decreases a
  {
    if a == [] {
      assert a + b == b;
    } else {
      assert (a + b)[1..] == a[1..] + b;
      AddedAllConcat(Added(st, a[0]), a[1..], b);
    }
  }

  /** Conditions that widen the current group. */
  lemma {:induction false} AddedRest(st: WriterState, g: seq<Condition>, cs: seq<Comparison<string>>)
    requires |cs| == |g| && forall i :: 0 <= i < |g| ==> cs[i] == Flag(g[i], false)
    ensures AddedAll(st, cs) == WriterState(st.program + CodesOf(g), st.termc + |g|)
    decreases g
  {
    if g != [] {
      AddedRest(Added(st, cs[0]), g[1..], cs[1..]);
      Assoc(st.program, CodeOf(g[0]), CodesOf(g[1..]));
    } else {
      Unit(st.program);
    }
  }

  lemma AddedFirst(st: WriterState, c: Condition)
    ensures Added(st, Flag(c, true)) == WriterState(Finished(st).program + CodeOf(c), 1)
  {
  }

  lemma FlaggedRest(g: Group)
    ensures Flagged(g)[0] == Flag(g[0], true)
    ensures forall i :: 0 <= i < |g| - 1 ==> Flagged(g)[1..][i] == Flag(g[1..][i], false)
  {
  }

  /** The code of the current group stays open until a new group begins or the restriction ends. */
  lemma AddedGroup(st: WriterState, g: Group)
    ensures AddedAll(st, Flagged(g)) == WriterState(Finished(st).program + CodesOf(g), |g|)
  {
    var cs, done := Flagged(g), Finished(st).program;
    AddedFirst(st, g[0]);
    FlaggedRest(g);
    AddedRest(Added(st, cs[0]), g[1..], cs[1..]);
    Assoc(done, CodeOf(g[0]), CodesOf(g[1..]));
  }

  lemma FinishedGroup(p: Program, g: Group)
    ensures Finished(WriterState(p + CodesOf(g), |g|)).program == p + GroupCode(g)
  {
    Assoc(p, CodesOf(g), [Boolean(true, |g|)]);
    Unit(CodesOf(g));
  }

  lemma {:induction false} AddedGroups(st: WriterState, groups: seq<Group>)
    ensures Finished(AddedAll(st, AllFlagged(groups))).program == Finished(st).program + Code(groups)
    decreases groups
  {
    if groups == [] {
      Unit(Finished(st).program);
    } else {
      var g := groups[0];
      AddedGroup(st, g);
      AddedAllConcat(st, Flagged(g), AllFlagged(groups[1..]));
      var next := AddedAll(st, Flagged(g));
      AddedGroups(next, groups[1..]);
      FinishedGroup(Finished(st).program, g);
      Assoc(Finished(st).program, GroupCode(g), Code(groups[1..]));
    }
  }

  /** Writing any list of groups leaves its code. */
  lemma WriterWritesCode(groups: seq<Group>)
    ensures Finished(AddedAll(WriterState([], 0), AllFlagged(groups))).program == Code(groups)
  {
    AddedGroups(WriterState([], 0), groups);
    Unit(Code(groups));
  }

  // ---- collecting the groups from code ----

  type Collected = seq<Comparison<string>>

  /** The last `termc` conditions become one group. */
  function Joined(list: Collected, termc: nat): (r: Collected)
    requires termc <= |list|
    ensures |r| == |list|
  {
    seq(|list|, i requires 0 <= i < |list| =>
      if i > |list| - termc then list[i].(newGroup := false) else list[i])
  }

  function Collect(p: Program, list: Collected, termc: nat): (r: Result<Collected, Error>)
    requires termc <= |list|
    decreases |p|
  {
    if p == [] then Ok(list)
    else match p[0]
         case Term(name, text) =>
           if |p| > 1 && p[1].Compare?
           then Collect(p[2..], list + [Comparison(p[1].op, name, text, true)], termc + 1)
           else Err(TypeError)
         case Boolean(isOr, n) =>
           if isOr && termc > 1 then
             if termc > n then Err(NofArgsError) else Collect(p[1..], Joined(list, termc), 0)
           else Collect(p[1..], list, 0)
         case Compare(_) => Err(TypeError)
  }

  method JoinLast(list: Collected, termc: nat) returns (r: Collected)
    requires 1 <= termc <= |list|
    ensures r == Joined(list, termc)
  {
    r := list;
    var ci := |list| - termc + 1;
    while ci < |list|
      invariant |list| - termc + 1 <= ci <= |list| && |r| == |list|
      invariant forall i :: 0 <= i < |list| ==>
        r[i] == if |list| - termc < i < ci then list[i].(newGroup := false) else list[i]
    {
      r := r[ci := r[ci].(newGroup := false)];
      ci := ci + 1;
    }
  }

  method CollectComparisons(p: Program) returns (r: Result<Collected, Error>)
    ensures r == Collect(p, [], 0)
  {
    var list: Collected := [];
    var termc: nat := 0;
    var ii := 0;
    while ii < |p|
      invariant 0 <= ii <= |p| && termc <= |list|
      invariant Collect(p, [], 0) == Collect(p[ii..], list, termc)
    {
      match p[ii] {
        case Term(name, text) =>
          termc := termc + 1;
          ii := ii + 1;
          if ii < |p| && p[ii].Compare? {
            assert p[ii - 1..][2..] == p[ii + 1..];
            list := list + [Comparison(p[ii].op, name, text, true)];
          } else {
            return Err(TypeError);
          }
        case Boolean(isOr, n) =>
          assert p[ii..][1..] == p[ii + 1..];
          if isOr && termc > 1 {
            if termc > n { return Err(NofArgsError); }
            list := JoinLast(list, termc);
          }
          termc := 0;
        case Compare(_) =>
          return Err(TypeError);
      }
      ii := ii + 1;
    }
    return Ok(list);
  }

  // ---- which restrictions are collected ----

  /** All groups with more than one condition come before all groups with one. */
  ghost predicate UnionsFirst(groups: seq<Group>)
  {
    forall i, j :: 0 <= i < j < |groups| && |groups[j]| > 1 ==> |groups[i]| > 1
  }

  ghost predicate AllSingle(groups: seq<Group>) { forall i :: 0 <= i < |groups| ==> |groups[i]| == 1 }

  lemma CollectOne(c: Condition, p: Program, list: Collected, termc: nat)
    requires termc <= |list|
    ensures Collect(CodeOf(c) + p, list, termc) == Collect(p, list + [Flag(c, true)], termc + 1)
  {
    assert (CodeOf(c) + p)[2..] == p;
  }

  lemma {:induction false} CollectConditions(g: seq<Condition>, p: Program, list: Collected, termc: nat)
    requires termc <= |list|
    ensures Collect(CodesOf(g) + p, list, termc)
         == Collect(p, list + seq(|g|, i requires 0 <= i < |g| => Flag(g[i], true)), termc + |g|)
    decreases g
  {
    var flags := seq(|g|, i requires 0 <= i < |g| => Flag(g[i], true));
    if g == [] {
      assert flags == [];
      Unit(p);
      Unit(list);
    } else {
      var tail := seq(|g| - 1, i requires 0 <= i < |g| - 1 => Flag(g[1..][i], true));
      CollectConditions(g[1..], p, list + [Flag(g[0], true)], termc + 1);
      CollectOne(g[0], CodesOf(g[1..]) + p, list, termc);
      Assoc(CodeOf(g[0]), CodesOf(g[1..]), p);
      Assoc(list, [Flag(g[0], true)], tail);
      assert [Flag(g[0], true)] + tail == flags;
    }
  }

  /** A group with several conditions is collected exactly if no conditions stand in front of it since the last
      join. */
  lemma CollectUnion(g: Group, p: Program, list: Collected, termc: nat)
    requires |g| > 1 && termc <= |list|
    ensures Collect(GroupCode(g) + p, list, termc)
         == if termc > 0 then Err(NofArgsError) else Collect(p, list + Flagged(g), 0)
  {
    var join := [Boolean(true, |g|)];
    assert GroupCode(g) + p == CodesOf(g) + (join + p);
    CollectConditions(g, join + p, list, termc);
    var flags := seq(|g|, i requires 0 <= i < |g| => Flag(g[i], true));
    assert (join + p)[1..] == p;
    if termc == 0 { assert Joined(list + flags, |g|) == list + Flagged(g); }
  }

  lemma CollectSingle(g: Group, p: Program, list: Collected, termc: nat)
    requires |g| == 1 && termc <= |list|
    ensures Collect(GroupCode(g) + p, list, termc) == Collect(p, list + Flagged(g), termc + 1)
  {
    assert GroupCode(g) + p == CodesOf(g) + p;
    CollectConditions(g, p, list, termc);
    assert Flagged(g) == seq(|g|, i requires 0 <= i < |g| => Flag(g[i], true));
  }

  lemma {:induction false} CollectGroups(groups: seq<Group>, list: Collected, termc: nat)
    requires termc <= |list|
    ensures var r := Collect(Code(groups), list, termc);
            if UnionsFirst(groups) && (termc == 0 || AllSingle(groups))
            then r == Ok(list + AllFlagged(groups)) else r == Err(NofArgsError)
    decreases groups
  {
    if groups == [] {
      assert list + [] == list;
    } else {
      var g, rest := groups[0], groups[1..];
      assert forall i :: 0 <= i < |rest| ==> rest[i] == groups[i + 1];
      assert list + Flagged(g) + AllFlagged(rest) == list + AllFlagged(groups);
      if |g| > 1 {
        CollectUnion(g, Code(rest), list, termc);
        CollectGroups(rest, list + Flagged(g), 0);
        assert !AllSingle(groups);
        UnionFirst(groups);
      } else {
        CollectSingle(g, Code(rest), list, termc);
        CollectGroups(rest, list + Flagged(g), termc + 1);
        SingleFirst(groups);
      }
    }
  }

  lemma UnionFirst(groups: seq<Group>)
    requires groups != [] && |groups[0]| > 1
    ensures UnionsFirst(groups) <==> UnionsFirst(groups[1..])
  {
    var rest := groups[1..];
    if UnionsFirst(groups) {
      forall i, j | 0 <= i < j < |rest| && |rest[j]| > 1 ensures |rest[i]| > 1 {
        assert rest[j] == groups[j + 1] && rest[i] == groups[i + 1];
      }
    }
    if UnionsFirst(rest) {
      forall i, j | 0 <= i < j < |groups| && |groups[j]| > 1 ensures |groups[i]| > 1 {
        if i > 0 { assert rest[j - 1] == groups[j] && rest[i - 1] == groups[i]; }
      }
    }
  }

  lemma SingleFirst(groups: seq<Group>)
    requires groups != [] && |groups[0]| == 1
    ensures UnionsFirst(groups) <==> AllSingle(groups[1..])
    ensures AllSingle(groups[1..]) ==> UnionsFirst(groups[1..])
    ensures AllSingle(groups) <==> AllSingle(groups[1..])
  {
    var rest := groups[1..];
    if UnionsFirst(groups) {
      forall i | 0 <= i < |rest| ensures |rest[i]| == 1 {
        assert rest[i] == groups[i + 1];
      }
    }
    if AllSingle(rest) {
      forall i | 0 <= i < |groups| ensures |groups[i]| == 1 {
        if i > 0 { assert rest[i - 1] == groups[i]; }
      }
    }
  }

  /** The code of a restriction is serialized exactly if its groups with several conditions come first;
      then it is collected as the groups it was written from. */
  lemma CollectsExactly(groups: seq<Group>)
    ensures Collect(Code(groups), [], 0)
         == if UnionsFirst(groups) then Ok(AllFlagged(groups)) else Err(NofArgsError)
  {
    CollectGroups(groups, [], 0);
    assert [] + AllFlagged(groups) == AllFlagged(groups);
  }

  // ---- printing ----

  /** Numbers are printed as numbers. */
  function PrintedValue(cv: Conversions, text: string): Value
  {
    match cv.numeric(Str(text))
    case Some(v) => v
    case None => Str(text)
  }

  function PrintCondition(cv: Conversions, c: Comparison<string>): Tokens
  {
    [Open, Val(Str(PrintOp(c.op))), Val(Str(c.name)), Val(PrintedValue(cv, c.value)), Close]
  }

  function PrintConditions(cv: Conversions, cs: Collected): Tokens
  {
    if cs == [] then [] else PrintCondition(cv, cs[0]) + PrintConditions(cv, cs[1..])
  }

  /** Where the group of the condition at i ends. */
  function GroupEnd(cs: Collected, i: nat): (j: nat)
    requires i < |cs|
    ensures i < j <= |cs| && (j < |cs| ==> cs[j].newGroup)
    ensures forall k :: i < k < j ==> !cs[k].newGroup
    decreases |cs| - i
  {
    if i + 1 == |cs| || cs[i + 1].newGroup then i + 1 else GroupEnd(cs, i + 1)
  }

  function PrintGroup(cv: Conversions, g: Collected): Tokens
    requires g != []
  {
    if |g| > 1 then [Open] + PrintConditions(cv, g) + [Close] else PrintCondition(cv, g[0])
  }

  function PrintFrom(cv: Conversions, cs: Collected, i: nat): Tokens
    requires i <= |cs|
    decreases |cs| - i
  {
    if i == |cs| then []
    else
      var j := GroupEnd(cs, i);
      PrintGroup(cv, cs[i..j]) + PrintFrom(cv, cs, j)
  }

  method PrintRange(cv: Conversions, cs: Collected, i: nat, j: nat) returns (out: Tokens)
    requires i <= j <= |cs|
    ensures out == PrintConditions(cv, cs[i..j])
  {
    out := [];
    var ci := i;
    while ci < j
      invariant i <= ci <= j && PrintConditions(cv, cs[i..j]) == out + PrintConditions(cv, cs[ci..j])
    {
      assert cs[ci..j][1..] == cs[ci + 1..j];
      Assoc(out, PrintCondition(cv, cs[ci]), PrintConditions(cv, cs[ci + 1..j]));
      out := out + PrintCondition(cv, cs[ci]);
      ci := ci + 1;
    }
    Unit(out);
  }

  method SerializeGroup(cv: Conversions, cs: Collected, ci: nat, cn: nat) returns (out: Tokens)
    requires ci < cn <= |cs|
    ensures out == PrintGroup(cv, cs[ci..cn])
  {
    if cn - ci > 1 {
      out := PrintRange(cv, cs, ci, cn);
      out := [Open] + out + [Close];
    } else {
      out := PrintCondition(cv, cs[ci]);
    }
  }

  method Serialize(cv: Conversions, cs: Collected) returns (out: Tokens)
    ensures out == PrintFrom(cv, cs, 0)
  {
    out := [];
    var ci := 0;
    while ci < |cs|
      invariant 0 <= ci <= |cs| && PrintFrom(cv, cs, 0) == out + PrintFrom(cv, cs, ci)
    {
      var cn := ci + 1;
      while cn < |cs| && !cs[cn].newGroup
        invariant ci < cn <= |cs| && GroupEnd(cs, ci) == GroupEnd(cs, cn - 1)
      {
        cn := cn + 1;
      }
      var group := SerializeGroup(cv, cs, ci, cn);
      Assoc(out, group, PrintFrom(cv, cs, cn));
      out := out + group;
      ci := cn;
    }
    Unit(out);
  }

  // ---- reading back what was printed ----

  /** What a printed condition is read as. */
  function AsRead(cv: Conversions, c: Comparison<string>): Comparison<Value>
  {
    Comparison(c.op, c.name, PrintedValue(cv, c.value), c.newGroup)
  }

  /** Operator, name and group stay, a text that is a number comes back as the number, any other as it is. */
  ghost predicate Kept(cv: Conversions, c: Comparison<string>, d: Comparison<Value>)
  {
    && d.op == c.op && d.name == c.name && d.newGroup == c.newGroup
    && (cv.numeric(Str(c.value)).Some? ==> d.value == cv.numeric(Str(c.value)).value)
    && (cv.numeric(Str(c.value)).None? ==> d.value == Str(c.value))
  }

  function AllAsRead(cv: Conversions, cs: Collected): (r: Comparisons)
    ensures |r| == |cs|
  {
    seq(|cs|, i requires 0 <= i < |cs| => AsRead(cv, cs[i]))
  }

  lemma OpRoundTrip(op: CompareOp)
    ensures ParseOp(PrintOp(op)) == Some(op)
  {
    match op
    case Less =>
    case LessEqual =>
    case Equal =>
    case NotEqual =>
    case Greater =>
    case GreaterEqual =>
  }

  lemma ConditionRead(env: Env, c: Comparison<string>, rest: Tokens, newGroup: bool)
    requires Faithful(env.cv)
    ensures var ts := PrintCondition(env.cv, c) + rest;
            && TagOf(ts) == TagOpen && TagOf(ts[1..]) == TagValue
            && ReadCompare(env, ts[1..], newGroup)
               == Done(AsRead(env.cv, c.(newGroup := newGroup)), [Close] + rest)
  {
    OpRoundTrip(c.op);
    var ts := PrintCondition(env.cv, c) + rest;
    assert ts[1..][1..][1..][1..] == [Close] + rest;
  }

  lemma JoinStep(env: Env, c: Comparison<string>, more: Tokens)
    requires Faithful(env.cv)
    ensures var r := ReadJoin(env, more, true, false);
            r.Done? ==> ReadJoin(env, PrintCondition(env.cv, c) + more, true, c.newGroup)
                        == Done([AsRead(env.cv, c)] + r.value, r.rest)
  {
    ConditionRead(env, c, more, c.newGroup);
    assert ([Close] + more)[1..] == more;
  }

  /** The conditions of one group: whatever flag the first one is read with, the others widen its group. */
  lemma {:induction false} ConditionsRead(env: Env, cs: Collected, rest: Tokens, newGroup: bool)
    requires Faithful(env.cv) && TagOf(rest) != TagOpen
    requires forall i :: 0 <= i < |cs| ==> cs[i].newGroup == (newGroup && i == 0)
    ensures ReadJoin(env, PrintConditions(env.cv, cs) + rest, true, newGroup) == Done(AllAsRead(env.cv, cs), rest)
    decreases cs
  {
    if cs == [] {
      Unit(rest);
    } else {
      var more := PrintConditions(env.cv, cs[1..]) + rest;
      Assoc(PrintCondition(env.cv, cs[0]), PrintConditions(env.cv, cs[1..]), rest);
      JoinStep(env, cs[0], more);
      ConditionsRead(env, cs[1..], rest, false);
      assert AllAsRead(env.cv, cs) == [AsRead(env.cv, cs[0])] + AllAsRead(env.cv, cs[1..]);
    }
  }

  /** A printed group in front of more. */
  lemma GroupRead(env: Env, g: Collected, rest: Tokens)
    requires Faithful(env.cv) && g != []
    requires forall i :: 0 <= i < |g| ==> g[i].newGroup == (i == 0)
    ensures var ts := PrintGroup(env.cv, g) + rest;
            && TagOf(ts) == TagOpen && TagOf(ts[1..]) != TagName
            && ReadItem(env, ts[1..]) == Done(AllAsRead(env.cv, g), [Close] + rest)
  {
    var ts := PrintGroup(env.cv, g) + rest;
    if |g| > 1 {
      assert ts[1..] == PrintConditions(env.cv, g) + ([Close] + rest);
      ConditionsRead(env, g, [Close] + rest, true);
    } else {
      ConditionRead(env, g[0], rest, true);
      assert AllAsRead(env.cv, g) == [AsRead(env.cv, g[0])];
    }
  }

  lemma AsReadSplit(cv: Conversions, cs: Collected, i: nat, j: nat)
    requires i <= j <= |cs|
    ensures AllAsRead(cv, cs[i..j]) + AllAsRead(cv, cs[j..]) == AllAsRead(cv, cs[i..])
  {
  }

  lemma {:induction false} PrintedItems(env: Env, cs: Collected, i: nat)
    requires Faithful(env.cv) && i <= |cs| && (i < |cs| ==> cs[i].newGroup)
    ensures ReadItems(env, PrintFrom(env.cv, cs, i)) == Done(AllAsRead(env.cv, cs[i..]), [])
    ensures i < |cs| ==> var ts := PrintFrom(env.cv, cs, i); TagOf(ts) == TagOpen && TagOf(ts[1..]) != TagName
    decreases |cs| - i
  {
    if i < |cs| {
      hide ReadItem, PrintGroup, AllAsRead, Faithful;
      var j := GroupEnd(cs, i);
      var rest := PrintFrom(env.cv, cs, j);
      GroupRead(env, cs[i..j], rest);
      PrintedItems(env, cs, j);
      assert ([Close] + rest)[1..] == rest;
      AsReadSplit(env.cv, cs, i, j);
    }
  }

  /** Printed conditions are read back with the same groups. */
  lemma PrintedIsRead(env: Env, cs: Collected)
    requires Faithful(env.cv) && (cs != [] ==> cs[0].newGroup)
    ensures ReadContent(env, PrintFrom(env.cv, cs, 0)) == Done(AllAsRead(env.cv, cs), [])
    ensures forall i :: 0 <= i < |cs| ==> Kept(env.cv, cs[i], AllAsRead(env.cv, cs)[i])
  {
    PrintedItems(env, cs, 0);
    assert cs[0..] == cs;
  }

  /** Collected conditions always begin with a new group. */
  lemma {:induction false} CollectedBegins(p: Program, list: Collected, termc: nat)
    requires termc <= |list| && (list != [] ==> list[0].newGroup) && Collect(p, list, termc).Ok?
    ensures var r := Collect(p, list, termc).value; r != [] ==> r[0].newGroup
    decreases |p|
  {
    if p != [] {
      match p[0]
      case Term(name, text) =>
        CollectedBegins(p[2..], list + [Comparison(p[1].op, name, text, true)], termc + 1);
      case Boolean(isOr, n) =>
        CollectedBegins(p[1..], if isOr && termc > 1 then Joined(list, termc) else list, 0);
    }
  }

  /** Whatever code is serialized at all is read back as the groups that were collected from it. */
  lemma SerializedIsRead(env: Env, p: Program)
    requires Faithful(env.cv) && Collect(p, [], 0).Ok?
    ensures var cs := Collect(p, [], 0).value;
            ReadContent(env, PrintFrom(env.cv, cs, 0)) == Done(AllAsRead(env.cv, cs), [])
  {
    CollectedBegins(p, [], 0);
    PrintedIsRead(env, Collect(p, [], 0).value);
  }

  /** A restriction survives being written as code, collected, printed and read: it does so exactly if its groups
      with several conditions come first. */
  lemma RestrictionRoundTrip(env: Env, groups: seq<Group>)
    requires Faithful(env.cv)
    ensures var p := Finished(AddedAll(WriterState([], 0), AllFlagged(groups))).program;
            var r := Collect(p, [], 0);
            if UnionsFirst(groups)
            then && r.Ok?
                 && ReadContent(env, PrintFrom(env.cv, r.value, 0)) == Done(AllAsRead(env.cv, AllFlagged(groups)), [])
                 && forall i :: 0 <= i < |AllFlagged(groups)| ==>
                      Kept(env.cv, AllFlagged(groups)[i], AllAsRead(env.cv, AllFlagged(groups))[i])
            else r == Err(NofArgsError)
  {
    WriterWritesCode(groups);
    CollectsExactly(groups);
    if UnionsFirst(groups) { SerializedIsRead(env, Code(groups)); }
  }
}
