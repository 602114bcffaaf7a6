/** Single conditions of a metadata restriction: the words for operators, and conditions by values or by names. */
module MetaDataConditions {
  import opened Wrappers
  import opened Serialization
  import opened MetaDataRestriction
  import SNM = StructureNameMap

  // ---- operators ----

  /** The words for an operator. */
  function Words(op: CompareOp): set<string>
  {
    match op
    case Less => {"<", "lt"}
    case LessEqual => {"<=", "le"}
    case Equal => {"==", "=", "eq"}
    case NotEqual => {"!=", "ne"}
    case Greater => {">", "gt"}
    case GreaterEqual => {">=", "ge"}
  }

  /** Words are zero-terminated. */
  predicate Clean(word: string) { '\0' !in word }

  lemma AtEnd(word: string, i: nat)
    requires Clean(word)
    ensures At(word, i) == '\0' <==> |word| <= i
  {
    if i < |word| { assert word[i] in word; }
  }

  /** Exactly the words of an operator are read as this operator. */
  lemma WordsAreExact(word: string, op: CompareOp)
    requires Clean(word)
    ensures ParseOp(word) == Some(op) <==> word in Words(op)
  {
    AtEnd(word, 0);
    AtEnd(word, 1);
    AtEnd(word, 2);
    if |word| == 1 {
      assert word == [At(word, 0)];
    } else if |word| == 2 {
      assert word == [At(word, 0), At(word, 1)];
    } else {
      WordsAreShort(word, op);
    }
  }

  lemma WordsAreShort(word: string, op: CompareOp)
    requires |word| == 0 || |word| > 2
    ensures word !in Words(op)
  {
  }

  // ---- conditions ----

  datatype CondMember = OpIs(word: string) | NameIs(name: string) | ValueIs(value: Value)

  datatype Cond = ByValues(word: string, name: string, value: Value) | ByNames(members: seq<CondMember>)

  predicate CleanMember(x: CondMember) { x.OpIs? ==> Clean(x.word) }

  predicate CleanCond(c: Cond)
  {
    match c
    case ByValues(word, _, _) => Clean(word)
    case ByNames(members) => forall x :: x in members ==> CleanMember(x)
  }

  function MemberKind(x: CondMember): nat
  {
    match x
    case OpIs(_) => 0
    case NameIs(_) => 1
    case ValueIs(_) => 2
  }

  function PrintMember(x: CondMember): Tokens
  {
    match x
    case OpIs(word) => [Name("op"), Val(Str(word))]
    case NameIs(name) => [Name("name"), Val(Str(name))]
    case ValueIs(value) => [Name("value"), Val(value)]
  }

  function PrintMembers(l: seq<CondMember>): Tokens
  {
    if l == [] then [] else PrintMember(l[0]) + PrintMembers(l[1..])
  }

  function PrintCond(c: Cond): Tokens
  {
    match c
    case ByValues(word, name, value) => [Val(Str(word)), Val(Str(name)), Val(value)]
    case ByNames(members) => PrintMembers(members)
  }

  predicate IsThere(m: Members, kind: nat)
  {
    if kind == 0 then m.op.Some? else if kind == 1 then m.name.Some? else m.value.Some?
  }

  /** A word of an operator, and the first one of its kind. */
  predicate Addable(m: Members, x: CondMember)
  {
    !IsThere(m, MemberKind(x)) && (x.OpIs? ==> ParseOp(x.word).Some?)
  }

  function Added(m: Members, x: CondMember): Members
    requires Addable(m, x)
  {
    match x
    case OpIs(word) => m.(op := ParseOp(word))
    case NameIs(name) => m.(name := Some(name))
    case ValueIs(value) => m.(value := Some(value))
  }

  function AddAll(m: Members, l: seq<CondMember>): Option<Members>
    decreases l
  {
    if l == [] then Some(m) else if Addable(m, l[0]) then AddAll(Added(m, l[0]), l[1..]) else None
  }

  const NOTHING := Members(None, None, None)

  lemma RestrictionNamesDiffer()
    ensures SNM.NoneInEarlier(Names(RestrictionNames))
  {
    hide SNM.Infix;
    SNM.NoInfix("condition", "union", []);
    SNM.NoInfix("op", "union", [0, 0, 0, 1]);
    SNM.NoInfix("op", "condition", [0, 1, 0, 0, 0, 0, 0, 1]);
    SNM.NoInfix("name", "union", [0, 1]);
    SNM.NoInfix("name", "condition", [0, 0, 1, 0, 0, 0]);
    SNM.NoInfix("name", "op", []);
    SNM.NoInfix("value", "union", [0]);
    SNM.NoInfix("value", "condition", [0, 0, 0, 0, 0]);
    SNM.NoInfix("value", "op", []);
    SNM.NoInfix("value", "name", []);
  }

  lemma CompareNamesDiffer()
    ensures SNM.NoneInEarlier(Names(CompareNames))
  {
    hide SNM.Infix;
    SNM.NoInfix("name", "op", []);
    SNM.NoInfix("value", "op", []);
    SNM.NoInfix("value", "name", []);
  }

  lemma Keyword(env: Env, t: Table, i: nat)
    requires FaithfulEnv(env) && i < |Names(t)|
    ensures env.index(t, Names(t)[i]) == i
  {
    hide SNM.NoneInEarlier, SNM.Index, SNM.Join;
    RestrictionNamesDiffer();
    CompareNamesDiffer();
    assert SNM.NoneInEarlier(Names(t));
    assert SNM.IsTable(Names(t), ',');
    SNM.AllNamesFound(Names(t), ',');
  }

  lemma IsFaithful(env: Env)
    requires FaithfulEnv(env)
    ensures Faithful(env.cv)
  {
  }

  lemma MemberRead(env: Env, x: CondMember, rest: Tokens, m: Members)
    requires FaithfulEnv(env)
    ensures CompareMembers(env, PrintMember(x) + rest, m)
         == if Addable(m, x) then CompareMembers(env, rest, Added(m, x)) else Fail
  {
    Keyword(env, CompareNames, MemberKind(x));
    IsFaithful(env);
    hide FaithfulEnv, ParseOp;
    var ts := PrintMember(x) + rest;
    assert ts[1..][1..] == rest && ts[2..] == rest && env.index(CompareNames, ts[0].name) == MemberKind(x);
  }

  lemma {:induction false} MembersRead(env: Env, l: seq<CondMember>, rest: Tokens, m: Members)
    requires FaithfulEnv(env) && TagOf(rest) != TagName
    ensures CompareMembers(env, PrintMembers(l) + rest, m)
         == if AddAll(m, l).Some? then Done(AddAll(m, l).value, rest) else Fail
    decreases l
  {
    hide FaithfulEnv, CompareMembers, PrintMember, ParseOp;
    if l == [] {
      NoMember(env, rest, m);
      Unit(rest);
    } else {
      Assoc(PrintMember(l[0]), PrintMembers(l[1..]), rest);
      MemberRead(env, l[0], PrintMembers(l[1..]) + rest, m);
      if Addable(m, l[0]) { MembersRead(env, l[1..], rest, Added(m, l[0])); }
    }
  }

  lemma NoMember(env: Env, rest: Tokens, m: Members)
    requires TagOf(rest) != TagName
    ensures CompareMembers(env, rest, m) == Done(m, rest)
  {
  }

  // the members of a condition, in any order

  ghost predicate Different(l: seq<CondMember>)
  {
    forall i, j :: 0 <= i < j < |l| ==> MemberKind(l[i]) != MemberKind(l[j])
  }

  ghost predicate AllNew(m: Members, l: seq<CondMember>) { forall x :: x in l ==> Addable(m, x) }

  lemma NewFirst(m: Members, l: seq<CondMember>)
    requires l != []
    ensures Different(l) && AllNew(m, l)
       <==> Addable(m, l[0]) && Different(l[1..]) && AllNew(Added(m, l[0]), l[1..])
  {
    hide ParseOp;
    var rest := l[1..];
    assert forall x :: x in l <==> x == l[0] || x in rest;
    if Different(l) && AllNew(m, l) {
      forall x | x in rest ensures Addable(Added(m, l[0]), x) {
        var j :| 1 <= j < |l| && l[j] == x;
        assert MemberKind(l[0]) != MemberKind(l[j]);
      }
    }
    if Addable(m, l[0]) && Different(rest) && AllNew(Added(m, l[0]), rest) {
      forall x | x in rest ensures Addable(m, x) && MemberKind(x) != MemberKind(l[0]) {
        assert Addable(Added(m, l[0]), x);
      }
      forall i, j | 0 <= i < j < |l| ensures MemberKind(l[i]) != MemberKind(l[j]) {
        assert l[j] == rest[j - 1] && l[j] in rest;
        if i > 0 { assert l[i] == rest[i - 1]; }
      }
    }
  }

  /** All members are added exactly if they are of different and new kinds, with words of operators; then each of them
      is there as it was given. */
  lemma {:induction false} AddedAll(m: Members, l: seq<CondMember>)
    ensures AddAll(m, l).Some? <==> Different(l) && AllNew(m, l)
    ensures AddAll(m, l).Some? ==>
      var all := AddAll(m, l).value;
      && (forall v :: all.op == Some(v)
            <==> m.op == Some(v) || exists x :: x in l && x.OpIs? && ParseOp(x.word) == Some(v))
      && (forall v :: all.name == Some(v) <==> m.name == Some(v) || NameIs(v) in l)
      && (forall v :: all.value == Some(v) <==> m.value == Some(v) || ValueIs(v) in l)
    decreases l
  {
    if l != [] {
      hide ParseOp;
      NewFirst(m, l);
      assert forall x :: x in l <==> x == l[0] || x in l[1..];
      if Addable(m, l[0]) { AddedAll(Added(m, l[0]), l[1..]); }
    }
  }

  /** An operator word, and with names each of the three exactly once. */
  ghost predicate Complete(c: Cond)
  {
    match c
    case ByValues(word, _, _) => IsWord(word)
    case ByNames(l) =>
      && Different(l) && (forall x :: x in l && x.OpIs? ==> IsWord(x.word))
      && (exists x :: x in l && x.OpIs?) && (exists x :: x in l && x.NameIs?) && (exists x :: x in l && x.ValueIs?)
  }

  ghost predicate IsWord(word: string) { exists op :: word in Words(op) }

  /** The condition says this. */
  ghost predicate Says(c: Cond, said: Comparison<Value>)
  {
    match c
    case ByValues(word, name, value) => word in Words(said.op) && name == said.name && value == said.value
    case ByNames(l) =>
      && (exists x :: x in l && x.OpIs? && x.word in Words(said.op))
      && NameIs(said.name) in l && ValueIs(said.value) in l
  }

  lemma WordIsParsed(word: string)
    requires Clean(word)
    ensures ParseOp(word).Some? <==> IsWord(word)
    ensures ParseOp(word).Some? ==> word in Words(ParseOp(word).value)
  {
    if ParseOp(word).Some? { WordsAreExact(word, ParseOp(word).value); }
    if op :| word in Words(op) { WordsAreExact(word, op); }
  }

  /** A condition is read exactly if it is complete, as what it says. */
  lemma CondRead(env: Env, c: Cond, rest: Tokens, newGroup: bool)
    requires FaithfulEnv(env) && CleanCond(c) && TagOf(rest) == TagClose
    ensures var r := ReadCompare(env, PrintCond(c) + rest, newGroup);
            && !r.Stuck?
            && (r.Done? <==> Complete(c))
            && (r.Done? ==> r.rest == rest && Says(c, r.value) && r.value.newGroup == newGroup)
  {
    match c
    case ByValues(word, name, value) => ValuesRead(env, word, name, value, rest, newGroup);
    case ByNames(l) => NamesRead(env, l, rest, newGroup);
  }

  lemma ValuesRead(env: Env, word: string, name: string, value: Value, rest: Tokens, newGroup: bool)
    requires FaithfulEnv(env) && Clean(word)
    ensures var c := ByValues(word, name, value);
            var r := ReadCompare(env, PrintCond(c) + rest, newGroup);
            && (r.Done? <==> Complete(c))
            && (r.Done? ==> r.rest == rest && Says(c, r.value) && r.value.newGroup == newGroup)
  {
    WordIsParsed(word);
    IsFaithful(env);
    hide FaithfulEnv, ParseOp, IsWord, Words;
    var ts := [Val(Str(word)), Val(Str(name)), Val(value)] + rest;
    assert ts[1..][1..][1..] == rest;
  }

  lemma NamesRead(env: Env, l: seq<CondMember>, rest: Tokens, newGroup: bool)
    requires FaithfulEnv(env) && CleanCond(ByNames(l)) && TagOf(rest) == TagClose
    ensures var c := ByNames(l);
            var r := ReadCompare(env, PrintCond(c) + rest, newGroup);
            && (r.Done? <==> Complete(c))
            && (r.Done? ==> r.rest == rest && Says(c, r.value) && r.value.newGroup == newGroup)
  {
    hide FaithfulEnv, ParseOp, CompareMembers, AddAll, PrintMembers, Complete, Says;
    MembersRead(env, l, rest, NOTHING);
    CompleteNames(l, newGroup);
    NoValue(l, rest);
  }

  lemma NoValue(l: seq<CondMember>, rest: Tokens)
    requires TagOf(rest) == TagClose
    ensures TagOf(PrintMembers(l) + rest) != TagValue
  {
  }

  lemma CompleteNames(l: seq<CondMember>, newGroup: bool)
    requires CleanCond(ByNames(l))
    ensures var all := AddAll(NOTHING, l);
            && (all.Some? && all.value.op.Some? && all.value.name.Some? && all.value.value.Some?
                <==> Complete(ByNames(l)))
            && (Complete(ByNames(l)) ==>
                  var m := all.value;
                  Says(ByNames(l), Comparison(m.op.value, m.name.value, m.value.value, newGroup)))
  {
    AddedAll(NOTHING, l);
    forall x | x in l && x.OpIs?
      ensures ParseOp(x.word).Some? <==> IsWord(x.word)
      ensures ParseOp(x.word).Some? ==> x.word in Words(ParseOp(x.word).value)
    {
      WordIsParsed(x.word);
    }
    hide ParseOp, IsWord, AddAll;
    assert forall x :: x in l && x.NameIs? ==> x == NameIs(x.name);
    assert forall x :: x in l && x.ValueIs? ==> x == ValueIs(x.value);
  }
}
