/** Reading back what the serializer of query expressions writes. */
module ExpressionRoundTrip {
  import opened Wrappers
  import opened Serialization
  import opened ExpressionParser
  import opened ExpressionSerializer
  import opened ExpressionTrees

  // ---- single members ----

  lemma TextMember(env: Env, name: string, text: string, rest: Tokens, def: JoinDef)
    requires FaithfulEnv(env) && env.index(JoinNames, name) == 1 && 1 !in def.defined
    ensures JoinMembers(env, [Name(name), Val(Str(text))] + rest, def)
         == JoinMembersNext(env, rest, def.(defined := def.defined + {1}, op := text))
  {
    var ts := [Name(name), Val(Str(text))] + rest;
    assert ts[1..][1..] == rest;
  }

  lemma RangeMember(env: Env, range: int, rest: Tokens, def: JoinDef)
    requires FaithfulEnv(env) && INT_MIN <= range <= INT_MAX && 2 !in def.defined
    ensures JoinMembers(env, [Name("range"), Val(Int(range))] + rest, def)
         == JoinMembersNext(env, rest, def.(defined := def.defined + {2}, range := range))
  {
    JoinKeywords(env);
    var ts := [Name("range"), Val(Int(range))] + rest;
    assert ts[1..][1..] == rest;
  }

  lemma CardinalityMember(env: Env, card: nat, rest: Tokens, def: JoinDef)
    requires FaithfulEnv(env) && card <= UINT_MAX && 3 !in def.defined
    ensures JoinMembers(env, [Name("cardinality"), Val(Int(card))] + rest, def)
         == JoinMembersNext(env, rest, def.(defined := def.defined + {3}, cardinality := card))
  {
    JoinKeywords(env);
    var ts := [Name("cardinality"), Val(Int(card))] + rest;
    assert ts[1..][1..] == rest;
  }

  /** What is known of a join after the head of an operator. */
  function HeadDef(op: Instruction): JoinDef
    requires op.Operator?
  {
    JoinDef("", op.name, op.range, op.cardinality, 0,
            {1} + (if op.range != 0 then {2} else {}) + (if op.cardinality != 0 then {3} else {}))
  }

  function RangeTokens(op: Instruction): Tokens
    requires op.Operator?
  {
    if op.range != 0 then [Name("range"), Val(Int(op.range))] else []
  }

  function CardinalityTokens(op: Instruction): Tokens
    requires op.Operator?
  {
    if op.cardinality != 0 then [Name("cardinality"), Val(Int(op.cardinality))] else []
  }

  lemma RangeMembers(env: Env, op: Instruction, rest: Tokens, def: JoinDef)
    requires FaithfulEnv(env) && op.Operator? && InRange(op) && TagOf(rest) == TagName
    requires 2 !in def.defined && def.range == 0
    ensures TagOf(RangeTokens(op) + rest) == TagName
    ensures JoinMembers(env, RangeTokens(op) + rest, def)
         == JoinMembers(env, rest, def.(defined := def.defined + (if op.range != 0 then {2} else {}),
                                        range := op.range))
  {
    if op.range != 0 { RangeMember(env, op.range, rest, def); }
    else { assert [] + rest == rest && def.defined + {} == def.defined; }
  }

  lemma CardinalityMembers(env: Env, op: Instruction, rest: Tokens, def: JoinDef)
    requires FaithfulEnv(env) && op.Operator? && InRange(op) && TagOf(rest) == TagName
    requires 3 !in def.defined && def.cardinality == 0
    ensures TagOf(CardinalityTokens(op) + rest) == TagName
    ensures JoinMembers(env, CardinalityTokens(op) + rest, def)
         == JoinMembers(env, rest, def.(defined := def.defined + (if op.cardinality != 0 then {3} else {}),
                                        cardinality := op.cardinality))
  {
    if op.cardinality != 0 { CardinalityMember(env, op.cardinality, rest, def); }
    else { assert [] + rest == rest && def.defined + {} == def.defined; }
  }

  lemma HeadMembers(env: Env, op: Instruction, rest: Tokens)
    requires FaithfulEnv(env) && op.Operator? && InRange(op) && TagOf(rest) == TagName
    ensures TagOf(OperatorHead(op) + rest) == TagName
    ensures JoinMembers(env, OperatorHead(op) + rest, NO_JOIN) == JoinMembers(env, rest, HeadDef(op))
  {
    JoinKeywords(env);
    var d := NO_JOIN.(defined := NO_JOIN.defined + {1}, op := op.name);
    assert d.defined == {1};
    var r2 := CardinalityTokens(op) + rest;
    var r1 := RangeTokens(op) + r2;
    assert OperatorHead(op) + rest == [Name("op"), Val(Str(op.name))] + r1;
    TextMember(env, "op", op.name, r1, NO_JOIN);
    CardinalityMembers(env, op, rest, d.(defined := d.defined + (if op.range != 0 then {2} else {}),
                                         range := op.range));
    RangeMembers(env, op, r2, d);
  }

  /** The structure with the arguments, when its content is read as a list. */
  lemma ArgMember(env: Env, args: Tokens, rest: Tokens, def: JoinDef, r: Outcome<(nat, Calls)>)
    requires FaithfulEnv(env) && 4 !in def.defined && TagOf(rest) == TagClose
    requires TagOf(args + ([Close] + rest)) == TagOpen
    requires r == ParseList(env, args + ([Close] + rest)) && (r.Done? ==> r.rest == [Close] + rest)
    ensures JoinMembers(env, [Name("arg"), Open] + (args + ([Close] + rest)), def)
         == match r
            case Done((argc, calls), _) => Done((def.(defined := def.defined + {4}, argc := argc), calls), rest)
            case Fail => Fail
            case Stuck => Stuck
  {
    JoinKeywords(env);
    var content := args + ([Close] + rest);
    var ts := [Name("arg"), Open] + content;
    assert ts[1..] == [Open] + content && ts[1..][1..] == content;
    assert ([Close] + rest)[1..] == rest;
    if r.Done? {
      var d := def.(defined := def.defined + {4}, argc := r.value.0);
      assert JoinArgument(env, ts[1..]) == Done(r.value, rest);
      assert JoinMembersNext(env, rest, d) == Done((d, []), rest);
      assert r.value.1 + [] == r.value.1;
    }
  }

  /** Without arguments the structure is read as an empty expression. */
  lemma EmptyArgMember(env: Env, rest: Tokens, def: JoinDef)
    requires FaithfulEnv(env) && 4 !in def.defined
    ensures JoinMembers(env, [Name("arg"), Open] + ([] + ([Close] + rest)), def) == Fail
  {
    JoinKeywords(env);
    var ts := [Name("arg"), Open] + ([] + ([Close] + rest));
    assert ts[1..][1..] == [Close] + rest;
    assert ParseExpression(env, [Close] + rest, false) == Fail;
  }

  // ---- terms ----

  lemma TwoValuesRead(env: Env, t: Instruction, tail: Tokens)
    requires Faithful(env.cv) && t.Term? && InRange(t)
    requires TagOf(tail) == TagClose || (tail != [] && tail[0] == Val(Int(t.length)))
    ensures TermValues(env, [Val(Str(t.termType)), Val(Str(t.value))] + tail, "")
         == if TagOf(tail) == TagClose then Done(TermDef("", Some(t.termType), Some(t.value), None), tail)
            else Done(TermDef("", Some(t.termType), Some(t.value), Some(t.length)), tail[1..])
  {
    var ts := [Val(Str(t.termType)), Val(Str(t.value))] + tail;
    assert ts[1..] == [Val(Str(t.value))] + tail && ts[1..][1..] == tail;
  }

  lemma TermValuesRead(env: Env, t: Instruction, rest: Tokens)
    requires FaithfulEnv(env) && t.Term? && InRange(t) && TagOf(rest) == TagClose
    ensures var r := GetTermDef(env, TermTokens(t, None) + rest);
            r.Done? && r.rest == rest && TermCalls(r.value) == [CallOf(t)]
  {
    assert Faithful(env.cv);
    hide FaithfulEnv, Faithful, TermValues;
    var tail := (if t.length > 1 then [Val(Int(t.length))] else []) + rest;
    var ts := TermTokens(t, None) + rest;
    assert ts == [Val(Str(t.termType)), Val(Str(t.value))] + tail;
    TwoValuesRead(env, t, tail);
    assert TermVariable(env, ts) == Done("", ts);
    if t.length > 1 { assert tail[1..] == rest; } else { assert tail == rest; }
  }

  lemma TermIsTerm(env: Env, t: Instruction, rest: Tokens)
    requires t.Term? && TagOf(rest) == TagClose
    ensures GetExpressionType(env, TermTokens(t, None) + rest) == Done(ExpressionTerm, TermTokens(t, None) + rest)
  {
    var tail := (if t.length > 1 then [Val(Int(t.length))] else []) + rest;
    var ts := TermTokens(t, None) + rest;
    assert ts == [Val(Str(t.termType)), Val(Str(t.value))] + tail;
    assert ts[1..] == [Val(Str(t.value))] + tail && ts[1..][1..] == tail;
    assert LeadingValues(ts, 3) == 1 + LeadingValues(ts[1..], 2) == 2 + LeadingValues(tail, 1);
    if t.length > 1 {
      assert tail[1..] == rest && LeadingValues(tail, 1) == 1 + LeadingValues(rest, 0);
      assert ts[3..] == rest;
    } else {
      assert tail == rest && ts[2..] == rest;
    }
  }

  // ---- expressions ----

  /** What the reader returns for an encoded tree. */
  function Expected(e: Expr, rest: Tokens): Outcome<Calls>
    requires WellFormed(e)
  {
    TreeIsVariableFree(e);
    Done(CallsOf(PostOrder(e)), rest)
  }

  function ExpectedList(es: seq<Expr>, rest: Tokens): Outcome<(nat, Calls)>
    requires AllWellFormed(es)
  {
    TreesAreVariableFree(es);
    Done((|es|, CallsOf(PostOrderAll(es))), rest)
  }

  lemma KeywordUnfolds(env: Env, name: string, content: Tokens, allowLists: bool)
    requires env.index(ExpressionNames, name) >= 0
    ensures ParseExpression(env, [Name(name), Open] + content, allowLists)
         == Closed(ParseTyped(env, KeywordType(env.index(ExpressionNames, name)), content, allowLists))
  {
    var ts := [Name(name), Open] + content;
    assert ts[1..] == [Open] + content && ts[2..] == content;
  }

  lemma PlainUnfolds(env: Env, ts: Tokens, etype: ExpressionType, allowLists: bool)
    requires TagOf(ts) == TagName ==> env.index(ExpressionNames, ts[0].name) < 0
    requires GetExpressionType(env, ts) == Done(etype, ts)
    ensures ParseExpression(env, ts, allowLists) == ParseTyped(env, etype, ts, allowLists)
  {
  }

  lemma TermTyped(env: Env, t: Instruction, rest: Tokens, allowLists: bool)
    requires FaithfulEnv(env) && t.Term? && InRange(t) && TagOf(rest) == TagClose
    ensures ParseTyped(env, ExpressionTerm, TermTokens(t, None) + rest, allowLists) == Done([CallOf(t)], rest)
  {
    TermValuesRead(env, t, rest);
  }

  lemma LeafRead(env: Env, t: Instruction, schema: bool, rest: Tokens, allowLists: bool)
    requires FaithfulEnv(env) && t.Term? && InRange(t) && TagOf(rest) == TagClose
    ensures ParseExpression(env, Flat(Leaf(t), schema) + rest, allowLists) == Done([CallOf(t)], rest)
  {
    hide FaithfulEnv, InRange, ParseExpression, ParseTyped, GetTermDef;
    FlatLeaf(t, schema);
    if schema {
      ExpressionKeywords(env);
      var content := TermTokens(t, None) + ([Close] + rest);
      assert SerializeTerm(t, None, true) + rest == [Name("term"), Open] + content;
      KeywordUnfolds(env, "term", content, allowLists);
      TermTyped(env, t, [Close] + rest, allowLists);
      assert ([Close] + rest)[1..] == rest;
    } else {
      TermIsTerm(env, t, rest);
      PlainUnfolds(env, TermTokens(t, None) + rest, ExpressionTerm, allowLists);
      TermTyped(env, t, rest, allowLists);
    }
  }

  /** The members of an operator, given how its arguments are read. */
  lemma MembersRead(env: Env, op: Instruction, args: Tokens, rest: Tokens, r: Outcome<(nat, Calls)>)
    requires FaithfulEnv(env) && op.Operator? && InRange(op) && TagOf(rest) == TagClose
    requires args != [] ==> args[0] == Open
    requires r == ParseList(env, args + ([Close] + rest)) && !r.Stuck? && (r.Done? ==> r.rest == [Close] + rest)
    ensures ParseJoin(env, Members(op, args) + rest)
         == if args != [] && r.Done?
            then Done(r.value.1 + [PushExpression(op.name, r.value.0, op.range, op.cardinality)], rest) else Fail
  {
    hide FaithfulEnv, InRange, JoinMembers, JoinArgument, ParseExpression, ParseList, PositionalHead, ParseArguments;
    var tail := [Name("arg"), Open] + (args + ([Close] + rest));
    assert Members(op, args) + rest == OperatorHead(op) + tail;
    HeadMembers(env, op, tail);
    if args == [] { EmptyArgMember(env, rest, HeadDef(op)); } else { ArgMember(env, args, rest, HeadDef(op), r); }
    assert TagOf(Members(op, args) + rest) == TagName;
    if args != [] && r.Done? {
      var d := HeadDef(op).(defined := HeadDef(op).defined + {4}, argc := r.value.0);
      assert JoinCalls(d) == [PushExpression(op.name, r.value.0, op.range, op.cardinality)];
    }
  }

  lemma JoinIsRead(env: Env, op: Instruction, args: Tokens, schema: bool, rest: Tokens, allowLists: bool)
    requires FaithfulEnv(env) && op.Operator?
    ensures var members := Members(op, args);
            var ts := if schema then [Name("expression"), Open] + (members + [Close]) else members;
            ParseExpression(env, ts + rest, allowLists)
              == if schema then Closed(ParseJoin(env, members + ([Close] + rest))) else ParseJoin(env, members + rest)
  {
    var members := Members(op, args);
    if schema {
      ExpressionKeywords(env);
      var content := members + ([Close] + rest);
      assert [Name("expression"), Open] + (members + [Close]) + rest == [Name("expression"), Open] + content;
      KeywordUnfolds(env, "expression", content, allowLists);
    } else {
      OpIsNoExpressionKeyword(env);
      TypeKeywords(env);
      assert (members + rest)[0] == Name("op");
      PlainUnfolds(env, members + rest, ExpressionJoin, allowLists);
    }
  }

  /** Main lemma: an encoded tree is read as its instructions in order, unless an operator has no operands. */
  lemma {:induction false} TreeRead(env: Env, e: Expr, schema: bool, rest: Tokens, allowLists: bool)
    requires FaithfulEnv(env) && WellFormed(e) && AllInRange(PostOrder(e)) && TagOf(rest) == TagClose
    ensures ParseExpression(env, Flat(e, schema) + rest, allowLists)
         == if HasOperands(e) then Expected(e, rest) else Fail
    decreases e, 1
  {
    match e
    case Leaf(t) =>
      assert PostOrder(e)[0] == t;
      LeafRead(env, t, schema, rest, allowLists);
      LeafCalls(t);
    case Node(op, args) =>
      assert PostOrder(e)[|PostOrderAll(args)|] == op;
      assert AllInRange(PostOrderAll(args)) by {
        assert forall i :: 0 <= i < |PostOrderAll(args)| ==> PostOrderAll(args)[i] == PostOrder(e)[i];
      }
      var behind := if schema then [Close] + rest else rest;
      ListRead(env, args, schema, [Close] + behind);
      NodeRead(env, e, schema, rest, allowLists);
  }

  lemma NodeRead(env: Env, e: Expr, schema: bool, rest: Tokens, allowLists: bool)
    requires FaithfulEnv(env) && WellFormed(e) && e.Node? && InRange(e.op) && TagOf(rest) == TagClose
    requires var behind := [Close] + if schema then [Close] + rest else rest;
             ParseList(env, FlatAll(e.args, schema) + behind)
               == if AllHaveOperands(e.args) then ExpectedList(e.args, behind) else Fail
    ensures ParseExpression(env, Flat(e, schema) + rest, allowLists)
         == if HasOperands(e) then Expected(e, rest) else Fail
  {
    var op, args := e.op, e.args;
    var flat := FlatAll(args, schema);
    var behind := if schema then [Close] + rest else rest;
    FlatNode(e, schema);
    if args != [] { FlatCons(args, schema); } else { assert flat == []; }
    MembersRead(env, op, flat, behind, ParseList(env, flat + ([Close] + behind)));
    JoinIsRead(env, op, flat, schema, rest, allowLists);
    assert ([Close] + rest)[1..] == rest;
    if HasOperands(e) { NodeCalls(e); }
  }

  lemma LeafCalls(t: Instruction)
    requires t.Term?
    ensures VariableFree([t]) && CallsOf([t]) == [CallOf(t)]
  {
    assert [t][1..] == [];
  }

  lemma NodeCalls(e: Expr)
    requires WellFormed(e) && e.Node?
    ensures VariableFree(PostOrder(e)) && VariableFree(PostOrderAll(e.args))
    ensures CallsOf(PostOrder(e)) == CallsOf(PostOrderAll(e.args)) + [CallOf(e.op)]
  {
    TreeIsVariableFree(e);
    TreesAreVariableFree(e.args);
    CallsConcat(PostOrderAll(e.args), [e.op]);
    assert [e.op][1..] == [];
  }

  lemma {:induction false} ListRead(env: Env, es: seq<Expr>, schema: bool, rest: Tokens)
    requires FaithfulEnv(env) && AllWellFormed(es) && AllInRange(PostOrderAll(es)) && TagOf(rest) == TagClose
    ensures ParseList(env, FlatAll(es, schema) + rest) == if AllHaveOperands(es) then ExpectedList(es, rest) else Fail
    decreases es, 0
  {
    hide FaithfulEnv, ParseExpression, InRange, HasOperands;
    TreesAreVariableFree(es);
    if es == [] {
      assert FlatAll(es, schema) + rest == rest;
    } else {
      FlatCons(es, schema);
      var first, others := es[0], es[1..];
      var tail := FlatAll(others, schema) + rest;
      var ts := FlatAll(es, schema) + rest;
      assert ts[1..] == Flat(first, schema) + ([Close] + tail);
      ListParts(es);
      TreeRead(env, first, schema, [Close] + tail, false);
      assert ([Close] + tail)[1..] == tail;
      ListRead(env, others, schema, rest);
    }
  }

  /** The trees of a list and their calls. */
  lemma ListParts(es: seq<Expr>)
    requires es != [] && AllWellFormed(es) && AllInRange(PostOrderAll(es))
    ensures AllInRange(PostOrder(es[0])) && AllInRange(PostOrderAll(es[1..]))
    ensures AllHaveOperands(es) <==> HasOperands(es[0]) && AllHaveOperands(es[1..])
    ensures VariableFree(PostOrderAll(es)) && VariableFree(PostOrder(es[0])) && VariableFree(PostOrderAll(es[1..]))
    ensures CallsOf(PostOrderAll(es)) == CallsOf(PostOrder(es[0])) + CallsOf(PostOrderAll(es[1..]))
  {
    var p, q := PostOrder(es[0]), PostOrderAll(es[1..]);
    assert PostOrderAll(es) == p + q;
    RangesSplit(p, q);
    OperandsSplit(es);
    assert WellFormed(es[0]) && AllWellFormed(es[1..]);
    hide *;
    TreesAreVariableFree(es);
    TreeIsVariableFree(es[0]);
    TreesAreVariableFree(es[1..]);
    CallsConcat(p, q);
  }

  lemma RangesSplit(p: Program, q: Program)
    requires AllInRange(p + q)
    ensures AllInRange(p) && AllInRange(q)
  {
    assert forall i :: 0 <= i < |p| ==> p[i] == (p + q)[i];
    assert forall i :: 0 <= i < |q| ==> q[i] == (p + q)[|p| + i];
  }

  lemma OperandsSplit(es: seq<Expr>)
    requires es != []
    ensures AllHaveOperands(es) <==> HasOperands(es[0]) && AllHaveOperands(es[1..])
  {
    assert forall i :: 0 < i < |es| ==> es[i] == es[1..][i - 1];
  }

  // ---- the round trip ----

  /** Every expression that the serializer writes is read back as the calls of its instructions, in order,
      unless an operator has no operands; then it is refused. */
  lemma RoundTrip(env: Env, program: Program, single: bool, schema: bool, allowLists: bool)
    requires FaithfulEnv(env) && AllInRange(program) && program != []
    requires Serialize(program, single, schema).Some? && (!single ==> allowLists)
    ensures VariableFree(program)
    ensures ParseContent(env, Serialize(program, single, schema).value, allowLists)
         == if OperandsEverywhere(program) then Done(CallsOf(program), []) else Fail
  {
    hide FaithfulEnv, ParseContent, AllInRange, OperandsEverywhere, AllHaveOperands, VariableFree;
    SerializeSucceeds(program, single, schema);
    var trees := Build(program, []);
    BuildWellFormed(program, []);
    BuildInOrder(program, []);
    BuildIsExecute(program, schema, []);
    assert PostOrderAll([]) + program == program;
    OperandsOfTrees(trees);
    if single {
      SingleRead(env, trees, schema, allowLists);
    } else {
      TreesNotEmpty(program, []);
      ListContentRead(env, trees, schema);
    }
  }

  lemma SingleRead(env: Env, trees: seq<Expr>, schema: bool, allowLists: bool)
    requires FaithfulEnv(env) && AllWellFormed(trees) && |trees| == 1 && AllInRange(PostOrderAll(trees))
    requires VariableFree(PostOrderAll(trees))
    ensures ParseContent(env, Flatten(EncodeAll(trees, schema)[0]), allowLists)
         == if AllHaveOperands(trees) then Done(CallsOf(PostOrderAll(trees)), []) else Fail
  {
    var e := trees[0];
    assert trees == [e] && PostOrderAll(trees) == PostOrder(e) by { PostOrderOne(e); }
    assert Flat(e, schema) + [] == Flat(e, schema);
    TreeRead(env, e, schema, [], allowLists);
  }

  lemma ListContentRead(env: Env, trees: seq<Expr>, schema: bool)
    requires FaithfulEnv(env) && AllWellFormed(trees) && trees != [] && AllInRange(PostOrderAll(trees))
    requires VariableFree(PostOrderAll(trees))
    ensures ParseContent(env, FlatAll(trees, schema), true)
         == if AllHaveOperands(trees) then Done(CallsOf(PostOrderAll(trees)), []) else Fail
  {
    ListIsRead(env, trees, schema);
    assert FlatAll(trees, schema) + [] == FlatAll(trees, schema);
    ListRead(env, trees, schema, []);
  }

  ghost predicate OperandsEverywhere(program: Program)
  {
    forall i :: 0 <= i < |program| && program[i].Operator? ==> program[i].nofOperands > 0
  }

  lemma {:induction false} OperandsOfTrees(es: seq<Expr>)
    requires AllWellFormed(es)
    ensures AllHaveOperands(es) <==> OperandsEverywhere(PostOrderAll(es))
    decreases es, 0
  {
    if es != [] {
      OperandsOfTree(es[0]);
      OperandsOfTrees(es[1..]);
      OperandsConcat(PostOrder(es[0]), PostOrderAll(es[1..]));
      assert forall i :: 0 < i < |es| ==> es[i] == es[1..][i - 1];
    }
  }

  lemma {:induction false} OperandsOfTree(e: Expr)
    requires WellFormed(e)
    ensures HasOperands(e) <==> OperandsEverywhere(PostOrder(e))
    decreases e, 1
  {
    if e.Node? {
      OperandsOfTrees(e.args);
      OperandsConcat(PostOrderAll(e.args), [e.op]);
      assert OperandsEverywhere([e.op]) <==> |e.args| > 0 by { assert [e.op][0] == e.op; }
    }
  }

  lemma OperandsConcat(a: Program, b: Program)
    ensures OperandsEverywhere(a + b) <==> OperandsEverywhere(a) && OperandsEverywhere(b)
  {
    assert forall i :: 0 <= i < |a| ==> a[i] == (a + b)[i];
    assert forall i :: 0 <= i < |b| ==> b[i] == (a + b)[|a| + i];
  }

  lemma {:induction false} TreesNotEmpty(program: Program, stk: seq<Expr>)
    requires HeightAfter(program, |stk|).Some? && VariableFree(program) && (program != [] || stk != [])
    ensures Build(program, stk) != []
    decreases program
  {
    if program != [] {
      VariableFreeTail(program);
      if program[0].Term? { TreesNotEmpty(program[1..], stk + [Leaf(program[0])]); }
      else { TreesNotEmpty(program[1..], Reduced(program[0], stk)); }
    }
  }

  /** The calls of a list without its number. */
  function ListCalls(r: Outcome<(nat, Calls)>): Outcome<Calls>
  {
    match r
    case Done((_, calls), rest) => Done(calls, rest)
    case Fail => Fail
    case Stuck => Stuck
  }

  lemma ListUnfolds(env: Env, ts: Tokens)
    requires |ts| >= 2 && ts[0] == Open && ts[1] != Name("variable")
    ensures ParseExpression(env, ts, true) == ListCalls(ParseList(env, ts))
  {
    assert ts[1..][0] == ts[1];
    PlainUnfolds(env, ts, ExpressionList, true);
  }

  /** A non-empty list of encoded trees is recognized as a list. */
  lemma ListIsRead(env: Env, es: seq<Expr>, schema: bool)
    requires FaithfulEnv(env) && AllWellFormed(es) && es != []
    ensures ParseExpression(env, FlatAll(es, schema), true) == ListCalls(ParseList(env, FlatAll(es, schema)))
  {
    FlatCons(es, schema);
    FirstToken(es[0], schema);
    var ts, first := FlatAll(es, schema), Flat(es[0], schema);
    assert ts[1] == first[0];
    ListUnfolds(env, ts);
  }

  lemma FirstToken(e: Expr, schema: bool)
    requires WellFormed(e)
    ensures Flat(e, schema) != [] && Flat(e, schema)[0] != Name("variable")
  {
    match e
    case Leaf(t) => FlatLeaf(t, schema);
    case Node(op, args) => FlatNode(e, schema);
  }

  // ---- what the query receives ----

  /** Events at the query behind a query expression builder. */
  datatype QueryEvent =
    | QueryTerm(termType: string, value: string, length: nat)
    | QueryJoin(op: string, argc: nat, range: int, cardinality: nat)
    | QueryVariable(name: string)

  /** The builder passes a term without length on with length one. */
  function QueryEvents(calls: Calls): seq<QueryEvent>
  {
    if calls == [] then []
    else (match calls[0]
          case PushTermLength(ty, v, len) => [QueryTerm(ty, v, len)]
          case PushTerm(ty, v) => [QueryTerm(ty, v, 1)]
          case PushExpression(op, argc, range, card) => [QueryJoin(op, argc, range, card)]
          case AttachVariable(name) => [QueryVariable(name)]
          case _ => [])
         + QueryEvents(calls[1..])
  }

  function ProgramEvents(p: Program): seq<QueryEvent>
  {
    if p == [] then []
    else (match p[0]
          case Term(ty, v, len) => [QueryTerm(ty, v, len)]
          case Operator(name, range, card, n) => [QueryJoin(name, n, range, card)]
          case Variable(name) => [QueryVariable(name)])
         + ProgramEvents(p[1..])
  }

  ghost predicate LengthsPositive(p: Program)
  {
    forall i :: 0 <= i < |p| && p[i].Term? ==> p[i].length >= 1
  }

  /** The query gets the terms and joins of the program exactly if no term has length zero. */
  lemma {:induction false} EventsAreKept(p: Program)
    requires VariableFree(p)
    ensures QueryEvents(CallsOf(p)) == ProgramEvents(p) <==> LengthsPositive(p)
    ensures |QueryEvents(CallsOf(p))| == |ProgramEvents(p)| == |p|
  {
    if p != [] {
      VariableFreeTail(p);
      EventsAreKept(p[1..]);
      var q, e := QueryEvents(CallsOf(p)), ProgramEvents(p);
      assert CallsOf(p)[1..] == CallsOf(p[1..]);
      assert q[1..] == QueryEvents(CallsOf(p[1..])) && e[1..] == ProgramEvents(p[1..]);
      assert q == e <==> q[0] == e[0] && q[1..] == e[1..] by {
        if q[0] == e[0] && q[1..] == e[1..] { assert q == [q[0]] + q[1..] && e == [e[0]] + e[1..]; }
      }
      assert LengthsPositive(p) <==> (p[0].Term? ==> p[0].length >= 1) && LengthsPositive(p[1..]) by {
        assert forall i :: 0 < i < |p| ==> p[i] == p[1..][i - 1];
      }
    }
  }
}
