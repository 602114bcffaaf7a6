/** The trees described by postfix programs, and what the serializer writes for them. */
module ExpressionTrees {
  import opened Wrappers
  import opened Serialization
  import opened ExpressionParser
  import opened ExpressionSerializer
  import Keywords = ExpressionKeywords

  /** The expression trees that the postfix instructions describe. */
  datatype Expr = Leaf(term: Instruction) | Node(op: Instruction, args: seq<Expr>)

  ghost predicate WellFormed(e: Expr)
    decreases e, 1
  {
    match e
    case Leaf(t) => t.Term?
    case Node(op, args) => op.Operator? && op.nofOperands == |args| && AllWellFormed(args)
  }

  ghost predicate AllWellFormed(es: seq<Expr>)
    decreases es, 0
  {
    forall i :: 0 <= i < |es| ==> WellFormed(es[i])
  }

  /** The numbers fit into the integer types of the program structures. */
  ghost predicate InRange(i: Instruction)
  {
    match i
    case Term(_, _, len) => len <= UINT_MAX
    case Operator(_, range, card, _) => INT_MIN <= range <= INT_MAX && card <= UINT_MAX
    case Variable(_) => true
  }

  ghost predicate AllInRange(p: Program)
  {
    forall i :: 0 <= i < |p| ==> InRange(p[i])
  }

  function PostOrder(e: Expr): Program
    decreases e, 1
  {
    match e
    case Leaf(t) => [t]
    case Node(op, args) => PostOrderAll(args) + [op]
  }

  function PostOrderAll(es: seq<Expr>): Program
    decreases es, 0
  {
    if es == [] then [] else PostOrder(es[0]) + PostOrderAll(es[1..])
  }

  /** No operator without operands. */
  ghost predicate HasOperands(e: Expr)
    decreases e, 1
  {
    e.Node? ==> |e.args| > 0 && AllHaveOperands(e.args)
  }

  ghost predicate AllHaveOperands(es: seq<Expr>)
    decreases es, 0
  {
    forall i :: 0 <= i < |es| ==> HasOperands(es[i])
  }

  function Encode(e: Expr, schema: bool): Tokens
    requires WellFormed(e)
    decreases e, 1
  {
    match e
    case Leaf(t) => SerializeTerm(t, None, schema)
    case Node(op, args) => SerializeOperator(op, AsValues(EncodeAll(args, schema)), None, schema)
  }

  function EncodeAll(es: seq<Expr>, schema: bool): (r: seq<Tokens>)
    requires AllWellFormed(es)
    ensures |r| == |es|
    decreases es, 0
  {
    seq(|es|, i requires 0 <= i < |es| => Encode(es[i], schema))
  }

  // ---- the trees of a program ----

  /** The stack of trees after some instructions. */
  function Build(program: Program, stk: seq<Expr>): seq<Expr>
    requires HeightAfter(program, |stk|).Some?
    decreases program
  {
    if program == [] then stk
    else match program[0]
         case Term(_, _, _) => Build(program[1..], stk + [Leaf(program[0])])
         case Operator(_, _, _, n) => Build(program[1..], Reduced(program[0], stk))
         case Variable(_) => Build(program[1..], stk)
  }

  lemma {:induction false} PostOrderConcat(a: seq<Expr>, b: seq<Expr>)
    ensures PostOrderAll(a + b) == PostOrderAll(a) + PostOrderAll(b)
  {
    if a == [] {
      assert a + b == b;
    } else {
      assert (a + b)[1..] == a[1..] + b;
      PostOrderConcat(a[1..], b);
    }
  }

  lemma PostOrderOne(e: Expr)
    ensures PostOrderAll([e]) == PostOrder(e)
  {
    assert [e][1..] == [];
  }

  lemma {:induction false} BuildWellFormed(program: Program, stk: seq<Expr>)
    requires VariableFree(program) && AllWellFormed(stk) && HeightAfter(program, |stk|).Some?
    ensures AllWellFormed(Build(program, stk))
    decreases program
  {
    if program != [] {
      VariableFreeTail(program);
      if program[0].Term? {
        BuildWellFormed(program[1..], stk + [Leaf(program[0])]);
      } else {
        BuildWellFormed(program[1..], Reduced(program[0], stk));
      }
    }
  }

  /** The trees hold the instructions in order. */
  lemma {:induction false} BuildInOrder(program: Program, stk: seq<Expr>)
    requires VariableFree(program) && HeightAfter(program, |stk|).Some?
    ensures PostOrderAll(Build(program, stk)) == PostOrderAll(stk) + program
    decreases program
  {
    if program != [] {
      VariableFreeTail(program);
      var grown := if program[0].Term? then stk + [Leaf(program[0])] else Reduced(program[0], stk);
      PostOrderGrows(program[0], stk);
      BuildInOrder(program[1..], grown);
      Regroup(PostOrderAll(stk), program);
    }
  }

  /** The serializer works on the encodings of the trees. */
  lemma {:induction false} BuildIsExecute(program: Program, schema: bool, stk: seq<Expr>)
    requires VariableFree(program) && AllWellFormed(stk) && HeightAfter(program, |stk|).Some?
    requires AllWellFormed(Build(program, stk))
    ensures Execute(program, schema, EncodeAll(stk, schema)) == Some(EncodeAll(Build(program, stk), schema))
    decreases program
  {
    if program != [] {
      VariableFreeTail(program);
      if program[0].Term? {
        TermUnfolds(program, schema, EncodeAll(stk, schema));
        EncodeTerm(program[0], schema, stk);
        BuildIsExecute(program[1..], schema, stk + [Leaf(program[0])]);
      } else {
        OperatorUnfolds(program, schema, EncodeAll(stk, schema));
        EncodeOperator(program[0], schema, stk);
        BuildIsExecute(program[1..], schema, Reduced(program[0], stk));
      }
    }
  }

  lemma VariableFreeTail(program: Program)
    requires VariableFree(program) && program != []
    ensures !program[0].Variable? && VariableFree(program[1..])
  {
    assert forall j :: 0 <= j < |program| - 1 ==> program[1..][j] == program[j + 1];
  }

  lemma TermUnfolds(program: Program, schema: bool, sers: seq<Tokens>)
    requires VariableFree(program) && program != [] && program[0].Term?
    ensures Execute(program, schema, sers)
         == Execute(program[1..], schema, sers + [SerializeTerm(program[0], None, schema)])
  {
    if |program| > 1 { assert program[1..][0] == program[1]; }
  }

  lemma OperatorUnfolds(program: Program, schema: bool, sers: seq<Tokens>)
    requires VariableFree(program) && program != [] && program[0].Operator? && program[0].nofOperands <= |sers|
    ensures var k := |sers| - program[0].nofOperands;
      Execute(program, schema, sers)
        == Execute(program[1..], schema, sers[..k] + [SerializeOperator(program[0], AsValues(sers[k..]), None, schema)])
  {
    if |program| > 1 { assert program[1..][0] == program[1]; }
  }

  lemma Regroup(p: Program, program: Program)
    requires program != []
    ensures p + [program[0]] + program[1..] == p + program
  {
  }

  /** The stack of trees after an operator. */
  function Reduced(op: Instruction, stk: seq<Expr>): seq<Expr>
    requires op.Operator? && op.nofOperands <= |stk|
  {
    stk[..|stk| - op.nofOperands] + [Node(op, stk[|stk| - op.nofOperands..])]
  }

  lemma EncodeTerm(t: Instruction, schema: bool, stk: seq<Expr>)
    requires t.Term? && AllWellFormed(stk)
    ensures AllWellFormed(stk + [Leaf(t)])
    ensures EncodeAll(stk + [Leaf(t)], schema) == EncodeAll(stk, schema) + [SerializeTerm(t, None, schema)]
  {
  }

  lemma EncodeOperator(op: Instruction, schema: bool, stk: seq<Expr>)
    requires op.Operator? && op.nofOperands <= |stk| && AllWellFormed(stk)
    ensures AllWellFormed(Reduced(op, stk))
    ensures var k, sers := |stk| - op.nofOperands, EncodeAll(stk, schema);
            EncodeAll(Reduced(op, stk), schema)
            == sers[..k] + [SerializeOperator(op, AsValues(sers[k..]), None, schema)]
  {
    var k := |stk| - op.nofOperands;
    assert EncodeAll(stk, schema)[k..] == EncodeAll(stk[k..], schema);
  }

  lemma PostOrderGrows(i: Instruction, stk: seq<Expr>)
    requires i.Operator? ==> i.nofOperands <= |stk|
    ensures i.Term? ==> PostOrderAll(stk + [Leaf(i)]) == PostOrderAll(stk) + [i]
    ensures i.Operator? ==> PostOrderAll(Reduced(i, stk)) == PostOrderAll(stk) + [i]
  {
    if i.Term? {
      PostOrderConcat(stk, [Leaf(i)]);
      PostOrderOne(Leaf(i));
    } else if i.Operator? {
      PostOrderReduced(i, stk[..|stk| - i.nofOperands], stk[|stk| - i.nofOperands..]);
      assert stk == stk[..|stk| - i.nofOperands] + stk[|stk| - i.nofOperands..];
    }
  }

  lemma PostOrderReduced(op: Instruction, a: seq<Expr>, b: seq<Expr>)
    requires op.Operator?
    ensures PostOrderAll(a + [Node(op, b)]) == PostOrderAll(a + b) + [op]
  {
    PostOrderConcat(a, b);
    PostOrderConcat(a, [Node(op, b)]);
    PostOrderOne(Node(op, b));
    assert PostOrderAll(a) + (PostOrderAll(b) + [op]) == PostOrderAll(a) + PostOrderAll(b) + [op];
  }

  // ---- the flattened encodings ----

  ghost predicate IsFlat(ts: Tokens)
  {
    forall i :: 0 <= i < |ts| ==> !(ts[i].Val? && ts[i].v.Ser?)
  }

  lemma {:induction false} FlattenFlat(ts: Tokens)
    requires IsFlat(ts)
    ensures Flatten(ts) == ts
  {
    if ts != [] {
      assert IsFlat(ts[1..]) by { assert forall i :: 0 <= i < |ts[1..]| ==> ts[1..][i] == ts[i + 1]; }
      FlattenFlat(ts[1..]);
    }
  }

  function Flat(e: Expr, schema: bool): Tokens
    requires WellFormed(e)
  {
    Flatten(Encode(e, schema))
  }

  function FlatAll(es: seq<Expr>, schema: bool): Tokens
    requires AllWellFormed(es)
  {
    Flatten(AsValues(EncodeAll(es, schema)))
  }

  lemma FlatLeaf(t: Instruction, schema: bool)
    requires t.Term?
    ensures Flat(Leaf(t), schema) == SerializeTerm(t, None, schema)
  {
    FlattenFlat(SerializeTerm(t, None, schema));
  }

  /** The flattened members of an operator over flattened arguments. */
  function Members(op: Instruction, args: Tokens): Tokens
    requires op.Operator?
  {
    OperatorHead(op) + ([Name("arg"), Open] + (args + [Close]))
  }

  lemma FlatNode(e: Expr, schema: bool)
    requires WellFormed(e) && e.Node?
    ensures Flat(e, schema)
         == if schema then [Name("expression"), Open] + (Members(e.op, FlatAll(e.args, schema)) + [Close])
                               else Members(e.op, FlatAll(e.args, schema))
  {
    var args := AsValues(EncodeAll(e.args, schema));
    var inner := OperatorTokens(e.op, args, None);
    var head := OperatorHead(e.op) + [Name("arg"), Open];
    assert inner == head + (args + [Close]);
    FlattenConcat(head, args + [Close]);
    FlattenConcat(args, [Close]);
    FlattenFlat(head);
    FlattenFlat([Close]);
    assert Flatten(inner) == Members(e.op, FlatAll(e.args, schema));
    if schema {
      assert Encode(e, schema) == [Name("expression"), Open] + (inner + [Close]);
      FlattenConcat([Name("expression"), Open], inner + [Close]);
      FlattenConcat(inner, [Close]);
      FlattenFlat([Name("expression"), Open]);
    }
  }

  lemma FlatCons(es: seq<Expr>, schema: bool)
    requires AllWellFormed(es) && es != []
    ensures FlatAll(es, schema) == [Open] + Flat(es[0], schema) + [Close] + FlatAll(es[1..], schema)
  {
    var first, rest := Val(Ser(Encode(es[0], schema))), AsValues(EncodeAll(es[1..], schema));
    var sers := EncodeAll(es, schema);
    assert sers[1..] == EncodeAll(es[1..], schema);
    assert AsValues(sers) == [first] + rest;
    FlattenConcat([first], rest);
    assert [first][1..] == [];
    assert Flatten([first]) == FlattenToken(first) + [];
  }

  // ---- the calls of a program ----

  function CallOf(i: Instruction): Call
    requires !i.Variable?
  {
    match i
    case Term(ty, v, len) => if len > 1 then PushTermLength(ty, v, len) else PushTerm(ty, v)
    case Operator(name, range, card, n) => PushExpression(name, n, range, card)
  }

  function CallsOf(p: Program): Calls
    requires VariableFree(p)
  {
    if p == [] then [] else [CallOf(p[0])] + CallsOf(p[1..])
  }

  lemma {:induction false} CallsConcat(a: Program, b: Program)
    requires VariableFree(a) && VariableFree(b) && VariableFree(a + b)
    ensures CallsOf(a + b) == CallsOf(a) + CallsOf(b)
  {
    if a == [] {
      assert a + b == b;
    } else {
      assert (a + b)[1..] == a[1..] + b && (a + b)[0] == a[0];
      VariableFreeTail(a);
      VariableFreeTail(a + b);
      CallsConcat(a[1..], b);
    }
  }

  lemma {:induction false} TreesAreVariableFree(es: seq<Expr>)
    requires AllWellFormed(es)
    ensures VariableFree(PostOrderAll(es))
    decreases es, 0
  {
    if es != [] {
      TreeIsVariableFree(es[0]);
      TreesAreVariableFree(es[1..]);
    }
  }

  lemma {:induction false} TreeIsVariableFree(e: Expr)
    requires WellFormed(e)
    ensures VariableFree(PostOrder(e))
    decreases e, 1
  {
    if e.Node? { TreesAreVariableFree(e.args); }
  }

  // ---- the names that the serializer writes ----

  lemma ExpressionKeywords(env: Env)
    requires FaithfulEnv(env)
    ensures env.index(ExpressionNames, "expression") == 0
    ensures env.index(ExpressionNames, "term") == 1
  {
    assert Keywords.FindsNames(env);
    hide FaithfulEnv, Keywords.FindsNames;
    Keywords.Keyword(env, ExpressionNames, 0);
    Keywords.Keyword(env, ExpressionNames, 1);
  }

  lemma OpIsNoExpressionKeyword(env: Env)
    requires FaithfulEnv(env)
    ensures env.index(ExpressionNames, "op") < 0
  {
    assert Keywords.FindsNames(env);
    hide FaithfulEnv, Keywords.FindsNames;
    Keywords.NoExpressionName(env, 4);
  }

  lemma TypeKeywords(env: Env)
    requires FaithfulEnv(env)
    ensures env.index(TypeNames, "op") == 4
  {
    assert Keywords.FindsNames(env);
    hide FaithfulEnv, Keywords.FindsNames;
    Keywords.Keyword(env, TypeNames, 4);
  }

  lemma JoinKeywords(env: Env)
    requires FaithfulEnv(env)
    ensures env.index(JoinNames, "op") == 1 && env.index(JoinNames, "range") == 2
    ensures env.index(JoinNames, "cardinality") == 3 && env.index(JoinNames, "arg") == 4
  {
    assert Keywords.FindsNames(env);
    hide FaithfulEnv, Keywords.FindsNames;
    Keywords.Keyword(env, JoinNames, 1);
    Keywords.Keyword(env, JoinNames, 2);
    Keywords.Keyword(env, JoinNames, 3);
    Keywords.Keyword(env, JoinNames, 4);
  }
}
