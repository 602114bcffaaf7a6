/** The expression builders that the reader drives: the one of a query and the one of posting iterators. */
module ExpressionBuilders {
  import opened Wrappers
  import opened Serialization
  import opened ExpressionParser
  import opened ExpressionSerializer
  import opened ExpressionTrees
  import Discipline = ExpressionDiscipline
  import RoundTrips = ExpressionRoundTrip

  // ---- the builder of a query ----

  datatype QueryState = QueryState(stackSize: int, events: seq<RoundTrips.QueryEvent>)

  /** One call to the query builder; none if it throws. */
  function QueryStep(st: QueryState, call: Call, operators: set<string>): Option<QueryState>
  {
    match call
    case PushTermLength(ty, v, len) =>
      Some(QueryState(st.stackSize + 1, st.events + [RoundTrips.QueryTerm(ty, v, len)]))
    case PushTerm(ty, v) => Some(QueryState(st.stackSize + 1, st.events + [RoundTrips.QueryTerm(ty, v, 1)]))
    case PushExpression(op, argc, range, card) =>
      if op in operators
      then Some(QueryState(st.stackSize - argc + 1, st.events + [RoundTrips.QueryJoin(op, argc, range, card)]))
      else None
    case AttachVariable(name) => Some(st.(events := st.events + [RoundTrips.QueryVariable(name)]))
    case _ => None
  }

  function QueryRun(st: QueryState, calls: Calls, operators: set<string>): Option<QueryState>
    decreases calls
  {
    if calls == [] then Some(st)
    else match QueryStep(st, calls[0], operators)
         case None => None
         case Some(next) => QueryRun(next, calls[1..], operators)
  }

  /** The builder counts its stack as the calls change it. */
  lemma {:induction false} QueryCounts(st: QueryState, calls: Calls, operators: set<string>, height: nat)
    requires QueryRun(st, calls, operators).Some? && Discipline.StackAfter(calls, height).Height?
    ensures QueryRun(st, calls, operators).value.stackSize - st.stackSize
         == Discipline.StackAfter(calls, height).value - height
    ensures QueryRun(st, calls, operators).value.events == st.events + RoundTrips.QueryEvents(calls)
    decreases calls
  {
    if calls != [] {
      var next := QueryStep(st, calls[0], operators).value;
      var h := match calls[0]
               case PushExpression(_, argc, _, _) => height - argc + 1
               case AttachVariable(_) => height
               case _ => height + 1;
      QueryCounts(next, calls[1..], operators, h);
    }
  }

  /** A query takes terms with a value, joins with a known operator and variables, and refuses everything else. */
  lemma {:induction false} QueryTakes(st: QueryState, calls: Calls, operators: set<string>)
    ensures QueryRun(st, calls, operators).Some? <==>
              forall c :: c in calls ==>
                c.PushTermLength? || c.PushTerm? || c.AttachVariable? || (c.PushExpression? && c.op in operators)
    decreases calls
  {
    if calls != [] {
      assert forall c :: c in calls <==> c == calls[0] || c in calls[1..];
      var next := QueryStep(st, calls[0], operators);
      if next.Some? { QueryTakes(next.value, calls[1..], operators); }
    }
  }

  /** Reading one expression into a query adds exactly one to its stack size, whatever the tokens were. */
  lemma QueryGrowsByOne(env: Env, ts: Tokens, st: QueryState, operators: set<string>)
    requires ParseExpression(env, ts, false).Done?
    requires QueryRun(st, ParseExpression(env, ts, false).value, operators).Some?
    ensures QueryRun(st, ParseExpression(env, ts, false).value, operators).value.stackSize == st.stackSize + 1
  {
    Discipline.ExpressionDisciplined(env, ts, 0);
    QueryCounts(st, ParseExpression(env, ts, false).value, operators, 0);
  }

  class QueryExpressionBuilder {
    const operators: set<string>
    var stackSize: int
    var events: seq<RoundTrips.QueryEvent>

    ghost function State(): QueryState
      reads this
    {
      QueryState(stackSize, events)
    }

    constructor (operators: set<string>)
      ensures this.operators == operators && State() == QueryState(0, [])
    {
      this.operators := operators;
      stackSize := 0;
      events := [];
    }

    /** A call of the reader; false stands for an exception. */
    method Receive(call: Call) returns (ok: bool)
      modifies this
      ensures ok <==> QueryStep(old(State()), call, operators).Some?
      ensures ok ==> State() == QueryStep(old(State()), call, operators).value
    {
      match call {
        case PushTermLength(ty, v, len) =>
          stackSize := stackSize + 1;
          events := events + [RoundTrips.QueryTerm(ty, v, len)];
          return true;
        case PushTerm(ty, v) =>
          stackSize := stackSize + 1;
          events := events + [RoundTrips.QueryTerm(ty, v, 1)];
          return true;
        case PushType(_) =>
          stackSize := stackSize + 1;
          return false;
        case PushExpression(op, argc, range, card) =>
          if op !in operators { return false; }
          stackSize := stackSize - argc + 1;
          events := events + [RoundTrips.QueryJoin(op, argc, range, card)];
          return true;
        case AttachVariable(name) =>
          events := events + [RoundTrips.QueryVariable(name)];
          return true;
        case DefineFeature(_, _) =>
          return false;
      }
    }
  }

  // ---- the builder of posting iterators ----

  datatype Posting =
    | TermPosting(termType: string, value: string, length: nat)
    | JoinPosting(op: string, args: seq<Posting>, range: int, cardinality: nat)

  /** What the storage can do: the join operators that it knows, and the iterators whose creation succeeds. */
  datatype Storage = Storage(operators: set<string>, creates: Posting -> bool)

  function Pushed(stk: seq<Posting>, p: Posting, storage: Storage): Option<seq<Posting>>
  {
    if storage.creates(p) then Some(stk + [p]) else None
  }

  function PostingStep(stk: seq<Posting>, call: Call, storage: Storage): Option<seq<Posting>>
  {
    match call
    case PushTermLength(ty, v, len) => Pushed(stk, TermPosting(ty, v, len), storage)
    case PushTerm(ty, v) => Pushed(stk, TermPosting(ty, v, 1), storage)
    case PushExpression(op, argc, range, card) =>
      if argc > |stk| || op !in storage.operators then None
      else Pushed(stk[..|stk| - argc], JoinPosting(op, stk[|stk| - argc..], range, card), storage)
    case _ => None
  }

  function PostingRun(stk: seq<Posting>, calls: Calls, storage: Storage): Option<seq<Posting>>
    decreases calls
  {
    if calls == [] then Some(stk)
    else match PostingStep(stk, calls[0], storage)
         case None => None
         case Some(next) => PostingRun(next, calls[1..], storage)
  }

  lemma {:induction false} PostingCounts(stk: seq<Posting>, calls: Calls, storage: Storage)
    requires PostingRun(stk, calls, storage).Some?
    ensures Discipline.StackAfter(calls, |stk|) == Discipline.Height(|PostingRun(stk, calls, storage).value|)
    decreases calls
  {
    if calls != [] { PostingCounts(PostingStep(stk, calls[0], storage).value, calls[1..], storage); }
  }

  /** Iterators are built of terms with a value and of joins with a known operator only. */
  lemma {:induction false} PostingTakes(stk: seq<Posting>, calls: Calls, storage: Storage)
    requires PostingRun(stk, calls, storage).Some?
    ensures forall c :: c in calls ==>
              c.PushTermLength? || c.PushTerm? || (c.PushExpression? && c.op in storage.operators)
    decreases calls
  {
    if calls != [] {
      assert forall c :: c in calls <==> c == calls[0] || c in calls[1..];
      PostingTakes(PostingStep(stk, calls[0], storage).value, calls[1..], storage);
    }
  }

  lemma {:induction false} PostingConcat(stk: seq<Posting>, a: Calls, b: Calls, storage: Storage)
    ensures PostingRun(stk, a + b, storage)
         == match PostingRun(stk, a, storage) case None => None case Some(s) => PostingRun(s, b, storage)
    decreases a
  {
    if a == [] {
      assert a + b == b;
    } else {
      assert (a + b)[1..] == a[1..] + b;
      var next := PostingStep(stk, a[0], storage);
      if next.Some? { PostingConcat(next.value, a[1..], b, storage); }
    }
  }

  /** The iterator of a single expression. */
  function Pop(stk: seq<Posting>): Option<Posting>
  {
    if |stk| == 1 then Some(stk[0]) else None
  }

  /** After one expression, the builder has exactly one iterator to give, whatever the tokens were. */
  lemma PopSucceeds(env: Env, ts: Tokens, storage: Storage)
    requires ParseExpression(env, ts, false).Done?
    requires PostingRun([], ParseExpression(env, ts, false).value, storage).Some?
    ensures Pop(PostingRun([], ParseExpression(env, ts, false).value, storage).value).Some?
  {
    Discipline.ExpressionDisciplined(env, ts, 0);
    PostingCounts([], ParseExpression(env, ts, false).value, storage);
  }

  /** The iterator that a tree describes. */
  function PostingOf(e: Expr): Posting
    requires WellFormed(e)
    decreases e, 1
  {
    match e
    case Leaf(t) => TermPosting(t.termType, t.value, if t.length > 1 then t.length else 1)
    case Node(op, args) => JoinPosting(op.name, PostingsOf(args), op.range, op.cardinality)
  }

  function PostingsOf(es: seq<Expr>): (r: seq<Posting>)
    requires AllWellFormed(es)
    ensures |r| == |es|
    decreases es, 0
  {
    seq(|es|, i requires 0 <= i < |es| => PostingOf(es[i]))
  }

  /** All iterators of a tree are created, and its operators are known. */
  ghost predicate Creatable(e: Expr, storage: Storage)
    requires WellFormed(e)
    decreases e, 1
  {
    && storage.creates(PostingOf(e))
    && (e.Node? ==> e.op.name in storage.operators && AllCreatable(e.args, storage))
  }

  ghost predicate AllCreatable(es: seq<Expr>, storage: Storage)
    requires AllWellFormed(es)
    decreases es, 0
  {
    forall i :: 0 <= i < |es| ==> Creatable(es[i], storage)
  }

  /** The calls of a tree leave its iterator on the stack exactly if all iterators of the tree are created. */
  lemma {:induction false} TreePosting(e: Expr, stk: seq<Posting>, storage: Storage)
    requires WellFormed(e)
    ensures VariableFree(PostOrder(e))
    ensures PostingRun(stk, CallsOf(PostOrder(e)), storage)
         == if Creatable(e, storage) then Some(stk + [PostingOf(e)]) else None
    decreases e, 1
  {
    TreeIsVariableFree(e);
    match e
    case Leaf(t) =>
      RoundTrips.LeafCalls(t);
    case Node(op, args) =>
      RoundTrips.NodeCalls(e);
      TreesPostings(args, stk, storage);
      PostingConcat(stk, CallsOf(PostOrderAll(args)), [CallOf(op)], storage);
      if AllCreatable(args, storage) { JoinPushed(op, args, stk, storage); }
  }

  lemma JoinPushed(op: Instruction, args: seq<Expr>, stk: seq<Posting>, storage: Storage)
    requires WellFormed(Node(op, args))
    ensures PostingRun(stk + PostingsOf(args), [CallOf(op)], storage)
         == if op.name in storage.operators && storage.creates(PostingOf(Node(op, args)))
            then Some(stk + [PostingOf(Node(op, args))]) else None
  {
    var grown := stk + PostingsOf(args);
    assert grown[..|grown| - |args|] == stk && grown[|grown| - |args|..] == PostingsOf(args);
    assert [CallOf(op)][1..] == [];
  }

  lemma {:induction false} TreesPostings(es: seq<Expr>, stk: seq<Posting>, storage: Storage)
    requires AllWellFormed(es)
    ensures VariableFree(PostOrderAll(es))
    ensures PostingRun(stk, CallsOf(PostOrderAll(es)), storage)
         == if AllCreatable(es, storage) then Some(stk + PostingsOf(es)) else None
    decreases es, 0
  {
    TreesAreVariableFree(es);
    if es == [] {
      assert stk + [] == stk;
    } else {
      var p, q := PostOrder(es[0]), PostOrderAll(es[1..]);
      TreePosting(es[0], stk, storage);
      TreesPostings(es[1..], stk + [PostingOf(es[0])], storage);
      CallsConcat(p, q);
      PostingConcat(stk, CallsOf(p), CallsOf(q), storage);
      assert stk + [PostingOf(es[0])] + PostingsOf(es[1..]) == stk + PostingsOf(es);
      CreatableSplit(es, storage);
    }
  }

  lemma CreatableSplit(es: seq<Expr>, storage: Storage)
    requires es != [] && AllWellFormed(es)
    ensures AllCreatable(es, storage) <==> Creatable(es[0], storage) && AllCreatable(es[1..], storage)
  {
    assert forall i :: 0 < i < |es| ==> es[i] == es[1..][i - 1];
  }

  /** The meaning of an expression survives: reading the serialization of a single tree builds the iterator that the
      tree describes, exactly if all of its iterators can be created. */
  lemma SerializedMeaning(env: Env, e: Expr, schema: bool, storage: Storage)
    requires FaithfulEnv(env) && WellFormed(e) && AllInRange(PostOrder(e)) && HasOperands(e)
    ensures var r := ParseContent(env, Flat(e, schema), false);
            && r.Done? && (PostingRun([], r.value, storage).Some? <==> Creatable(e, storage))
            && (Creatable(e, storage) ==> Pop(PostingRun([], r.value, storage).value) == Some(PostingOf(e)))
  {
    assert Flat(e, schema) + [] == Flat(e, schema);
    RoundTrips.TreeRead(env, e, schema, [], false);
    TreePosting(e, [], storage);
    assert [] + [PostingOf(e)] == [PostingOf(e)];
  }

  class PostingsExpressionBuilder {
    const storage: Storage
    var stack: seq<Posting>

    constructor (storage: Storage)
      ensures this.storage == storage && stack == []
    {
      this.storage := storage;
      stack := [];
    }

    /** A call of the reader; false stands for an exception. */
    method Receive(call: Call) returns (ok: bool)
      modifies this
      ensures ok <==> PostingStep(old(stack), call, storage).Some?
      ensures stack == if ok then PostingStep(old(stack), call, storage).value else old(stack)
    {
      match call {
        case PushTermLength(ty, v, len) =>
          if !storage.creates(TermPosting(ty, v, len)) { return false; }
          stack := stack + [TermPosting(ty, v, len)];
          return true;
        case PushTerm(ty, v) =>
          if !storage.creates(TermPosting(ty, v, 1)) { return false; }
          stack := stack + [TermPosting(ty, v, 1)];
          return true;
        case PushExpression(op, argc, range, card) =>
          if argc > |stack| { return false; }
          if op !in storage.operators { return false; }
          var args := stack[|stack| - argc..];
          if !storage.creates(JoinPosting(op, args, range, card)) { return false; }
          stack := stack[..|stack| - argc];
          stack := stack + [JoinPosting(op, args, range, card)];
          return true;
        case _ =>
          return false;
      }
    }

    /** Takes the result; nothing but one iterator on the stack is an error. */
    method TakeResult() returns (r: Option<Posting>)
      modifies this
      ensures r == Pop(old(stack))
      ensures old(stack) != [] ==> stack == old(stack)[..|old(stack)| - 1]
    {
      if stack == [] { return None; }
      var top := stack[|stack| - 1];
      stack := stack[..|stack| - 1];
      if stack != [] { return None; }
      return Some(top);
    }
  }
}
