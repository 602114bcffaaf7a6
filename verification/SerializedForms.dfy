module SerializedForms {

  // The form in which the serializer writes the expressions of a program.

  import opened Wrappers
  import opened Serialization
  import opened ExpressionSerializer
  import opened ExpressionTrees
  import Forms = ExpressionForms
  import RoundTrips = ExpressionRoundTrip

  /** The members of an operator and its arguments. */
  function MembersOf(op: Instruction, args: seq<Forms.Form>): seq<Forms.JoinMember>
    requires op.Operator?
  {
    [Forms.OpIs(Str(op.name))]
    + ((if op.range != 0 then [Forms.RangeIs(Int(op.range))] else [])
    + ((if op.cardinality != 0 then [Forms.CardinalityIs(Int(op.cardinality))] else [])
    + [Forms.ArgIs(Forms.Listed(false, args))]))
  }

  /** A term in its places, an operator with named members and its arguments as a list; with a schema, both have
      their keyword. What has its default is left out. */
  function FormOf(e: Expr, schema: bool): Forms.Form
    requires WellFormed(e)
    decreases e, 1
  {
    match e
    case Leaf(t) =>
      Forms.TermByValues(schema, None, Str(t.termType), if t.length > 1 then Forms.Measured(Str(t.value), Int(t.length))
                                                         else Forms.Valued(Str(t.value)))
    case Node(op, args) =>
      Forms.JoinByNames(schema, MembersOf(op, FormsOf(args, schema)))
  }

  function FormsOf(es: seq<Expr>, schema: bool): (r: seq<Forms.Form>)
    requires AllWellFormed(es)
    ensures |r| == |es|
    decreases es, 0
  {
    seq(|es|, i requires 0 <= i < |es| => FormOf(es[i], schema))
  }

  lemma LeafIsWritten(t: Instruction, schema: bool, rest: Tokens)
    requires t.Term?
    ensures Flat(Leaf(t), schema) + rest == Forms.Write(FormOf(Leaf(t), schema), rest)
  {
    hide TermTokens, Forms.WriteBody, Flat;
    FlatLeaf(t, schema);
    TermIsWritten(t, schema, if schema then [Close] + rest else rest);
    if schema {
      assert SerializeTerm(t, None, schema) + rest
          == [Name("term")] + ([Open] + (TermTokens(t, None) + ([Close] + rest)));
    }
  }

  lemma TermIsWritten(t: Instruction, schema: bool, behind: Tokens)
    requires t.Term?
    ensures Forms.WriteBody(FormOf(Leaf(t), schema), behind) == TermTokens(t, None) + behind
  {
    var f := FormOf(Leaf(t), schema);
    assert Forms.WriteBody(f, behind) == [Val(Str(t.termType))] + Forms.WriteBehind(f.behind, behind);
  }

  /** A member in front of others, or none. */
  lemma OptionalWritten(there: bool, x: Forms.JoinMember, l: seq<Forms.JoinMember>, rest: Tokens)
    requires !x.ArgIs?
    ensures Forms.WriteJoinMembers((if there then [x] else []) + l, rest)
         == (if there then [Name(Forms.JoinName(x)), Val(x.v)] else []) + Forms.WriteJoinMembers(l, rest)
  {
    hide Forms.Write;
    if there {
      assert ([x] + l)[1..] == l;
      assert Forms.WriteJoinMember(x, Forms.WriteJoinMembers(l, rest))
          == [Name(Forms.JoinName(x)), Val(x.v)] + Forms.WriteJoinMembers(l, rest);
    } else {
      assert [] + l == l;
    }
  }

  lemma LastWritten(x: Forms.JoinMember, rest: Tokens)
    ensures Forms.WriteJoinMembers([x], rest) == Forms.WriteJoinMember(x, rest)
  {
    hide Forms.WriteJoinMember;
    assert [x][1..] == [];
  }

  lemma OptionsAreWritten(op: Instruction, args: seq<Forms.Form>, rest: Tokens)
    requires op.Operator?
    ensures var arg := Forms.WriteJoinMember(Forms.ArgIs(Forms.Listed(false, args)), rest);
            Forms.WriteJoinMembers(MembersOf(op, args), rest) == OperatorHead(op) + arg
  {
    hide Forms.WriteJoinMembers, Forms.WriteJoinMember;
    var last := [Forms.ArgIs(Forms.Listed(false, args))];
    var arg := Forms.WriteJoinMember(last[0], rest);
    var cardinality, range := Forms.CardinalityIs(Int(op.cardinality)), Forms.RangeIs(Int(op.range));
    var cards := (if op.cardinality != 0 then [cardinality] else []) + last;
    LastWritten(last[0], rest);
    OptionalWritten(op.cardinality != 0, cardinality, last, rest);
    OptionalWritten(op.range != 0, range, cards, rest);
    OptionalWritten(true, Forms.OpIs(Str(op.name)), (if op.range != 0 then [range] else []) + cards, rest);
    HeadTokens(op, arg);
  }

  lemma HeadTokens(op: Instruction, arg: Tokens)
    requires op.Operator?
    ensures OperatorHead(op) + arg
         == [Name("op"), Val(Str(op.name))]
            + ((if op.range != 0 then [Name("range"), Val(Int(op.range))] else [])
            + ((if op.cardinality != 0 then [Name("cardinality"), Val(Int(op.cardinality))] else []) + arg))
  {
  }

  lemma {:induction false} TreeIsWritten(e: Expr, schema: bool, rest: Tokens)
    requires WellFormed(e)
    ensures Flat(e, schema) + rest == Forms.Write(FormOf(e, schema), rest)
    decreases e, 1
  {
    match e
    case Leaf(t) => LeafIsWritten(t, schema, rest);
    case Node(op, args) =>
      var behind := if schema then [Close] + rest else rest;
      TreesAreWritten(args, schema, [Close] + behind);
      NodeIsWritten(e, schema, rest);
  }

  lemma NodeIsWritten(e: Expr, schema: bool, rest: Tokens)
    requires WellFormed(e) && e.Node?
    requires var behind := [Close] + if schema then [Close] + rest else rest;
             FlatAll(e.args, schema) + behind == Forms.WriteItems(FormsOf(e.args, schema), behind)
    ensures Flat(e, schema) + rest == Forms.Write(FormOf(e, schema), rest)
  {
    hide Flat, FlatAll, FormOf, FormsOf, Forms.Write, Forms.WriteItems, Forms.WriteJoinMembers, MembersOf, Members;
    FlatNode(e, schema);
    var behind := if schema then [Close] + rest else rest;
    MembersAreWritten(e.op, FlatAll(e.args, schema), FormsOf(e.args, schema), behind);
    NodeForm(e, schema, rest);
    if schema { KeywordTokens(Members(e.op, FlatAll(e.args, schema)), rest); }
  }

  lemma KeywordTokens(members: Tokens, rest: Tokens)
    ensures [Name("expression"), Open] + (members + [Close]) + rest
         == [Name("expression")] + ([Open] + (members + ([Close] + rest)))
  {
  }

  lemma NodeForm(e: Expr, schema: bool, rest: Tokens)
    requires WellFormed(e) && e.Node?
    ensures var members := MembersOf(e.op, FormsOf(e.args, schema));
            Forms.Write(FormOf(e, schema), rest)
              == if schema then [Name("expression")] + ([Open] + Forms.WriteJoinMembers(members, [Close] + rest))
                 else Forms.WriteJoinMembers(members, rest)
  {
    hide FormsOf, Forms.WriteJoinMembers;
    var f, members := FormOf(e, schema), MembersOf(e.op, FormsOf(e.args, schema));
    assert f == Forms.JoinByNames(schema, members);
    assert Forms.WriteBody(f, [Close] + rest) == Forms.WriteJoinMembers(members, [Close] + rest);
    assert Forms.WriteBody(f, rest) == Forms.WriteJoinMembers(members, rest);
  }

  lemma MembersAreWritten(op: Instruction, flat: Tokens, args: seq<Forms.Form>, behind: Tokens)
    requires op.Operator? && flat + ([Close] + behind) == Forms.WriteItems(args, [Close] + behind)
    ensures Forms.WriteJoinMembers(MembersOf(op, args), behind) == Members(op, flat) + behind
  {
    hide Forms.WriteJoinMembers, Forms.WriteJoinMember, OperatorHead;
    OptionsAreWritten(op, args, behind);
    ArgumentIsWritten(args, behind);
    assert OperatorHead(op) + ([Name("arg")] + ([Open] + (flat + ([Close] + behind)))) == Members(op, flat) + behind;
  }

  lemma ArgumentIsWritten(args: seq<Forms.Form>, behind: Tokens)
    ensures Forms.WriteJoinMember(Forms.ArgIs(Forms.Listed(false, args)), behind)
         == [Name("arg")] + ([Open] + Forms.WriteItems(args, [Close] + behind))
  {
    hide Forms.WriteItems;
    var list := Forms.Listed(false, args);
    assert Forms.Write(list, [Close] + behind) == Forms.WriteBody(list, [Close] + behind)
        == Forms.WriteItems(args, [Close] + behind);
  }

  lemma {:induction false} TreesAreWritten(es: seq<Expr>, schema: bool, rest: Tokens)
    requires AllWellFormed(es)
    ensures FlatAll(es, schema) + rest == Forms.WriteItems(FormsOf(es, schema), rest)
    decreases es, 0
  {
    hide Forms.Write, FormOf, Flat;
    if es == [] {
      assert FlatAll(es, schema) + rest == rest;
    } else {
      var tail := FlatAll(es[1..], schema) + rest;
      FlatCons(es, schema);
      TreeIsWritten(es[0], schema, [Close] + tail);
      TreesAreWritten(es[1..], schema, rest);
      assert FormsOf(es, schema)[1..] == FormsOf(es[1..], schema);
      assert FlatAll(es, schema) + rest == [Open] + (Flat(es[0], schema) + ([Close] + tail));
    }
  }

  /** The serializer writes the trees of the program, whose instructions in post order are the program: the only one,
      or all of them as a list. */
  lemma ProgramIsWritten(program: Program, single: bool, schema: bool) returns (trees: seq<Expr>)
    requires Serialize(program, single, schema).Some?
    ensures AllWellFormed(trees) && PostOrderAll(trees) == program && (single ==> |trees| == 1)
    ensures Serialize(program, single, schema).value
         == if single then Forms.Write(FormOf(trees[0], schema), [])
            else Forms.Write(Forms.Listed(false, FormsOf(trees, schema)), [])
  {
    hide Forms.Write, FormOf, Flat, WellFormed;
    SerializeSucceeds(program, single, schema);
    trees := Build(program, []);
    BuildWellFormed(program, []);
    BuildInOrder(program, []);
    BuildIsExecute(program, schema, []);
    assert PostOrderAll([]) + program == program;
    if single {
      TreeIsWritten(trees[0], schema, []);
      assert Flat(trees[0], schema) == Flatten(EncodeAll(trees, schema)[0]) by { FlatIsFlattened(trees[0], schema); }
      assert Flat(trees[0], schema) + [] == Flat(trees[0], schema);
    } else {
      TreesAreWritten(trees, schema, []);
      assert FlatAll(trees, schema) + [] == FlatAll(trees, schema);
      ListWritten(FormsOf(trees, schema));
    }
  }

  lemma FlatIsFlattened(e: Expr, schema: bool)
    requires WellFormed(e)
    ensures Flat(e, schema) == Flatten(Encode(e, schema))
  {
  }

  lemma ListWritten(l: seq<Forms.Form>)
    ensures Forms.Write(Forms.Listed(false, l), []) == Forms.WriteItems(l, [])
  {
    assert Forms.WriteBody(Forms.Listed(false, l), []) == Forms.WriteItems(l, []);
  }
}
