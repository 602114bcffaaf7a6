/** The serializer of query expressions: a stack machine over postfix code that nests serializations. */
module ExpressionSerializer {
  import opened Wrappers
  import opened Serialization

  /** Instructions of an analyzed expression. A variable is an operator instruction with the index of a variable. */
  datatype Instruction =
    | Term(termType: string, value: string, length: nat)
    | Operator(name: string, range: int, cardinality: nat, nofOperands: nat)
    | Variable(name: string)

  type Program = seq<Instruction>

  /** The elements of the serialization stack as values. */
  function AsValues(sers: seq<Tokens>): Tokens
  {
    if sers == [] then [] else [Val(Ser(sers[0]))] + AsValues(sers[1..])
  }

  function TermTokens(t: Instruction, variable: Option<string>): Tokens
    requires t.Term?
  {
    [Val(Str(t.termType)), Val(Str(t.value))]
    + (if t.length > 1 then [Val(Int(t.length))] else [])
    + (if variable.Some? then [Val(Str(variable.value))] else [])
  }

  function SerializeTerm(t: Instruction, variable: Option<string>, schema: bool): Tokens
    requires t.Term?
  {
    if schema then [Name("term"), Open] + TermTokens(t, variable) + [Close] else TermTokens(t, variable)
  }

  function OperatorHead(op: Instruction): Tokens
    requires op.Operator?
  {
    [Name("op"), Val(Str(op.name))]
    + (if op.range != 0 then [Name("range"), Val(Int(op.range))] else [])
    + (if op.cardinality != 0 then [Name("cardinality"), Val(Int(op.cardinality))] else [])
  }

  function OperatorTokens(op: Instruction, args: Tokens, variable: Option<string>): Tokens
    requires op.Operator?
  {
    OperatorHead(op) + [Name("arg"), Open] + args + [Close]
    + (if variable.Some? then [Name("variable"), Val(Str(variable.value))] else [])
  }

  function SerializeOperator(op: Instruction, args: Tokens, variable: Option<string>, schema: bool): Tokens
    requires op.Operator?
  {
    if schema then [Name("expression"), Open] + OperatorTokens(op, args, variable) + [Close]
    else OperatorTokens(op, args, variable)
  }

  /** The variable that the next instruction attaches. */
  function VariableName(rest: Program): Option<string>
  {
    if rest != [] && rest[0].Variable? then Some(rest[0].name) else None
  }

  /** The stack after some instructions; none if the serializer gives up. */
  function Execute(program: Program, schema: bool, stk: seq<Tokens>): Option<seq<Tokens>>
    decreases program
  {
    if program == [] then Some(stk)
    else match program[0]
         case Term(_, _, _) =>
           Execute(program[1..], schema, stk + [SerializeTerm(program[0], VariableName(program[1..]), schema)])
         case Operator(_, _, _, n) =>
           if n > |stk| then None
           else
             var ser := SerializeOperator(program[0], AsValues(stk[|stk| - n..]), VariableName(program[1..]), schema);
             Execute(program[1..], schema, stk[..|stk| - n] + [ser])
         case Variable(_) => None
  }

  /** The serialization of a program, either as a single result or as the list of all elements on the stack. */
  function Serialize(program: Program, single: bool, schema: bool): Option<Tokens>
  {
    match Execute(program, schema, [])
    case None => None
    case Some(stk) =>
      if !single then Some(Flatten(AsValues(stk)))
      else if |stk| == 1 then Some(Flatten(stk[0]))
      else None
  }

  // ---- when a program can be serialized ----

  /** Height of the operand stack after a program; none on underflow. */
  function HeightAfter(program: Program, height: nat): Option<nat>
    decreases program
  {
    if program == [] then Some(height)
    else match program[0]
         case Term(_, _, _) => HeightAfter(program[1..], height + 1)
         case Operator(_, _, _, n) => if n > height then None else HeightAfter(program[1..], height - n + 1)
         case Variable(_) => HeightAfter(program[1..], height)
  }

  ghost predicate VariableFree(program: Program)
  {
    forall i :: 0 <= i < |program| ==> !program[i].Variable?
  }

  lemma {:induction false} ExecuteSucceeds(program: Program, schema: bool, stk: seq<Tokens>)
    ensures Execute(program, schema, stk).Some? <==> VariableFree(program) && HeightAfter(program, |stk|).Some?
    ensures Execute(program, schema, stk).Some? ==>
              |Execute(program, schema, stk).value| == HeightAfter(program, |stk|).value
    decreases program
  {
    if program != [] {
      assert VariableFree(program) <==> !program[0].Variable? && VariableFree(program[1..]) by {
        assert forall i :: 0 < i < |program| ==> program[i] == program[1..][i - 1];
      }
      match program[0]
      case Term(_, _, _) =>
        ExecuteSucceeds(program[1..], schema, stk + [SerializeTerm(program[0], VariableName(program[1..]), schema)]);
      case Operator(_, _, _, n) =>
        if n <= |stk| {
          var ser := SerializeOperator(program[0], AsValues(stk[|stk| - n..]), VariableName(program[1..]), schema);
          ExecuteSucceeds(program[1..], schema, stk[..|stk| - n] + [ser]);
        }
      case Variable(_) =>
    }
  }

  /** A program is serialized exactly if it attaches no variable, finds all its operands, and leaves one element
      where a single result is asked for. */
  lemma SerializeSucceeds(program: Program, single: bool, schema: bool)
    ensures Serialize(program, single, schema).Some?
       <==> VariableFree(program) && HeightAfter(program, 0).Some? && (single ==> HeightAfter(program, 0) == Some(1))
  {
    ExecuteSucceeds(program, schema, []);
  }

  /** One operator over the serializations of its operands. */
  method SerializeOperation(op: Instruction, args: seq<Tokens>, variable: Option<string>, schema: bool)
    returns (ser: Tokens)
    requires op.Operator?
    ensures ser == SerializeOperator(op, AsValues(args), variable, schema)
  {
    ser := [Name("op"), Val(Str(op.name))];
    if op.range != 0 { ser := ser + [Name("range"), Val(Int(op.range))]; }
    if op.cardinality != 0 { ser := ser + [Name("cardinality"), Val(Int(op.cardinality))]; }
    assert ser == OperatorHead(op);
    ser := ser + [Name("arg"), Open];
    ghost var head := ser;
    var si := 0;
    while si != |args|
      invariant 0 <= si <= |args|
      invariant ser + AsValues(args[si..]) == head + AsValues(args)
      decreases |args| - si
    {
      ValuesStep(ser, args, si);
      ser := ser + [Val(Ser(args[si]))];
      si := si + 1;
    }
    assert args[si..] == [] && ser == head + AsValues(args);
    ser := ser + [Close];
    if variable.Some? { ser := ser + [Name("variable"), Val(Str(variable.value))]; }
    assert ser == OperatorTokens(op, AsValues(args), variable);
    if schema { ser := [Name("expression"), Open] + ser + [Close]; }
  }

  lemma ValuesStep(ser: Tokens, args: seq<Tokens>, si: nat)
    requires si < |args|
    ensures ser + AsValues(args[si..]) == (ser + [Val(Ser(args[si]))]) + AsValues(args[si + 1..])
  {
    assert args[si..][1..] == args[si + 1..];
  }

  /** The serializer. */
  method SerializeProgram(program: Program, single: bool, schema: bool) returns (result: Option<Tokens>)
    ensures result == Serialize(program, single, schema)
  {
    var stk: seq<Tokens> := [];
    var ii := 0;
    while ii < |program|
      invariant 0 <= ii <= |program|
      invariant Execute(program, schema, []) == Execute(program[ii..], schema, stk)
    {
      assert program[ii..][1..] == program[ii + 1..];
      var variable := VariableName(program[ii + 1..]);
      match program[ii] {
        case Term(_, _, _) =>
          stk := stk + [SerializeTerm(program[ii], variable, schema)];
        case Operator(_, _, _, nofOperands) =>
          if nofOperands > |stk| { return None; }
          var ser := SerializeOperation(program[ii], stk[|stk| - nofOperands..], variable, schema);
          stk := stk[..|stk| - nofOperands] + [ser];
        case Variable(_) =>
          return None;
      }
      ii := ii + 1;
    }
    assert program[ii..] == [];
    if single {
      if |stk| == 1 { return Some(Flatten(stk[0])); }
      return None;
    }
    return Some(Flatten(AsValues(stk)));
  }
}
