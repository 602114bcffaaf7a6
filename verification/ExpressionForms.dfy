module ExpressionForms {

  // Expressions in all the forms that are read: as values in their places or with names in any order, with a
  // keyword in front or without, with or without a variable.

  import opened Wrappers
  import opened Serialization
  import opened ExpressionParser

  /** What follows the type of a term in its places. */
  datatype Behind = TypeOnly | Valued(value: Value) | Measured(value: Value, length: Value)

  /** A member of a term; the last one has a name that is not known. */
  datatype TermMember =
    | TypeIs(v: Value)
    | ValueIs(v: Value)
    | BoundTo(v: Value)
    | LengthIs(v: Value)
    | NoneOfTerm(name: string, v: Value)

  /** What follows the operator of a join in its places. */
  datatype Numbers = NoNumbers | Ranged(range: Value) | Counted(range: Value, cardinality: Value)

  /** A member of a join; the last one has a name that is not known. */
  datatype JoinMember =
    | VariableIs(v: Value)
    | OpIs(v: Value)
    | RangeIs(v: Value)
    | CardinalityIs(v: Value)
    | ArgIs(form: Form)
    | NoneOfJoin(name: string, v: Value)

  /** How an expression is written. With the keyword "expression", "term" or "list" it stands in brackets behind it. */
  datatype Form =
    | TermByValues(keyword: bool, variable: Option<Value>, termType: Value, behind: Behind)
    | TermByNames(keyword: bool, terms: seq<TermMember>)
    | JoinByValues(keyword: bool, options: Option<seq<Value>>, op: Value, numbers: Numbers, args: seq<Form>)
    | JoinByNames(keyword: bool, joins: seq<JoinMember>)
    | Listed(keyword: bool, items: seq<Form>)

  // ---- the tokens of a form in front of others ----

  function WriteBehind(b: Behind, rest: Tokens): Tokens
  {
    match b
    case TypeOnly => rest
    case Valued(value) => [Val(value)] + rest
    case Measured(value, length) => [Val(value)] + ([Val(length)] + rest)
  }

  function TermName(m: TermMember): string
  {
    match m
    case TypeIs(_) => "type"
    case ValueIs(_) => "value"
    case BoundTo(_) => "variable"
    case LengthIs(_) => "len"
    case NoneOfTerm(name, _) => name
  }

  function WriteTermMember(m: TermMember, rest: Tokens): Tokens { [Name(TermName(m))] + ([Val(m.v)] + rest) }

  function WriteTermMembers(l: seq<TermMember>, rest: Tokens): Tokens
  {
    if l == [] then rest else WriteTermMember(l[0], WriteTermMembers(l[1..], rest))
  }

  function WriteNumbers(n: Numbers, rest: Tokens): Tokens
  {
    match n
    case NoNumbers => rest
    case Ranged(range) => [Val(range)] + rest
    case Counted(range, cardinality) => [Val(range)] + ([Val(cardinality)] + rest)
  }

  function WriteVariables(l: seq<Value>, rest: Tokens): Tokens
  {
    if l == [] then rest else [Name("variable")] + ([Val(l[0])] + WriteVariables(l[1..], rest))
  }

  function WriteVariable(variable: Option<Value>, rest: Tokens): Tokens
  {
    if variable.None? then rest else [Open] + WriteVariables([variable.value], [Close] + rest)
  }

  function WriteOptions(options: Option<seq<Value>>, rest: Tokens): Tokens
  {
    if options.None? then rest else [Open] + WriteVariables(options.value, [Close] + rest)
  }

  function JoinName(m: JoinMember): string
  {
    match m
    case VariableIs(_) => "variable"
    case OpIs(_) => "op"
    case RangeIs(_) => "range"
    case CardinalityIs(_) => "cardinality"
    case ArgIs(_) => "arg"
    case NoneOfJoin(name, _) => name
  }

  function WriteJoinMember(m: JoinMember, rest: Tokens): Tokens
    decreases m, 3
  {
    [Name(JoinName(m))] + if m.ArgIs? then [Open] + Write(m.form, [Close] + rest) else [Val(m.v)] + rest
  }

  function WriteJoinMembers(l: seq<JoinMember>, rest: Tokens): Tokens
    decreases l, 0
  {
    if l == [] then rest else WriteJoinMember(l[0], WriteJoinMembers(l[1..], rest))
  }

  function WriteItems(l: seq<Form>, rest: Tokens): Tokens
    decreases l, 0
  {
    if l == [] then rest else [Open] + Write(l[0], [Close] + WriteItems(l[1..], rest))
  }

  function WriteBody(f: Form, rest: Tokens): Tokens
    decreases f, 1
  {
    match f
    case TermByValues(_, variable, termType, behind) =>
      WriteVariable(variable, [Val(termType)] + WriteBehind(behind, rest))
    case TermByNames(_, terms) => WriteTermMembers(terms, rest)
    case JoinByValues(_, options, op, numbers, args) =>
      WriteOptions(options, [Val(op)] + WriteNumbers(numbers, WriteItems(args, rest)))
    case JoinByNames(_, joins) => WriteJoinMembers(joins, rest)
    case Listed(_, items) => WriteItems(items, rest)
  }

  function Keyword(f: Form): string
  {
    match f
    case TermByValues(_, _, _, _) => "term"
    case TermByNames(_, _) => "term"
    case Listed(_, _) => "list"
    case _ => "expression"
  }

  function Write(f: Form, rest: Tokens): Tokens
    decreases f, 2
  {
    if f.keyword then [Name(Keyword(f))] + ([Open] + WriteBody(f, [Close] + rest)) else WriteBody(f, rest)
  }

  // ---- the forms that are meant ----

  /** A name that is in none of the tables. */
  predicate Unknown(env: Env, name: string)
  {
    && env.index(ExpressionNames, name) < 0 && env.index(TypeNames, name) < 0
    && env.index(TermNames, name) < 0 && env.index(JoinNames, name) < 0
  }

  predicate TermsProper(env: Env, l: seq<TermMember>)
  {
    forall m :: m in l && m.NoneOfTerm? ==> Unknown(env, m.name)
  }

  predicate JoinProper(env: Env, m: JoinMember)
    decreases m, 2
  {
    match m
    case ArgIs(form) => Proper(env, form)
    case NoneOfJoin(name, _) => Unknown(env, name)
    case _ => true
  }

  predicate JoinsProper(env: Env, l: seq<JoinMember>)
    decreases l, 0
  {
    l != [] ==> JoinProper(env, l[0]) && JoinsProper(env, l[1..])
  }

  predicate AllProper(env: Env, l: seq<Form>)
    decreases l, 0
  {
    l != [] ==> Proper(env, l[0]) && AllProper(env, l[1..])
  }

  /** A join in places has arguments or a keyword: else it is written as a term, see JoinWithoutArguments. */
  predicate Proper(env: Env, f: Form)
    decreases f, 1
  {
    match f
    case TermByValues(_, _, _, _) => true
    case TermByNames(_, terms) => TermsProper(env, terms)
    case JoinByValues(keyword, _, _, _, args) => AllProper(env, args) && (keyword || args != [])
    case JoinByNames(_, joins) => JoinsProper(env, joins)
    case Listed(_, items) => AllProper(env, items)
  }

  // ---- conversions ----

  predicate IsText(env: Env, v: Value) { env.cv.text(v).Some? }

  function TextOf(env: Env, v: Value): string { if IsText(env, v) then env.cv.text(v).value else "" }

  /** In its place, a number has to be numeric before it is converted. */
  function InPlace<T>(env: Env, convert: Value -> Option<T>, v: Value): Option<T>
  {
    match env.cv.numeric(v) case None => None case Some(x) => convert(x)
  }

  function ValueOr<T>(o: Option<T>, default: T): T { if o.Some? then o.value else default }

  // ---- what is accepted ----

  /** Every member has a known name and a value that can be converted. */
  predicate TermMemberAccepted(env: Env, m: TermMember)
  {
    match m
    case LengthIs(v) => env.cv.uint32(v).Some?
    case NoneOfTerm(_, _) => false
    case _ => IsText(env, m.v)
  }

  predicate TermsAccepted(env: Env, l: seq<TermMember>)
  {
    l != [] ==> TermMemberAccepted(env, l[0]) && TermsAccepted(env, l[1..])
  }

  /** The last one given counts. */
  function LastType(env: Env, l: seq<TermMember>): Option<string>
  {
    if l == [] then None
    else if LastType(env, l[1..]).Some? || !l[0].TypeIs? then LastType(env, l[1..])
    else env.cv.text(l[0].v)
  }

  function LastValue(env: Env, l: seq<TermMember>): Option<string>
  {
    if l == [] then None
    else if LastValue(env, l[1..]).Some? || !l[0].ValueIs? then LastValue(env, l[1..])
    else env.cv.text(l[0].v)
  }

  function LastVariable(env: Env, l: seq<TermMember>): Option<string>
  {
    if l == [] then None
    else if LastVariable(env, l[1..]).Some? || !l[0].BoundTo? then LastVariable(env, l[1..])
    else env.cv.text(l[0].v)
  }

  function LastLength(env: Env, l: seq<TermMember>): Option<nat>
  {
    if l == [] then None
    else if LastLength(env, l[1..]).Some? || !l[0].LengthIs? then LastLength(env, l[1..])
    else env.cv.uint32(l[0].v)
  }

  predicate BehindAccepted(env: Env, b: Behind)
  {
    !b.TypeOnly? && IsText(env, b.value) && (b.Measured? ==> env.cv.uint32(b.length).Some?)
  }

  predicate NumbersAccepted(env: Env, n: Numbers)
  {
    && (!n.NoNumbers? ==> InPlace(env, env.cv.int32, n.range).Some?)
    && (n.Counted? ==> InPlace(env, env.cv.uint32, n.cardinality).Some?)
  }

  predicate AllTexts(env: Env, l: seq<Value>) { l != [] ==> IsText(env, l[0]) && AllTexts(env, l[1..]) }

  /** Number of the name of a member. */
  function Kind(m: JoinMember): nat
  {
    match m
    case VariableIs(_) => 0
    case OpIs(_) => 1
    case RangeIs(_) => 2
    case CardinalityIs(_) => 3
    case ArgIs(_) => 4
    case NoneOfJoin(_, _) => 5
  }

  ghost predicate Different(l: seq<JoinMember>) { forall i, j :: 0 <= i < j < |l| ==> Kind(l[i]) != Kind(l[j]) }

  ghost predicate NoneOf(l: seq<JoinMember>, defined: set<int>) { forall m :: m in l ==> Kind(m) !in defined }

  predicate BeginsWithVariable(f: Form)
  {
    !f.keyword &&
      ((f.TermByNames? && f.terms != [] && f.terms[0].BoundTo?)
        || (f.JoinByNames? && f.joins != [] && f.joins[0].VariableIs?))
  }

  predicate BeginsWithStructure(f: Form)
  {
    !f.keyword && ((f.TermByValues? && f.variable.Some?) || (f.JoinByValues? && f.options.Some?))
  }

  /** Without keyword the kind of an expression is seen from how it begins. */
  predicate Recognized(f: Form)
  {
    match f
    case JoinByValues(_, options, _, _, _) => options.None? || |options.value| == 1
    case JoinByNames(_, joins) => exists m :: m in joins && !m.VariableIs?
    case Listed(_, items) => items != [] && !BeginsWithVariable(items[0])
    case _ => true
  }

  ghost predicate Accepted(env: Env, f: Form, lists: bool)
    decreases f, 2
  {
    BodyAccepted(env, f, lists) && (f.keyword || Recognized(f))
  }

  ghost predicate BodyAccepted(env: Env, f: Form, lists: bool)
    decreases f, 1
  {
    match f
    case TermByValues(_, variable, termType, behind) =>
      (variable.Some? ==> IsText(env, variable.value)) && IsText(env, termType) && BehindAccepted(env, behind)
    case TermByNames(_, terms) =>
      && TermsAccepted(env, terms) && LastType(env, terms).Some?
      && (LastLength(env, terms).Some? ==> LastValue(env, terms).Some?)
    case JoinByValues(_, options, op, numbers, args) =>
      && (options.Some? ==> AllTexts(env, options.value)) && IsText(env, op) && NumbersAccepted(env, numbers)
      && AllAccepted(env, args)
    case JoinByNames(_, joins) => joins != [] && Different(joins) && JoinsAccepted(env, joins)
    case Listed(_, items) => lists && AllAccepted(env, items)
  }

  ghost predicate AllAccepted(env: Env, l: seq<Form>)
    decreases l, 0
  {
    l != [] ==> Accepted(env, l[0], false) && AllAccepted(env, l[1..])
  }

  /** The structure with arguments holds a list or a single expression, which must not begin with a structure. */
  ghost predicate ArgumentAccepted(env: Env, form: Form)
    decreases form, 3
  {
    if form.Listed? && !form.keyword then form.items != [] && AllAccepted(env, form.items)
    else !BeginsWithStructure(form) && Accepted(env, form, false)
  }

  ghost predicate MemberAccepted(env: Env, m: JoinMember)
    decreases m, 4
  {
    match m
    case ArgIs(form) => ArgumentAccepted(env, form)
    case RangeIs(v) => env.cv.int32(v).Some?
    case CardinalityIs(v) => env.cv.uint32(v).Some?
    case NoneOfJoin(_, _) => false
    case _ => IsText(env, m.v)
  }

  ghost predicate JoinsAccepted(env: Env, l: seq<JoinMember>)
    decreases l, 0
  {
    l != [] ==> MemberAccepted(env, l[0]) && JoinsAccepted(env, l[1..])
  }

  // ---- the calls ----

  function Attached(variable: string): Calls { if variable == "" then [] else [AttachVariable(variable)] }

  function TermPushed(termType: string, value: Option<string>, length: Option<nat>): Call
  {
    if value.None? then PushType(termType)
    else if length.None? then PushTerm(termType, value.value)
    else PushTermLength(termType, value.value, length.value)
  }

  function VariableOf(env: Env, l: seq<JoinMember>): string
  {
    if l == [] then "" else if l[0].VariableIs? then TextOf(env, l[0].v) else VariableOf(env, l[1..])
  }

  function OpOf(env: Env, l: seq<JoinMember>): string
  {
    if l == [] then "" else if l[0].OpIs? then TextOf(env, l[0].v) else OpOf(env, l[1..])
  }

  function JoinRange(env: Env, l: seq<JoinMember>): int
  {
    if l == [] then 0 else if l[0].RangeIs? then ValueOr(env.cv.int32(l[0].v), 0) else JoinRange(env, l[1..])
  }

  function CardinalityOf(env: Env, l: seq<JoinMember>): nat
  {
    if l == [] then 0
    else if l[0].CardinalityIs? then ValueOr(env.cv.uint32(l[0].v), 0)
    else CardinalityOf(env, l[1..])
  }

  /** Number of expressions in the structure with arguments. */
  function ArgumentCount(form: Form): nat { if form.Listed? && !form.keyword then |form.items| else 1 }

  function CountOf(l: seq<JoinMember>): nat
  {
    if l == [] then 0 else if l[0].ArgIs? then ArgumentCount(l[0].form) else CountOf(l[1..])
  }

  function LastOr(env: Env, l: seq<Value>, variable: string): string
  {
    if l == [] then variable else LastOr(env, l[1..], TextOf(env, l[0]))
  }

  function PushedAll(env: Env, l: seq<Form>): Calls
    decreases l, 0
  {
    if l == [] then [] else Pushed(env, l[0]) + PushedAll(env, l[1..])
  }

  function PushedMember(env: Env, m: JoinMember): Calls
    decreases m, 2
  {
    if m.ArgIs? then Pushed(env, m.form) else []
  }

  function PushedArguments(env: Env, l: seq<JoinMember>): Calls
    decreases l, 0
  {
    if l == [] then [] else PushedMember(env, l[0]) + PushedArguments(env, l[1..])
  }

  function RangeInPlace(env: Env, n: Numbers): int
  {
    if n.NoNumbers? then 0 else ValueOr(InPlace(env, env.cv.int32, n.range), 0)
  }

  function CardinalityInPlace(env: Env, n: Numbers): nat
  {
    if n.Counted? then ValueOr(InPlace(env, env.cv.uint32, n.cardinality), 0) else 0
  }

  /** Arguments first, then the join with its numbers, then the variable. */
  function Pushed(env: Env, f: Form): Calls
    decreases f, 1
  {
    match f
    case TermByValues(_, variable, termType, behind) =>
      [match behind
       case TypeOnly => PushType(TextOf(env, termType))
       case Valued(value) => PushTerm(TextOf(env, termType), TextOf(env, value))
       case Measured(value, length) =>
         PushTermLength(TextOf(env, termType), TextOf(env, value), ValueOr(env.cv.uint32(length), 0))]
      + Attached(if variable.Some? then TextOf(env, variable.value) else "")
    case TermByNames(_, terms) =>
      [TermPushed(ValueOr(LastType(env, terms), ""), LastValue(env, terms), LastLength(env, terms))]
      + Attached(ValueOr(LastVariable(env, terms), ""))
    case JoinByValues(_, options, op, numbers, args) =>
      PushedAll(env, args)
      + [PushExpression(TextOf(env, op), |args|, RangeInPlace(env, numbers), CardinalityInPlace(env, numbers))]
      + Attached(if options.Some? then LastOr(env, options.value, "") else "")
    case JoinByNames(_, joins) =>
      PushedArguments(env, joins)
      + [PushExpression(OpOf(env, joins), CountOf(joins), JoinRange(env, joins), CardinalityOf(env, joins))]
      + Attached(VariableOf(env, joins))
    case Listed(_, items) => PushedAll(env, items)
  }
}
