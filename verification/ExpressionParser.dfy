/** The reader of query expressions as functions of the tokens.

    For every list of tokens they say which calls an expression builder receives and what is left,
    or that the reader ends with an error, or that it does not come back. */
module ExpressionParser {
  import opened Wrappers
  import opened Serialization
  import SNM = StructureNameMap

  /** The calls that an expression builder receives. */
  datatype Call =
    | PushTermLength(termType: string, value: string, length: nat)
    | PushTerm(termType: string, value: string)
    | PushType(termType: string)
    | PushExpression(op: string, argc: nat, range: int, cardinality: nat)
    | AttachVariable(name: string)
    | DefineFeature(featureSet: string, weight: real)

  type Calls = seq<Call>

  datatype ExpressionType =
    | ExpressionUnknown
    | ExpressionEmpty
    | ExpressionTerm
    | ExpressionJoin
    | ExpressionList

  /** The name tables of the reader. */
  datatype Table = ExpressionNames | TypeNames | TermNames | JoinNames | FeatureNames

  function Names(t: Table): seq<string>
  {
    match t
    case ExpressionNames => ["expression", "term", "list"]
    case TypeNames => ["type", "value", "len", "variable", "op", "range", "cardinality", "arg"]
    case TermNames => ["type", "value", "variable", "len"]
    case JoinNames => ["variable", "op", "range", "cardinality", "arg"]
    case FeatureNames => ["set", "weight", "analyzed", "content", "sentence"]
  }

  /** What the reader is given: the conversions of values, also to a weight, and the name lookup. */
  datatype Env = Env(cv: Conversions, float: Value -> Option<real>, index: (Table, string) -> int)

  /** Conversions that keep strings and integers, and lookups as the name tables do them. */
  ghost predicate FaithfulEnv(env: Env)
  {
    Faithful(env.cv) && forall t, name :: env.index(t, name) == SNM.Index(SNM.Join(Names(t), ','), ',', name)
  }

  // ---- what kind of expression follows ----

  function TypeByName(env: Env, ts: Tokens): ExpressionType
    requires TagOf(ts) == TagName
    decreases |ts|
  {
    var ki := env.index(TypeNames, ts[0].name);
    if ki < 0 then ExpressionUnknown
    else if ki <= 2 then ExpressionTerm
    else if ki > 3 then ExpressionJoin
    else match SkipStructure(ts[1..])
         case None => ExpressionUnknown
         case Some(rest) => if TagOf(rest) == TagName then TypeByName(env, rest) else ExpressionUnknown
  }

  /** Number of leading values, counting no further than three. */
  function LeadingValues(ts: Tokens, max: nat): (n: nat)
    ensures n <= |ts| && n <= max
  {
    if max == 0 || TagOf(ts) != TagValue then 0 else 1 + LeadingValues(ts[1..], max - 1)
  }

  function TypeByValues(ts: Tokens): ExpressionType
  {
    var argc := LeadingValues(ts, 3);
    if TagOf(ts[argc..]) == TagClose then (if argc > 0 then ExpressionTerm else ExpressionEmpty) else ExpressionJoin
  }

  function GetExpressionType(env: Env, ts: Tokens): (r: Outcome<ExpressionType>)
    ensures !r.Stuck?
  {
    if TagOf(ts) == TagName then Done(TypeByName(env, ts), ts)
    else if TagOf(ts) == TagOpen then
      if TagOf(ts[1..]) == TagName && ts[1].name == "variable" then
        match SkipStructure(ts[2..])
        case None => Done(ExpressionUnknown, ts)
        case Some(rest) =>
          if ConsumeClose(rest).Done? then Done(TypeByValues(rest[1..]), ts) else Fail
      else Done(ExpressionList, ts)
    else Done(TypeByValues(ts), ts)
  }

  // ---- terms ----

  datatype TermDef = TermDef(variable: string, termType: Option<string>, value: Option<string>, length: Option<nat>)

  const NO_TERM := TermDef("", None, None, None)

  function TermMembers(env: Env, ts: Tokens, def: TermDef): (r: Outcome<TermDef>)
    requires TagOf(ts) == TagName
    ensures r.Done? ==> |r.rest| <= |ts|
    ensures !r.Stuck?
    decreases |ts|, 0
  {
    var idx := env.index(TermNames, ts[0].name);
    var text := GetText(env.cv, ts[1..]);
    var num := GetUint(env.cv, ts[1..]);
    if idx == 3 then
      if num.Done? then TermMembersNext(env, num.rest, def.(length := Some(num.value))) else Fail
    else if 0 <= idx <= 2 then
      if !text.Done? then Fail
      else if idx == 0 then TermMembersNext(env, text.rest, def.(termType := Some(text.value)))
      else if idx == 1 then TermMembersNext(env, text.rest, def.(value := Some(text.value)))
      else TermMembersNext(env, text.rest, def.(variable := text.value))
    else Fail
  }

  function TermMembersNext(env: Env, ts: Tokens, def: TermDef): (r: Outcome<TermDef>)
    ensures r.Done? ==> |r.rest| <= |ts|
    ensures !r.Stuck?
    decreases |ts|, 1
  {
    if TagOf(ts) == TagName then TermMembers(env, ts, def) else Done(def, ts)
  }

  /** A leading structure with the variable of the term. */
  function TermVariable(env: Env, ts: Tokens): (r: Outcome<string>)
    ensures r.Done? ==> |r.rest| <= |ts|
    ensures !r.Stuck?
  {
    if TagOf(ts) == TagOpen && TagOf(ts[1..]) == TagName && ts[1].name == "variable" then
      var text := GetText(env.cv, ts[2..]);
      if text.Done? && ConsumeClose(text.rest).Done? then Done(text.value, text.rest[1..]) else Fail
    else Done("", ts)
  }

  function TermValues(env: Env, ts: Tokens, variable: string): (r: Outcome<TermDef>)
    ensures r.Done? ==> |r.rest| <= |ts|
    ensures !r.Stuck?
  {
    var t := GetText(env.cv, ts);
    if !t.Done? || TagOf(t.rest) == TagClose then Fail
    else
      var v := GetText(env.cv, t.rest);
      if !v.Done? then Fail
      else if TagOf(v.rest) == TagClose then Done(TermDef(variable, Some(t.value), Some(v.value), None), v.rest)
      else
        var n := GetUint(env.cv, v.rest);
        if n.Done? then Done(TermDef(variable, Some(t.value), Some(v.value), Some(n.value)), n.rest) else Fail
  }

  function GetTermDef(env: Env, ts: Tokens): (r: Outcome<TermDef>)
    ensures r.Done? ==> |r.rest| <= |ts|
    ensures !r.Stuck?
  {
    var r := if TagOf(ts) == TagName then TermMembers(env, ts, NO_TERM)
             else
               var v := TermVariable(env, ts);
               if v.Done? then TermValues(env, v.rest, v.value) else Fail;
    if r.Done? && (r.value.termType.None? || (r.value.value.None? && r.value.length.Some?)) then Fail else r
  }

  function TermCalls(def: TermDef): Calls
    requires def.termType.Some? && (def.length.Some? ==> def.value.Some?)
  {
    [if def.length.Some? then PushTermLength(def.termType.value, def.value.value, def.length.value)
     else if def.value.Some? then PushTerm(def.termType.value, def.value.value)
     else PushType(def.termType.value)]
    + (if def.variable != "" then [AttachVariable(def.variable)] else [])
  }

  // ---- joins ----

  /** Members of a join; `defined` holds the numbers of the members met so far. */
  datatype JoinDef = JoinDef(variable: string, op: string, range: int, cardinality: nat, argc: nat, defined: set<int>)

  const NO_JOIN := JoinDef("", "", 0, 0, 0, {})

  function JoinCalls(def: JoinDef): Calls
  {
    [PushExpression(def.op, def.argc, def.range, def.cardinality)]
    + (if def.variable != "" then [AttachVariable(def.variable)] else [])
  }

  /** A member of a join that is not its argument. */
  function JoinOption(env: Env, ts: Tokens, idx: int, def: JoinDef): (r: Outcome<JoinDef>)
    ensures r.Done? ==> ts != [] && ts[0].Val? && r.rest == ts[1..]
    ensures r.Done? ==> r.value.defined == def.defined && r.value.argc == def.argc
    ensures !r.Stuck?
  {
    if idx == 2 then
      var n := GetInt(env.cv, ts);
      if n.Done? then Done(def.(range := n.value), n.rest) else Fail
    else if idx == 3 then
      var n := GetUint(env.cv, ts);
      if n.Done? then Done(def.(cardinality := n.value), n.rest) else Fail
    else
      var t := GetText(env.cv, ts);
      if !t.Done? then Fail
      else Done(if idx == 0 then def.(variable := t.value) else def.(op := t.value), t.rest)
  }

  /** Named members of a join; the calls of its arguments come first. */
  function JoinMembers(env: Env, ts: Tokens, def: JoinDef): (r: Outcome<(JoinDef, Calls)>)
    requires TagOf(ts) == TagName
    ensures r.Done? ==> |r.rest| <= |ts|
    decreases |ts|, 0
  {
    var idx := env.index(JoinNames, ts[0].name);
    if idx < 0 || idx > 4 || idx in def.defined then Fail
    else
      var d := def.(defined := def.defined + {idx});
      if idx == 4 then
        match JoinArgument(env, ts[1..])
        case Fail => Fail
        case Stuck => Stuck
        case Done((argc, calls), rest) =>
          match JoinMembersNext(env, rest, d.(argc := argc))
          case Fail => Fail
          case Stuck => Stuck
          case Done((e, more), rest') => Done((e, calls + more), rest')
      else
        match JoinOption(env, ts[1..], idx, d)
        case Done(e, rest) => JoinMembersNext(env, rest, e)
        case _ => Fail
  }

  function JoinMembersNext(env: Env, ts: Tokens, def: JoinDef): (r: Outcome<(JoinDef, Calls)>)
    ensures r.Done? ==> |r.rest| <= |ts|
    decreases |ts|, 1
  {
    if TagOf(ts) == TagName then JoinMembers(env, ts, def) else Done((def, []), ts)
  }

  /** The structure with the arguments of a join: a list of expressions, or a single one. */
  function JoinArgument(env: Env, ts: Tokens): (r: Outcome<(nat, Calls)>)
    ensures r.Done? ==> |r.rest| < |ts|
    decreases |ts|, 4
  {
    if TagOf(ts) != TagOpen then Fail
    else if TagOf(ts[1..]) == TagOpen then
      match ParseList(env, ts[1..])
      case Fail => Fail
      case Stuck => Stuck
      case Done((argc, calls), rest) => if ConsumeClose(rest).Done? then Done((argc, calls), rest[1..]) else Fail
    else
      match ParseExpression(env, ts[1..], false)
      case Fail => Fail
      case Stuck => Stuck
      case Done(calls, rest) => if ConsumeClose(rest).Done? then Done((1, calls), rest[1..]) else Fail
  }

  /** The content of a structure with the close behind it. */
  function Closed(r: Outcome<Calls>): (c: Outcome<Calls>)
    ensures c.Done? ==> r.Done? && |c.rest| < |r.rest|
    ensures c.Stuck? <==> r.Stuck?
  {
    match r
    case Done(calls, rest) => if ConsumeClose(rest).Done? then Done(calls, rest[1..]) else Fail
    case o => o
  }

  /** A single expression in brackets. */
  function Bracketed(env: Env, ts: Tokens): (r: Outcome<Calls>)
    requires TagOf(ts) == TagOpen
    ensures r.Done? ==> |r.rest| < |ts|
    decreases |ts|, 0
  {
    Closed(ParseExpression(env, ts[1..], false))
  }

  /** Bracketed expressions as long as a bracket opens, with their number. */
  function ParseList(env: Env, ts: Tokens): (r: Outcome<(nat, Calls)>)
    ensures r.Done? ==> |r.rest| <= |ts|
    decreases |ts|, 5
  {
    if TagOf(ts) != TagOpen then Done((0, []), ts)
    else
      match Bracketed(env, ts)
      case Fail => Fail
      case Stuck => Stuck
      case Done(calls, rest) =>
        match ParseList(env, rest)
        case Fail => Fail
        case Stuck => Stuck
        case Done((n, more), rest') => Done((n + 1, calls + more), rest')
  }

  // the structure with options in front of a positional join

  /** The value of a member with this name. At another member nothing is read, not even its name. */
  function OptionalDefinition(env: Env, ts: Tokens, name: string): (r: Outcome<Option<string>>)
    ensures r.Done? ==> |r.rest| <= |ts|
    ensures !r.Stuck?
  {
    if TagOf(ts) == TagName && ts[0].name == name then
      var t := GetText(env.cv, ts[1..]);
      if t.Done? then Done(Some(t.value), t.rest) else Fail
    else Done(None, ts)
  }

  /** The loop over the options, stopped after n iterations: the variable and what is left then. */
  function OptionLoop(env: Env, ts: Tokens, variable: string, n: nat): (r: Outcome<string>)
    ensures r.Done? ==> |r.rest| <= |ts|
    ensures !r.Stuck?
    decreases n
  {
    if n == 0 || TagOf(ts) != TagName then Done(variable, ts)
    else
      match OptionalDefinition(env, ts, "variable")
      case Done(text, rest) => OptionLoop(env, rest, if text.Some? then text.value else variable, n - 1)
      case _ => Fail
  }

  /** The loop goes on: there is another member. */
  predicate GoesOn(r: Outcome<string>) { r.Done? && TagOf(r.rest) == TagName }

  /** The structure with options up to its close. If the loop still goes on after as many iterations as there are
      tokens, then it does so forever: see LoopsExactly. */
  function JoinVariable(env: Env, ts: Tokens, variable: string): (r: Outcome<string>)
    ensures r.Done? ==> |r.rest| <= |ts|
  {
    var r := OptionLoop(env, ts, variable, |ts|);
    if GoesOn(r) then Stuck
    else if r.Done? && ConsumeClose(r.rest).Done? then Done(r.value, r.rest[1..])
    else Fail
  }

  /** A numeric option of a positional join, if there is one. */
  function NumericOption(env: Env, ts: Tokens): Option<Value>
  {
    if TagOf(ts) == TagValue then env.cv.numeric(ts[0].v) else None
  }

  /** Operator, range and cardinality of a positional join. */
  function JoinHead(env: Env, ts: Tokens, variable: string): (r: Outcome<JoinDef>)
    ensures r.Done? ==> |r.rest| <= |ts|
    ensures !r.Stuck?
  {
    var t := GetText(env.cv, ts);
    if !t.Done? then Fail
    else
      var def := NO_JOIN.(variable := variable, op := t.value);
      match NumericOption(env, t.rest)
      case None => Done(def, t.rest)
      case Some(x) =>
        if env.cv.int32(x).None? then Fail
        else
          var ranged := def.(range := env.cv.int32(x).value);
          match NumericOption(env, t.rest[1..])
          case None => Done(ranged, t.rest[1..])
          case Some(y) =>
            if env.cv.uint32(y).None? then Fail
            else Done(ranged.(cardinality := env.cv.uint32(y).value), t.rest[2..])
  }

  /** Options, operator, range and cardinality of a positional join. */
  function PositionalHead(env: Env, ts: Tokens): (r: Outcome<JoinDef>)
    ensures r.Done? ==> |r.rest| <= |ts|
  {
    match (if TagOf(ts) == TagOpen then JoinVariable(env, ts[1..], "") else Done("", ts))
    case Done(variable, rest) => JoinHead(env, rest, variable)
    case Fail => Fail
    case Stuck => Stuck
  }

  function ParseJoin(env: Env, ts: Tokens): (r: Outcome<Calls>)
    ensures r.Done? ==> |r.rest| <= |ts|
    decreases |ts|, 2
  {
    if TagOf(ts) == TagName then
      match JoinMembers(env, ts, NO_JOIN)
      case Fail => Fail
      case Stuck => Stuck
      case Done((def, calls), rest) => Done(calls + JoinCalls(def), rest)
    else
      match PositionalHead(env, ts)
      case Fail => Fail
      case Stuck => Stuck
      case Done(def, rest) =>
        match ParseArguments(env, rest)
        case Fail => Fail
        case Stuck => Stuck
        case Done((argc, calls), rest') => Done(calls + JoinCalls(def.(argc := argc)), rest')
  }

  /** The arguments of a positional join, up to the close of the surrounding structure. */
  function ParseArguments(env: Env, ts: Tokens): (r: Outcome<(nat, Calls)>)
    ensures r.Done? ==> |r.rest| <= |ts|
    decreases |ts|, 1
  {
    if TagOf(ts) == TagClose then Done((0, []), ts)
    else if TagOf(ts) != TagOpen then Fail
    else
      match Bracketed(env, ts)
      case Fail => Fail
      case Stuck => Stuck
      case Done(calls, rest) =>
        match ParseArguments(env, rest)
        case Fail => Fail
        case Stuck => Stuck
        case Done((n, more), rest') => Done((n + 1, calls + more), rest')
  }

  // ---- expressions ----

  function ParseTyped(env: Env, etype: ExpressionType, ts: Tokens, allowLists: bool): (r: Outcome<Calls>)
    ensures r.Done? ==> |r.rest| <= |ts|
    decreases |ts|, 6
  {
    match etype
    case ExpressionUnknown => Fail
    case ExpressionEmpty => Fail
    case ExpressionTerm =>
      (match GetTermDef(env, ts)
       case Done(def, rest) => Done(TermCalls(def), rest)
       case _ => Fail)
    case ExpressionJoin => ParseJoin(env, ts)
    case ExpressionList =>
      if !allowLists then Fail
      else
        match ParseList(env, ts)
        case Fail => Fail
        case Stuck => Stuck
        case Done((_, calls), rest) => Done(calls, rest)
  }

  function KeywordType(ki: int): ExpressionType {
    if ki == 0 then ExpressionJoin else if ki == 1 then ExpressionTerm else ExpressionList
  }

  function ParseExpression(env: Env, ts: Tokens, allowLists: bool): (r: Outcome<Calls>)
    ensures r.Done? ==> |r.rest| <= |ts|
    decreases |ts|, 7
  {
    if TagOf(ts) == TagName && env.index(ExpressionNames, ts[0].name) >= 0 then
      if TagOf(ts[1..]) != TagOpen then Fail
      else
        Closed(ParseTyped(env, KeywordType(env.index(ExpressionNames, ts[0].name)), ts[2..], allowLists))
    else
      match GetExpressionType(env, ts)
      case Done(etype, _) => ParseTyped(env, etype, ts, allowLists)
      case _ => Fail
  }

  /** A whole serialization as one expression. */
  function ParseContent(env: Env, ts: Tokens, allowLists: bool): Outcome<Calls>
  {
    match ParseExpression(env, ts, allowLists)
    case Done(calls, rest) => if rest == [] then Done(calls, rest) else Fail
    case r => r
  }
}
