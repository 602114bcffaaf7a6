/** The expression reader as it runs.

    A cursor moves over the tokens in loops and recursive calls, and a builder receives calls.
    Every method is tied to the function of ExpressionParser that says what it reads, also where
    it ends with an error or does not come back. */
module ExpressionReader {
  import opened Wrappers
  import opened Serialization
  import opened SerializationCursor
  import opened ExpressionParser
  import Discipline = ExpressionDiscipline

  /** A builder seen from the reader: what it was called with. */
  class Builder {
    var calls: Calls

    constructor ()
      ensures calls == []
    {
      calls := [];
    }

    method Push(call: Call)
      modifies this
      ensures calls == old(calls) + [call]
    {
      calls := calls + [call];
    }
  }

  /** Cursor and builder have moved on as the outcome of a reading function says. */
  twostate predicate Follows(it: Cursor, b: Builder, r: Outcome<Calls>, status: Status)
    reads it, b
  {
    && it.Valid()
    && match r
       case Done(calls, rest) => status == Read && it.Rest() == rest && b.calls == old(b.calls) + calls
       case Fail => status == Error
       case Stuck => status == Loops
  }

  twostate predicate FollowsCounted(it: Cursor, b: Builder, r: Outcome<(nat, Calls)>, n: nat, status: Status)
    reads it, b
  {
    && it.Valid()
    && match r
       case Done((k, calls), rest) =>
         status == Read && n == k && it.Rest() == rest && b.calls == old(b.calls) + calls
       case Fail => status == Error
       case Stuck => status == Loops
  }

  /** The calls of a counted outcome. */
  function CallsIn<T>(r: Outcome<(T, Calls)>): Outcome<Calls>
  {
    match r
    case Done((_, calls), rest) => Done(calls, rest)
    case Fail => Fail
    case Stuck => Stuck
  }

  /** Of a list, `n` expressions have been read and have made the builder's calls grow by `acc`. */
  ghost predicate ListProgress(all: Outcome<(nat, Calls)>, before: Calls, now: Calls, n: nat, acc: Calls,
                               r: Outcome<(nat, Calls)>)
  {
    Progress(CallsIn(all), before, now, acc, CallsIn(r)) && (all.Done? ==> all.value.0 == n + r.value.0)
  }

  /** Of a structure, named members have been read and have made the builder's calls grow by `acc`. */
  ghost predicate MemberProgress<T>(all: Outcome<(T, Calls)>, before: Calls, now: Calls, acc: Calls,
                                    r: Outcome<(T, Calls)>)
  {
    Progress(CallsIn(all), before, now, acc, CallsIn(r)) && (all.Done? ==> all.value.0 == r.value.0)
  }

  lemma ListStep(env: Env, ts: Tokens)
    requires TagOf(ts) == TagOpen
    ensures var e := Bracketed(env, ts);
            && (e.Done? ==> CallsIn(ParseList(env, ts)) == After(e.value, CallsIn(ParseList(env, e.rest)))
                            && (ParseList(env, ts).Done? ==>
                                  ParseList(env, ts).value.0 == 1 + ParseList(env, e.rest).value.0))
            && (e.Fail? ==> ParseList(env, ts) == Fail)
            && (e.Stuck? ==> ParseList(env, ts) == Stuck)
  {
  }

  lemma ArgumentsStep(env: Env, ts: Tokens)
    requires TagOf(ts) == TagOpen
    ensures var e := Bracketed(env, ts);
            && (e.Done? ==> CallsIn(ParseArguments(env, ts)) == After(e.value, CallsIn(ParseArguments(env, e.rest)))
                            && (ParseArguments(env, ts).Done? ==>
                                  ParseArguments(env, ts).value.0 == 1 + ParseArguments(env, e.rest).value.0))
            && (e.Fail? ==> ParseArguments(env, ts) == Fail)
            && (e.Stuck? ==> ParseArguments(env, ts) == Stuck)
  {
  }

  // ---- what kind of expression follows ----

  method ReadTypeByName(env: Env, it: Cursor) returns (etype: ExpressionType)
    requires it.Valid() && TagOf(it.Rest()) == TagName
    modifies it`pos
    ensures etype == TypeByName(env, old(it.Rest()))
  {
    ghost var all := TypeByName(env, it.Rest());
    while true
      invariant it.Valid() && TagOf(it.Rest()) == TagName && all == TypeByName(env, it.Rest())
      decreases |it.toks| - it.pos
    {
      var ki := env.index(TypeNames, it.toks[it.pos].name);
      if ki < 0 { return ExpressionUnknown; }
      if ki <= 2 { return ExpressionTerm; }
      if ki > 3 { return ExpressionJoin; }
      it.Skip();
      var ok := it.PassStructure();
      if !ok || it.Tag() != TagName { return ExpressionUnknown; }
    }
  }

  /** The kind of an expression that begins with a structure: a list, unless the structure names a variable. */
  method ReadTypeBehindOpen(env: Env, it: Cursor) returns (r: Option<ExpressionType>)
    requires it.Valid() && TagOf(it.Rest()) == TagOpen
    modifies it`pos
    ensures match GetExpressionType(env, old(it.Rest()))
            case Done(etype, _) => r == Some(etype)
            case _ => r == None
  {
    ghost var ts := it.Rest();
    it.Skip();
    if it.Tag() != TagName || it.toks[it.pos].name != "variable" { return Some(ExpressionList); }
    it.Skip();
    assert it.Rest() == ts[2..];
    var ok := it.PassStructure();
    if !ok { return Some(ExpressionUnknown); }
    ok := it.TakeClose();
    if !ok { return None; }
    r := CountValues(it);
  }

  /** Looks ahead with a cursor of its own. */
  method ReadExpressionType(env: Env, at: Cursor) returns (r: Option<ExpressionType>)
    requires at.Valid()
    ensures match GetExpressionType(env, at.Rest())
            case Done(etype, _) => r == Some(etype)
            case _ => r == None
  {
    var it := new Cursor(at.toks);
    it.pos := at.pos;
    if it.Tag() == TagName {
      var etype := ReadTypeByName(env, it);
      return Some(etype);
    }
    if it.Tag() == TagOpen {
      r := ReadTypeBehindOpen(env, it);
    } else {
      r := CountValues(it);
    }
  }

  method CountValues(it: Cursor) returns (r: Option<ExpressionType>)
    requires it.Valid()
    modifies it`pos
    ensures r == Some(TypeByValues(old(it.Rest())))
  {
    ghost var ts := it.Rest();
    var argc: nat := 0;
    while argc < 3 && it.Tag() == TagValue
      invariant argc <= 3 && argc <= |ts| && it.Valid() && it.Rest() == ts[argc..]
      invariant LeadingValues(ts, 3) == argc + LeadingValues(it.Rest(), 3 - argc)
    {
      it.Skip();
      argc := argc + 1;
      assert ts[argc - 1..][1..] == ts[argc..];
    }
    assert LeadingValues(it.Rest(), 3 - argc) == 0;
    if it.Tag() == TagClose { return Some(if argc > 0 then ExpressionTerm else ExpressionEmpty); }
    return Some(ExpressionJoin);
  }

  // ---- terms ----

  method ReadTermDef(env: Env, it: Cursor) returns (r: Option<TermDef>)
    requires it.Valid()
    modifies it`pos
    ensures it.Valid()
    ensures match GetTermDef(env, old(it.Rest()))
            case Done(def, rest) => r == Some(def) && it.Rest() == rest
            case _ => r == None
  {
    if it.Tag() == TagName {
      r := ReadTermMembers(env, it);
    } else {
      r := ReadTermValues(env, it);
    }
    if r.Some? && r.value.value.None? && r.value.length.Some? { return None; }
    if r.Some? && r.value.termType.None? { return None; }
  }

  method ReadTermMembers(env: Env, it: Cursor) returns (r: Option<TermDef>)
    requires it.Valid() && TagOf(it.Rest()) == TagName
    modifies it`pos
    ensures it.Valid()
    ensures match TermMembers(env, old(it.Rest()), NO_TERM)
            case Done(def, rest) => r == Some(def) && it.Rest() == rest
            case _ => r == None
  {
    ghost var all := TermMembers(env, it.Rest(), NO_TERM);
    var def := NO_TERM;
    while it.Tag() == TagName
      invariant it.Valid() && TermMembersNext(env, it.Rest(), def) == all
      decreases |it.toks| - it.pos
    {
      var idx := env.index(TermNames, it.toks[it.pos].name);
      it.Skip();
      if idx == 3 {
        var n := it.GetUnsigned(env.cv);
        if n.None? { return None; }
        def := def.(length := n);
      } else {
        if idx < 0 || idx > 3 { return None; }
        var t := it.GetString(env.cv);
        if t.None? { return None; }
        if idx == 0 { def := def.(termType := t); }
        else if idx == 1 { def := def.(value := t); }
        else { def := def.(variable := t.value); }
      }
    }
    return Some(def);
  }

  method ReadTermValues(env: Env, it: Cursor) returns (r: Option<TermDef>)
    requires it.Valid()
    modifies it`pos
    ensures it.Valid()
    ensures var v := TermVariable(env, old(it.Rest()));
            match (if v.Done? then TermValues(env, v.rest, v.value) else Fail)
            case Done(def, rest) => r == Some(def) && it.Rest() == rest
            case _ => r == None
  {
    var def := NO_TERM;
    if it.Tag() == TagOpen {
      var ahead := new Cursor(it.toks);
      ahead.pos := it.pos;
      ahead.Skip();
      if ahead.Tag() == TagName && ahead.toks[ahead.pos].name == "variable" {
        ahead.Skip();
        assert ahead.Rest() == it.Rest()[2..];
        var t := ahead.GetString(env.cv);
        if t.None? { return None; }
        var ok := ahead.TakeClose();
        if !ok { return None; }
        def := def.(variable := t.value);
        it.pos := ahead.pos;
      }
    }
    var t := it.GetString(env.cv);
    if t.None? || it.Tag() == TagClose { return None; }
    var v := it.GetString(env.cv);
    if v.None? { return None; }
    def := def.(termType := t, value := v);
    if it.Tag() != TagClose {
      var n := it.GetUnsigned(env.cv);
      if n.None? { return None; }
      def := def.(length := n);
    }
    return Some(def);
  }

  method PushTermDef(b: Builder, def: TermDef)
    requires def.termType.Some? && (def.length.Some? ==> def.value.Some?)
    modifies b
    ensures b.calls == old(b.calls) + TermCalls(def)
  {
    if def.length.Some? {
      b.Push(PushTermLength(def.termType.value, def.value.value, def.length.value));
    } else if def.value.Some? {
      b.Push(PushTerm(def.termType.value, def.value.value));
    } else {
      b.Push(PushType(def.termType.value));
    }
    if def.variable != "" { b.Push(AttachVariable(def.variable)); }
  }

  method PushJoinDef(b: Builder, def: JoinDef)
    modifies b
    ensures b.calls == old(b.calls) + JoinCalls(def)
  {
    b.Push(PushExpression(def.op, def.argc, def.range, def.cardinality));
    if def.variable != "" { b.Push(AttachVariable(def.variable)); }
  }

  // ---- joins ----

  method BuildBracketed(env: Env, it: Cursor, b: Builder) returns (status: Status)
    requires it.Valid() && TagOf(it.Rest()) == TagOpen
    modifies it`pos, b
    ensures Follows(it, b, Bracketed(env, old(it.Rest())), status)
    decreases |it.toks| - it.pos, 0
  {
    it.Skip();
    status := BuildExpression(env, it, b, false);
    if status != Read { return; }
    var ok := it.TakeClose();
    if !ok { return Error; }
  }

  /** Bracketed expressions as long as a bracket opens. */
  method BuildList(env: Env, it: Cursor, b: Builder) returns (status: Status, n: nat)
    requires it.Valid()
    modifies it`pos, b
    ensures FollowsCounted(it, b, ParseList(env, old(it.Rest())), n, status)
    decreases |it.toks| - it.pos, 5
  {
    ghost var all := ParseList(env, it.Rest());
    ghost var before := b.calls;
    ghost var acc: Calls := [];
    ghost var start := it.pos;
    n := 0;
    ProgressStart(CallsIn(all), before);
    while it.Tag() == TagOpen
      invariant it.Valid() && it.pos >= start
      invariant ListProgress(all, before, b.calls, n, acc, ParseList(env, it.Rest()))
      decreases |it.toks| - it.pos
    {
      ghost var now, ts := b.calls, it.Rest();
      ListStep(env, ts);
      status := BuildBracketed(env, it, b);
      if status != Read { return; }
      ghost var more := Bracketed(env, ts).value;
      ProgressStep(CallsIn(all), before, now, acc, more, CallsIn(ParseList(env, it.Rest())));
      acc := acc + more;
      n := n + 1;
    }
    ProgressEnd(CallsIn(all), before, b.calls, acc, it.Rest());
    return Read, n;
  }

  /** The arguments of a positional join, up to the close of the surrounding structure. */
  method BuildArguments(env: Env, it: Cursor, b: Builder) returns (status: Status, n: nat)
    requires it.Valid()
    modifies it`pos, b
    ensures FollowsCounted(it, b, ParseArguments(env, old(it.Rest())), n, status)
    decreases |it.toks| - it.pos, 1
  {
    ghost var all := ParseArguments(env, it.Rest());
    ghost var before := b.calls;
    ghost var acc: Calls := [];
    ghost var start := it.pos;
    n := 0;
    ProgressStart(CallsIn(all), before);
    while it.Tag() != TagClose
      invariant it.Valid() && it.pos >= start
      invariant ListProgress(all, before, b.calls, n, acc, ParseArguments(env, it.Rest()))
      decreases |it.toks| - it.pos
    {
      if it.Tag() != TagOpen { return Error, n; }
      ghost var now, ts := b.calls, it.Rest();
      ArgumentsStep(env, ts);
      status := BuildBracketed(env, it, b);
      if status != Read { return; }
      ghost var more := Bracketed(env, ts).value;
      ProgressStep(CallsIn(all), before, now, acc, more, CallsIn(ParseArguments(env, it.Rest())));
      acc := acc + more;
      n := n + 1;
    }
    ProgressEnd(CallsIn(all), before, b.calls, acc, it.Rest());
    return Read, n;
  }

  /** The structure with the arguments of a named join. */
  method BuildArgument(env: Env, it: Cursor, b: Builder) returns (status: Status, n: nat)
    requires it.Valid()
    modifies it`pos, b
    ensures FollowsCounted(it, b, JoinArgument(env, old(it.Rest())), n, status)
    decreases |it.toks| - it.pos, 4
  {
    if it.Tag() != TagOpen { return Error, 0; }
    it.Skip();
    if it.Tag() == TagOpen {
      status, n := BuildList(env, it, b);
    } else {
      status := BuildExpression(env, it, b, false);
      n := 1;
    }
    if status != Read { return; }
    var ok := it.TakeClose();
    if !ok { return Error, n; }
  }

  /** A member that is not the argument. */
  method BuildJoinOption(env: Env, it: Cursor, idx: int, def: JoinDef) returns (r: Option<JoinDef>)
    requires it.Valid() && 0 <= idx < 4
    modifies it`pos
    ensures it.Valid()
    ensures match JoinOption(env, old(it.Rest()), idx, def)
            case Done(d, rest) => r == Some(d) && it.Rest() == rest
            case _ => r == None
  {
    if idx == 2 {
      var n := it.GetInteger(env.cv);
      return if n.Some? then Some(def.(range := n.value)) else None;
    }
    if idx == 3 {
      var n := it.GetUnsigned(env.cv);
      return if n.Some? then Some(def.(cardinality := n.value)) else None;
    }
    var t := it.GetString(env.cv);
    if t.None? { return None; }
    return Some(if idx == 0 then def.(variable := t.value) else def.(op := t.value));
  }

  method BuildMembers(env: Env, it: Cursor, b: Builder) returns (status: Status, def: JoinDef)
    requires it.Valid() && TagOf(it.Rest()) == TagName
    modifies it`pos, b
    ensures it.Valid()
    ensures match JoinMembers(env, old(it.Rest()), NO_JOIN)
            case Done((d, calls), rest) =>
              status == Read && def == d && it.Rest() == rest && b.calls == old(b.calls) + calls
            case Fail => status == Error
            case Stuck => status == Loops
    decreases |it.toks| - it.pos, 0
  {
    ghost var all := JoinMembers(env, it.Rest(), NO_JOIN);
    ghost var before := b.calls;
    ghost var acc: Calls := [];
    ghost var start := it.pos;
    def := NO_JOIN;
    ProgressStart(CallsIn(all), before);
    while it.Tag() == TagName
      invariant it.Valid() && it.pos >= start
      invariant MemberProgress(all, before, b.calls, acc, JoinMembersNext(env, it.Rest(), def))
      decreases |it.toks| - it.pos
    {
      ghost var now, ts := b.calls, it.Rest();
      assert JoinMembersNext(env, ts, def) == JoinMembers(env, ts, def);
      var idx := env.index(JoinNames, it.toks[it.pos].name);
      it.Skip();
      if idx < 0 || idx > 4 || idx in def.defined { return Error, def; }
      def := def.(defined := def.defined + {idx});
      if idx == 4 {
        var argc;
        status, argc := BuildArgument(env, it, b);
        if status != Read { return; }
        def := def.(argc := argc);
        ghost var calls := JoinArgument(env, ts[1..]).value.1;
        ProgressStep(CallsIn(all), before, now, acc, calls, CallsIn(JoinMembersNext(env, it.Rest(), def)));
        acc := acc + calls;
      } else {
        var d := BuildJoinOption(env, it, idx, def);
        if d.None? { return Error, def; }
        def := d.value;
      }
    }
    ProgressEnd(CallsIn(all), before, b.calls, acc, it.Rest());
    return Read, def;
  }

  /** The value of a member with this name; at another member the cursor stays where it is. */
  method GetOptionalDefinition(env: Env, it: Cursor, name: string) returns (ok: bool, text: Option<string>)
    requires it.Valid()
    modifies it`pos
    ensures it.Valid()
    ensures match OptionalDefinition(env, old(it.Rest()), name)
            case Done(t, rest) => ok && text == t && it.Rest() == rest
            case _ => !ok
  {
    if it.Tag() != TagName || it.toks[it.pos].name != name { return true, None; }
    it.Skip();
    text := it.GetString(env.cv);
    ok := text.Some?;
  }

  /** The structure with options in front of a positional join. An iteration that leaves the cursor where it is would be
      repeated forever: there the method ends with Loops. */
  method BuildJoinVariable(env: Env, it: Cursor) returns (status: Status, variable: string)
    requires it.Valid()
    modifies it`pos
    ensures it.Valid()
    ensures match JoinVariable(env, old(it.Rest()), "")
            case Done(v, rest) => status == Read && variable == v && it.Rest() == rest
            case Fail => status == Error
            case Stuck => status == Loops
    ensures status == Loops <==> Discipline.NeverEnds(env, old(it.Rest()), "")
  {
    ghost var all := JoinVariable(env, it.Rest(), "");
    Discipline.LoopsExactly(env, it.Rest(), "");
    variable := "";
    while it.Tag() == TagName
      invariant it.Valid() && JoinVariable(env, it.Rest(), variable) == all
      decreases |it.toks| - it.pos
    {
      Discipline.OptionStep(env, it.Rest(), variable);
      var before := it.pos;
      var ok, text := GetOptionalDefinition(env, it, "variable");
      if !ok { return Error, variable; }
      if it.pos == before { return Loops, variable; }
      if text.Some? { variable := text.value; }
    }
    Discipline.OptionStep(env, it.Rest(), variable);
    var ok := it.TakeClose();
    return if ok then Read else Error, variable;
  }

  method BuildJoinHead(env: Env, it: Cursor, variable: string) returns (r: Option<JoinDef>)
    requires it.Valid()
    modifies it`pos
    ensures it.Valid()
    ensures match JoinHead(env, old(it.Rest()), variable)
            case Done(def, rest) => r == Some(def) && it.Rest() == rest
            case _ => r == None
  {
    ghost var ts := it.Rest();
    var t := it.GetString(env.cv);
    if t.None? { return None; }
    var def := NO_JOIN.(variable := variable, op := t.value);
    if it.Tag() == TagValue {
      var x := env.cv.numeric(it.toks[it.pos].v);
      if x.Some? {
        var range := env.cv.int32(x.value);
        if range.None? { return None; }
        def := def.(range := range.value);
        it.Skip();
        assert it.Rest() == ts[1..][1..];
        if it.Tag() == TagValue {
          var y := env.cv.numeric(it.toks[it.pos].v);
          if y.Some? {
            var cardinality := env.cv.uint32(y.value);
            if cardinality.None? { return None; }
            def := def.(cardinality := cardinality.value);
            it.Skip();
            assert it.Rest() == ts[1..][2..];
          }
        }
      }
    }
    return Some(def);
  }

  method BuildPositionalHead(env: Env, it: Cursor) returns (status: Status, def: JoinDef)
    requires it.Valid() && TagOf(it.Rest()) != TagName
    modifies it`pos
    ensures it.Valid()
    ensures match PositionalHead(env, old(it.Rest()))
            case Done(d, rest) => status == Read && def == d && it.Rest() == rest
            case Fail => status == Error
            case Stuck => status == Loops
  {
    var variable := "";
    if it.Tag() == TagOpen {
      it.Skip();
      status, variable := BuildJoinVariable(env, it);
      if status != Read { return status, NO_JOIN; }
    }
    var head := BuildJoinHead(env, it, variable);
    if head.None? { return Error, NO_JOIN; }
    return Read, head.value;
  }

  method BuildJoin(env: Env, it: Cursor, b: Builder) returns (status: Status)
    requires it.Valid()
    modifies it`pos, b
    ensures Follows(it, b, ParseJoin(env, old(it.Rest())), status)
    decreases |it.toks| - it.pos, 2
  {
    var def;
    if it.Tag() == TagName {
      status, def := BuildMembers(env, it, b);
      if status != Read { return; }
    } else {
      status, def := BuildPositionalHead(env, it);
      if status != Read { return; }
      var argc;
      status, argc := BuildArguments(env, it, b);
      if status != Read { return; }
      def := def.(argc := argc);
    }
    PushJoinDef(b, def);
    return Read;
  }

  // ---- expressions ----

  method BuildTyped(env: Env, etype: ExpressionType, it: Cursor, b: Builder, allowLists: bool) returns (status: Status)
    requires it.Valid()
    modifies it`pos, b
    ensures Follows(it, b, ParseTyped(env, etype, old(it.Rest()), allowLists), status)
    decreases |it.toks| - it.pos, 6
  {
    match etype {
      case ExpressionUnknown => return Error;
      case ExpressionEmpty => return Error;
      case ExpressionTerm =>
        var def := ReadTermDef(env, it);
        if def.None? { return Error; }
        PushTermDef(b, def.value);
        return Read;
      case ExpressionJoin =>
        status := BuildJoin(env, it, b);
      case ExpressionList =>
        if !allowLists { return Error; }
        var n;
        status, n := BuildList(env, it, b);
    }
  }

  /** Main operation: the reader as it runs does what ParseExpression says. */
  method BuildExpression(env: Env, it: Cursor, b: Builder, allowLists: bool) returns (status: Status)
    requires it.Valid()
    modifies it`pos, b
    ensures Follows(it, b, ParseExpression(env, old(it.Rest()), allowLists), status)
    decreases |it.toks| - it.pos, 7
  {
    ghost var ts := it.Rest();
    if it.Tag() == TagName && env.index(ExpressionNames, it.toks[it.pos].name) >= 0 {
      var etype := KeywordType(env.index(ExpressionNames, it.toks[it.pos].name));
      it.Skip();
      if it.Tag() != TagOpen { return Error; }
      it.Skip();
      assert it.Rest() == ts[2..];
      status := BuildTyped(env, etype, it, b, allowLists);
      if status != Read { return; }
      var ok := it.TakeClose();
      if !ok { return Error; }
    } else {
      var etype := ReadExpressionType(env, it);
      if etype.None? { return Error; }
      status := BuildTyped(env, etype.value, it, b, allowLists);
    }
  }

  /** A whole serialization as one expression: it must be used up. */
  method BuildContent(env: Env, content: Tokens, b: Builder, allowLists: bool) returns (status: Status)
    modifies b
    ensures match ParseContent(env, content, allowLists)
            case Done(calls, _) => status == Read && b.calls == old(b.calls) + calls
            case Fail => status == Error
            case Stuck => status == Loops
  {
    var it := new Cursor(content);
    status := BuildExpression(env, it, b, allowLists);
    if status == Read && it.pos < |it.toks| { return Error; }
  }

  method DefineFeatures(b: Builder, featureSet: string, weight: real, n: nat)
    modifies b
    ensures b.calls == old(b.calls) + Discipline.Features(featureSet, weight, n)
  {
    ghost var all := Discipline.Features(featureSet, weight, n);
    ghost var done: Calls := [];
    var left := n;
    while left > 0
      invariant b.calls == old(b.calls) + done && all == done + Discipline.Features(featureSet, weight, left)
    {
      b.Push(DefineFeature(featureSet, weight));
      done := done + [DefineFeature(featureSet, weight)];
      left := left - 1;
    }
    assert all == done;
  }

  /** The expressions of a feature, counted while they are read. */
  method BuildCounted(env: Env, it: Cursor, b: Builder) returns (status: Status, n: nat)
    requires it.Valid()
    modifies it`pos, b
    ensures FollowsCounted(it, b, Discipline.ParseCounted(env, old(it.Rest())), n, status)
  {
    if it.Tag() == TagOpen {
      status, n := BuildList(env, it, b);
    } else {
      status := BuildExpression(env, it, b, false);
      n := 1;
    }
  }

  /** Expressions as features: as many features are defined as expressions were counted. */
  method BuildFeatures(env: Env, it: Cursor, b: Builder, featureSet: string, weight: real) returns (status: Status)
    requires it.Valid()
    modifies it`pos, b
    ensures it.Valid()
    ensures match Discipline.ParseCounted(env, old(it.Rest()))
            case Done((n, calls), rest) =>
              && status == Read && it.Rest() == rest
              && b.calls == old(b.calls) + calls + Discipline.Features(featureSet, weight, n)
            case Fail => status == Error
            case Stuck => status == Loops
  {
    var n;
    status, n := BuildCounted(env, it, b);
    if status != Read { return; }
    DefineFeatures(b, featureSet, weight, n);
  }

  method GetWeight(env: Env, it: Cursor) returns (r: Option<real>)
    requires it.Valid()
    modifies it`pos
    ensures it.Valid()
    ensures match Discipline.GetWeight(env, old(it.Rest()))
            case Done(weight, rest) => r == Some(weight) && it.Rest() == rest
            case _ => r == None
  {
    if it.Tag() != TagValue { return None; }
    r := env.float(it.toks[it.pos].v);
    it.Skip();
  }

  method BuildAnalyzed(env: Env, it: Cursor, b: Builder) returns (status: Status, n: nat)
    requires it.Valid()
    modifies it`pos, b
    ensures FollowsCounted(it, b, Discipline.ParseAnalyzed(env, old(it.Rest())), n, status)
  {
    if it.Tag() != TagOpen { return Error, 0; }
    it.Skip();
    status, n := BuildCounted(env, it, b);
    if status != Read { return; }
    var ok := it.TakeClose();
    if !ok { return Error, n; }
  }

  /** Passes a structure or a value without asking whether there is one. */
  method PassMember(it: Cursor)
    requires it.Valid()
    modifies it`pos
    ensures it.Valid() && it.Rest() == Discipline.Passed(old(it.Rest()))
  {
    var open, at := it.Tag() == TagOpen, it.pos;
    var ok := it.PassStructure();
    if !ok { it.pos := if open then |it.toks| else at; }
  }

  method BuildFeatureMembers(env: Env, it: Cursor, b: Builder) returns (status: Status, m: Discipline.FeatureDef)
    requires it.Valid()
    modifies it`pos, b
    ensures it.Valid()
    ensures match Discipline.FeatureMembers(env, old(it.Rest()), Discipline.NO_FEATURE)
            case Done((f, calls), rest) =>
              status == Read && m == f && it.Rest() == rest && b.calls == old(b.calls) + calls
            case Fail => status == Error
            case Stuck => status == Loops
  {
    ghost var all := Discipline.FeatureMembers(env, it.Rest(), Discipline.NO_FEATURE);
    ghost var before := b.calls;
    ghost var acc: Calls := [];
    m := Discipline.NO_FEATURE;
    ProgressStart(CallsIn(all), before);
    while it.Tag() == TagName
      invariant it.Valid() && MemberProgress(all, before, b.calls, acc, Discipline.FeatureMembers(env, it.Rest(), m))
      decreases |it.toks| - it.pos
    {
      ghost var now, ts := b.calls, it.Rest();
      var idx := env.index(FeatureNames, it.toks[it.pos].name);
      it.Skip();
      if idx < 0 || idx > 4 || idx in m.defined { return Error, m; }
      m := m.(defined := m.defined + {idx});
      if idx == 0 {
        var text := it.GetString(env.cv);
        if text.None? { return Error, m; }
        m := m.(featureSet := text.value);
      } else if idx == 1 {
        var weight := GetWeight(env, it);
        if weight.None? { return Error, m; }
        m := m.(weight := weight.value);
      } else if idx == 2 {
        var n;
        status, n := BuildAnalyzed(env, it, b);
        if status != Read { return; }
        m := m.(n := n);
        ghost var calls := Discipline.ParseAnalyzed(env, ts[1..]).value.1;
        ProgressStep(CallsIn(all), before, now, acc, calls, CallsIn(Discipline.FeatureMembers(env, it.Rest(), m)));
        acc := acc + calls;
      } else {
        PassMember(it);
      }
    }
    ProgressEnd(CallsIn(all), before, b.calls, acc, it.Rest());
    return Read, m;
  }

  /** A query feature, with named members or as set, expressions and weight. */
  method BuildQueryFeature(env: Env, it: Cursor, b: Builder) returns (status: Status)
    requires it.Valid()
    modifies it`pos, b
    ensures Follows(it, b, Discipline.ParseFeature(env, old(it.Rest())), status)
  {
    if it.Tag() == TagName {
      var m;
      status, m := BuildFeatureMembers(env, it, b);
      if status != Read { return; }
      DefineFeatures(b, m.featureSet, m.weight, m.n);
      return Read;
    }
    status := BuildPositionalFeature(env, it, b);
  }

  method BuildPositionalFeature(env: Env, it: Cursor, b: Builder) returns (status: Status)
    requires it.Valid() && TagOf(it.Rest()) != TagName
    modifies it`pos, b
    ensures Follows(it, b, Discipline.ParseFeature(env, old(it.Rest())), status)
  {
    var text := it.GetString(env.cv);
    if text.None? { return Error; }
    var n;
    status, n := BuildAnalyzed(env, it, b);
    if status != Read { return; }
    var weight := GetWeight(env, it);
    if weight.None? { return Error; }
    DefineFeatures(b, text.value, weight.value, n);
    return Read;
  }
}
