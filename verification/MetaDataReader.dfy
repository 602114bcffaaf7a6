/** The reader of meta data restrictions as it runs.

    A cursor moves over the tokens and a builder receives conditions. Every method is tied to the
    function of MetaDataRestriction that says what it reads, also where it ends with an error. */
module MetaDataReader {
  import opened Wrappers
  import opened Serialization
  import opened SerializationCursor
  import opened MetaDataRestriction

  /** A builder seen from the reader: the conditions it received. */
  class ConditionBuilder {
    var conditions: Comparisons

    constructor ()
      ensures conditions == []
    {
      conditions := [];
    }

    method AddCondition(c: Comparison<Value>)
      modifies this
      ensures conditions == old(conditions) + [c]
    {
      conditions := conditions + [c];
    }
  }

  /** Cursor and builder have moved on as the outcome of a reading function says; false stands for an exception. */
  twostate predicate Follows(it: Cursor, b: ConditionBuilder, new r: Outcome<Comparisons>, ok: bool)
    reads it, b
  {
    && it.Valid()
    && ok == r.Done?
    && (ok ==> it.Rest() == r.rest && b.conditions == old(b.conditions) + r.value)
  }

  method GetCompareOp(env: Env, it: Cursor) returns (r: Option<CompareOp>)
    requires it.Valid()
    modifies it`pos
    ensures it.Valid()
    ensures var o := ReadOp(env, old(it.Rest()));
            if o.Done? then r == Some(o.value) && it.Rest() == o.rest else r == None
  {
    var text := None;
    if it.Tag() == TagValue {
      text := env.cv.text(it.toks[it.pos].v);
    } else if it.Tag() == TagName {
      text := Some(it.toks[it.pos].name);
    }
    if text.None? { return None; }
    r := ParseOp(text.value);
    if r.Some? { it.Skip(); }
  }

  method GetMembers(env: Env, it: Cursor) returns (r: Option<Members>)
    requires it.Valid()
    modifies it`pos
    ensures it.Valid()
    ensures var o := CompareMembers(env, old(it.Rest()), Members(None, None, None));
            if o.Done? then r == Some(o.value) && it.Rest() == o.rest else r == None
  {
    ghost var all := CompareMembers(env, it.Rest(), Members(None, None, None));
    var m := Members(None, None, None);
    while it.Tag() == TagName
      invariant it.Valid() && CompareMembers(env, it.Rest(), m) == all
      decreases |it.toks| - it.pos
    {
      var idx := env.index(CompareNames, it.toks[it.pos].name);
      ghost var ts := it.Rest();
      it.Skip();
      if idx == 0 {
        if m.op.Some? { return None; }
        var op := GetCompareOp(env, it);
        if op.None? { return None; }
        m := m.(op := op);
      } else if idx == 1 {
        if m.name.Some? { return None; }
        var name := it.GetString(env.cv);
        if name.None? { return None; }
        m := m.(name := name);
      } else if idx == 2 {
        if m.value.Some? || it.Tag() != TagValue { return None; }
        m := m.(value := Some(it.toks[it.pos].v));
        it.Skip();
        assert ts[1..][1..] == ts[2..];
      } else {
        return None;
      }
    }
    return Some(m);
  }

  method GetCompare(env: Env, it: Cursor, newGroup: bool) returns (r: Option<Comparison<Value>>)
    requires it.Valid()
    modifies it`pos
    ensures it.Valid()
    ensures var o := ReadCompare(env, old(it.Rest()), newGroup);
            if o.Done? then r == Some(o.value) && it.Rest() == o.rest else r == None
  {
    if it.Tag() == TagValue {
      var op := GetCompareOp(env, it);
      if op.None? { return None; }
      var name := it.GetString(env.cv);
      if name.None? || it.Tag() != TagValue { return None; }
      r := Some(Comparison(op.value, name.value, it.toks[it.pos].v, newGroup));
      it.Skip();
    } else {
      var m := GetMembers(env, it);
      if m.None? || m.value.op.None? || m.value.name.None? || m.value.value.None? { return None; }
      r := Some(Comparison(m.value.op.value, m.value.name.value, m.value.value.value, newGroup));
    }
  }

  /** A condition that is a group of its own. */
  method BuildSingle(env: Env, it: Cursor, b: ConditionBuilder) returns (ok: bool)
    requires it.Valid()
    modifies it`pos, b
    ensures var c := ReadCompare(env, old(it.Rest()), true);
            Follows(it, b, if c.Done? then Done([c.value], c.rest) else Fail, ok)
  {
    var c := GetCompare(env, it, true);
    if c.None? { return false; }
    b.AddCondition(c.value);
    return true;
  }

  method BuildJoin(env: Env, it: Cursor, b: ConditionBuilder, doGroup: bool) returns (ok: bool)
    requires it.Valid()
    modifies it`pos, b
    ensures Follows(it, b, ReadJoin(env, old(it.Rest()), doGroup, true), ok)
  {
    ghost var all := ReadJoin(env, it.Rest(), doGroup, true);
    ghost var before := b.conditions;
    ghost var acc: Comparisons := [];
    var newGroup := true;
    ProgressStart(all, before);
    while it.Tag() == TagOpen
      invariant it.Valid()
      invariant Progress(all, before, b.conditions, acc, ReadJoin(env, it.Rest(), doGroup, newGroup))
      decreases |it.toks| - it.pos
    {
      ghost var now, r := b.conditions, ReadJoin(env, it.Rest(), doGroup, newGroup);
      it.Skip();
      var c := GetCompare(env, it, newGroup);
      if c.None? { return false; }
      b.AddCondition(c.value);
      if doGroup { newGroup := false; }
      ok := it.TakeClose();
      if !ok { return; }
      assert r == After([c.value], ReadJoin(env, it.Rest(), doGroup, newGroup));
      ProgressStep(all, before, now, acc, [c.value], ReadJoin(env, it.Rest(), doGroup, newGroup));
      acc := acc + [c.value];
    }
    ProgressEnd(all, before, b.conditions, acc, it.Rest());
    return true;
  }

  method BuildJoinStruct(env: Env, it: Cursor, b: ConditionBuilder, doGroup: bool) returns (ok: bool)
    requires it.Valid()
    modifies it`pos, b
    ensures Follows(it, b, ReadJoinStruct(env, old(it.Rest()), doGroup), ok)
  {
    if it.Tag() != TagOpen { return false; }
    it.Skip();
    if it.Tag() == TagOpen {
      ok := BuildJoin(env, it, b, doGroup);
    } else {
      ok := BuildSingle(env, it, b);
    }
    if !ok { return; }
    ok := it.TakeClose();
  }

  method BuildNamed(env: Env, it: Cursor, b: ConditionBuilder) returns (ok: bool)
    requires it.Valid() && TagOf(it.Rest()) == TagName
    modifies it`pos, b
    ensures Follows(it, b, ReadNamed(env, old(it.Rest())), ok)
  {
    ghost var ts := it.Rest();
    var idx := env.index(RestrictionNames, it.toks[it.pos].name);
    if idx < 0 { return false; }
    if idx >= 2 {
      ok := BuildSingle(env, it, b);
      return;
    }
    it.Skip();
    if it.Tag() != TagOpen { return false; }
    assert it.toks[it.pos..][1..] == ts[2..];
    if idx == 0 && it.pos + 1 < |it.toks| && it.toks[it.pos + 1].Name? {
      it.Skip();
      if it.toks[it.pos].name != "condition" { return false; }
      it.Skip();
      assert it.Rest() == ts[3..];
      ok := BuildJoinStruct(env, it, b, true);
    } else {
      ok := BuildJoinStruct(env, it, b, false);
    }
  }

  method BuildItem(env: Env, it: Cursor, b: ConditionBuilder) returns (ok: bool)
    requires it.Valid()
    modifies it`pos, b
    ensures Follows(it, b, ReadItem(env, old(it.Rest())), ok)
  {
    if it.Tag() == TagName {
      ok := BuildNamed(env, it, b);
    } else if it.Tag() == TagOpen {
      ok := BuildJoin(env, it, b, true);
    } else {
      ok := BuildSingle(env, it, b);
    }
  }

  method BuildItems(env: Env, it: Cursor, b: ConditionBuilder) returns (ok: bool)
    requires it.Valid()
    modifies it`pos, b
    ensures Follows(it, b, ReadItems(env, old(it.Rest())), ok)
  {
    ghost var all := ReadItems(env, it.Rest());
    ghost var before := b.conditions;
    ghost var acc: Comparisons := [];
    ProgressStart(all, before);
    while it.Tag() == TagOpen
      invariant it.Valid()
      invariant Progress(all, before, b.conditions, acc, ReadItems(env, it.Rest()))
      decreases |it.toks| - it.pos
    {
      ghost var now, r := b.conditions, ReadItems(env, it.Rest());
      it.Skip();
      ghost var item := ReadItem(env, it.Rest());
      ok := BuildItem(env, it, b);
      if !ok { return; }
      ok := it.TakeClose();
      if !ok { return; }
      assert r == After(item.value, ReadItems(env, it.Rest()));
      ProgressStep(all, before, now, acc, item.value, ReadItems(env, it.Rest()));
      acc := acc + item.value;
    }
    ProgressEnd(all, before, b.conditions, acc, it.Rest());
    return true;
  }

  method BuildRestriction(env: Env, it: Cursor, b: ConditionBuilder) returns (ok: bool)
    requires it.Valid()
    modifies it`pos, b
    ensures Follows(it, b, ReadRestriction(env, old(it.Rest())), ok)
  {
    ghost var ts := it.Rest();
    if it.Tag() == TagName {
      ok := BuildNamed(env, it, b);
    } else if it.Tag() == TagOpen {
      if it.pos + 1 < |it.toks| && it.toks[it.pos + 1].Name? {
        it.Skip();
        ok := BuildNamed(env, it, b);
      } else {
        ok := BuildItems(env, it, b);
      }
    } else if it.pos < |it.toks| {
      ok := BuildItem(env, it, b);
    } else {
      Unit(b.conditions);
      ok := true;
    }
  }

  /** Main operation: the reader as it runs does what ReadContent says, and ends for every serialization. */
  method BuildContent(env: Env, content: Tokens, b: ConditionBuilder) returns (ok: bool)
    modifies b
    ensures var r := ReadContent(env, content);
            ok == r.Done? && (ok ==> b.conditions == old(b.conditions) + r.value)
  {
    var it := new Cursor(content);
    ok := BuildRestriction(env, it, b);
    if ok && it.pos < |it.toks| { ok := false; }
  }
}
