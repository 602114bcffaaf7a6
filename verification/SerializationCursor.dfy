/** The cursor with which readers move over a serialization.

    The rest of the tokens from its position is what the reading functions take; past the end the
    tag reads as a close. */
module SerializationCursor {
  import opened Wrappers
  import opened Serialization

  /** How a reader ends: normally, with an exception, or not at all. */
  datatype Status = Read | Error | Loops

  /** The position of a reader in a serialization. */
  class Cursor {
    const toks: Tokens
    var pos: nat

    ghost predicate Valid()
      reads this
    {
      pos <= |toks|
    }

    ghost function Rest(): Tokens
      requires Valid()
      reads this
    {
      toks[pos..]
    }

    constructor (content: Tokens)
      ensures toks == content && pos == 0 && Valid() && Rest() == content
    {
      toks := content;
      pos := 0;
    }

    function Tag(): (tag: Tag)
      requires Valid()
      reads this
      ensures tag == TagOf(Rest())
    {
      if pos == |toks| then TagClose
      else match toks[pos]
           case Open => TagOpen
           case Close => TagClose
           case Name(_) => TagName
           case Val(_) => TagValue
    }

    method Skip()
      requires Valid() && Rest() != []
      modifies `pos
      ensures Valid() && Rest() == old(Rest())[1..]
    {
      pos := pos + 1;
    }

    method GetString(cv: Conversions) returns (r: Option<string>)
      requires Valid()
      modifies `pos
      ensures Valid()
      ensures match GetText(cv, old(Rest()))
              case Done(value, rest) => r == Some(value) && Rest() == rest
              case _ => r == None
    {
      if Tag() != TagValue { return None; }
      r := cv.text(toks[pos].v);
      pos := pos + 1;
    }

    method GetInteger(cv: Conversions) returns (r: Option<int>)
      requires Valid()
      modifies `pos
      ensures Valid()
      ensures match GetInt(cv, old(Rest()))
              case Done(value, rest) => r == Some(value) && Rest() == rest
              case _ => r == None
    {
      if Tag() != TagValue { return None; }
      r := cv.int32(toks[pos].v);
      pos := pos + 1;
    }

    method GetUnsigned(cv: Conversions) returns (r: Option<nat>)
      requires Valid()
      modifies `pos
      ensures Valid()
      ensures match GetUint(cv, old(Rest()))
              case Done(value, rest) => r == Some(value) && Rest() == rest
              case _ => r == None
    {
      if Tag() != TagValue { return None; }
      r := cv.uint32(toks[pos].v);
      pos := pos + 1;
    }

    method TakeClose() returns (ok: bool)
      requires Valid()
      modifies `pos
      ensures Valid()
      ensures ok <==> ConsumeClose(old(Rest())).Done?
      ensures Rest() == if ok then old(Rest())[1..] else old(Rest())
    {
      ok := pos < |toks| && toks[pos] == Close;
      if ok { pos := pos + 1; }
    }

    method GetRange(cv: Conversions) returns (r: Option<Range>)
      requires Valid()
      modifies `pos
      ensures Valid()
      ensures var o := ReadRange(cv, old(Rest()));
              if o.Done? then r == Some(o.value) && Rest() == o.rest else r == None
    {
      if Tag() != TagOpen { return None; }
      Skip();
      var range;
      if Tag() == TagName {
        range := GetRangeMembers(cv);
        if range.None? { return None; }
      } else {
        var start := GetInteger(cv);
        if start.None? { return None; }
        var end := GetInteger(cv);
        if end.None? { return None; }
        range := Some(Range(start.value, end.value));
      }
      var ok := TakeClose();
      return if ok then range else None;
    }

    method GetRangeMembers(cv: Conversions) returns (r: Option<Range>)
      requires Valid()
      modifies `pos
      ensures Valid()
      ensures var o := ReadRangeMembers(cv, old(Rest()), RangeMembers(None, None));
              if o.Done? then r == Some(RangeOf(o.value)) && Rest() == o.rest else r == None
    {
      ghost var all := ReadRangeMembers(cv, Rest(), RangeMembers(None, None));
      var m := RangeMembers(None, None);
      while Tag() == TagName
        invariant Valid() && ReadRangeMembers(cv, Rest(), m) == all
        decreases |toks| - pos
      {
        var idx := RangeMember(toks[pos].name);
        Skip();
        if idx == 0 {
          if m.start.Some? { return None; }
          var start := GetInteger(cv);
          if start.None? { return None; }
          m := m.(start := start);
        } else if idx == 1 {
          if m.end.Some? { return None; }
          var end := GetInteger(cv);
          if end.None? { return None; }
          m := m.(end := end);
        } else {
          return None;
        }
      }
      return Some(RangeOf(m));
    }

    /** Passes a value or a bracketed structure. */
    method PassStructure() returns (ok: bool)
      requires Valid()
      modifies `pos
      ensures Valid()
      ensures match SkipStructure(old(Rest()))
              case Some(rest) => ok && Rest() == rest
              case None => !ok
    {
      if Tag() == TagValue {
        pos := pos + 1;
        return true;
      }
      if Tag() != TagOpen { return false; }
      pos := pos + 1;
      var depth: nat := 1;
      while depth > 0
        invariant Valid()
        invariant SkipBrackets(Rest(), depth) == SkipBrackets(old(Rest())[1..], 1)
        decreases |toks| - pos, depth
      {
        if pos == |toks| { return false; }
        if toks[pos] == Open { depth := depth + 1; } else if toks[pos] == Close { depth := depth - 1; }
        pos := pos + 1;
      }
      return true;
    }
  }
}
