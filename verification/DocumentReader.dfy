/** The reader that inserts documents, as it runs.

    A cursor moves over the tokens and a document of the storage is told what to do. Every method is
    tied to the function of DocumentInsertion that says what it reads, also where it ends with an error. */
module DocumentReader {
  import opened Wrappers
  import opened Serialization
  import opened SerializationCursor
  import opened DocumentInsertion

  /** A document of the storage seen from the reader: what it was told. */
  class StorageDocument {
    var events: Events

    constructor ()
      ensures events == []
    {
      events := [];
    }

    method Receive(event: Event)
      modifies this
      ensures events == old(events) + [event]
    {
      events := events + [event];
    }
  }

  /** Cursor and document have moved on as the outcome of a reading function says; false stands for an exception. */
  twostate predicate Follows(it: Cursor, doc: StorageDocument, new r: Outcome<Events>, ok: bool)
    reads it, doc
  {
    && it.Valid()
    && ok == r.Done?
    && (ok ==> it.Rest() == r.rest && doc.events == old(doc.events) + r.value)
  }

  method GetNumeric(env: Env, it: Cursor) returns (r: Option<Value>)
    requires it.Valid()
    modifies it`pos
    ensures it.Valid()
    ensures var o := GetNumber(env, old(it.Rest()));
            if o.Done? then r == Some(o.value) && it.Rest() == o.rest else r == None
  {
    if it.Tag() != TagValue { return None; }
    r := env.cv.numeric(it.toks[it.pos].v);
    it.Skip();
  }

  method GetPairMembers(env: Env, numeric: bool, it: Cursor) returns (r: Option<PairMembers>)
    requires it.Valid()
    modifies it`pos
    ensures it.Valid()
    ensures var o := ReadPairMembers(env, numeric, old(it.Rest()), NO_PAIR);
            if o.Done? then r == Some(o.value) && it.Rest() == o.rest else r == None
  {
    ghost var all := ReadPairMembers(env, numeric, it.Rest(), NO_PAIR);
    var m := NO_PAIR;
    while it.Tag() == TagName
      invariant it.Valid() && ReadPairMembers(env, numeric, it.Rest(), m) == all
      decreases |it.toks| - it.pos
    {
      var idx := env.index(PairNames, it.toks[it.pos].name);
      it.Skip();
      if idx == 0 {
        if m.name.Some? { return None; }
        var name := it.GetString(env.cv);
        if name.None? { return None; }
        m := m.(name := name);
      } else if idx == 1 && numeric {
        if m.number.Some? { return None; }
        var number := GetNumeric(env, it);
        if number.None? { return None; }
        m := m.(number := number);
      } else if idx == 1 {
        if m.text.Some? { return None; }
        var text := it.GetString(env.cv);
        if text.None? { return None; }
        m := m.(text := text);
      } else {
        return None;
      }
    }
    return Some(m);
  }

  method BuildAttribute(env: Env, it: Cursor, doc: StorageDocument) returns (ok: bool)
    requires it.Valid()
    modifies it`pos, doc
    ensures Follows(it, doc, ReadAttribute(env, old(it.Rest())), ok)
  {
    if it.Tag() == TagName {
      var name := it.toks[it.pos].name;
      it.Skip();
      var value := it.GetString(env.cv);
      if value.None? { return false; }
      doc.Receive(SetAttribute(name, value.value));
      return true;
    }
    if it.Tag() != TagOpen { return false; }
    it.Skip();
    if it.Tag() == TagName {
      var m := GetPairMembers(env, false, it);
      if m.None? || m.value.name.None? || m.value.text.None? { return false; }
      doc.Receive(SetAttribute(m.value.name.value, m.value.text.value));
      ok := it.TakeClose();
      return;
    }
    var name := it.GetString(env.cv);
    if name.None? { return false; }
    var value := it.GetString(env.cv);
    if value.None? { return false; }
    doc.Receive(SetAttribute(name.value, value.value));
    ok := it.TakeClose();
  }

  method BuildMetaData(env: Env, it: Cursor, doc: StorageDocument) returns (ok: bool)
    requires it.Valid()
    modifies it`pos, doc
    ensures Follows(it, doc, ReadMetaData(env, old(it.Rest())), ok)
  {
    if it.Tag() == TagName {
      var name := it.toks[it.pos].name;
      it.Skip();
      var value := GetNumeric(env, it);
      if value.None? { return false; }
      doc.Receive(SetMetaData(name, value.value));
      return true;
    }
    if it.Tag() != TagOpen { return false; }
    it.Skip();
    if it.Tag() == TagName {
      var m := GetPairMembers(env, true, it);
      if m.None? || m.value.name.None? || m.value.number.None? { return false; }
      doc.Receive(SetMetaData(m.value.name.value, m.value.number.value));
      ok := it.TakeClose();
      return;
    }
    var name := it.GetString(env.cv);
    if name.None? { return false; }
    var value := GetNumeric(env, it);
    if value.None? { return false; }
    doc.Receive(SetMetaData(name.value, value.value));
    ok := it.TakeClose();
  }

  /** Terms at positions out of range are cut away; the greatest of them is only remembered. */
  class IndexAccess {
    const doc: StorageDocument
    const forward: bool
    var maxpos: nat

    constructor (doc: StorageDocument, forward: bool)
      ensures this.doc == doc && this.forward == forward && maxpos == 0
    {
      this.doc, this.forward, maxpos := doc, forward, 0;
    }

    method AddTerm(env: Env, t: Term)
      modifies this`maxpos, doc
      ensures doc.events == old(doc.events) + Kept(env, t, forward)
      ensures maxpos == if AsSize(t.pos) > env.maxpos && AsSize(t.pos) > old(maxpos) then AsSize(t.pos) else old(maxpos)
    {
      if AsSize(t.pos) > env.maxpos {
        if AsSize(t.pos) > maxpos { maxpos := AsSize(t.pos); }
        Unit(doc.events);
      } else {
        doc.Receive(if forward then AddForwardTerm(t) else AddSearchTerm(t));
      }
    }
  }

  method GetTermMembers(env: Env, it: Cursor) returns (r: Option<TermMembers>)
    requires it.Valid()
    modifies it`pos
    ensures it.Valid()
    ensures var o := ReadTermMembers(env, old(it.Rest()), NO_TERM);
            if o.Done? then r == Some(o.value) && it.Rest() == o.rest else r == None
  {
    ghost var all := ReadTermMembers(env, it.Rest(), NO_TERM);
    var m := NO_TERM;
    while it.Tag() == TagName
      invariant it.Valid() && ReadTermMembers(env, it.Rest(), m) == all
      decreases |it.toks| - it.pos
    {
      var idx := env.index(TermNames, it.toks[it.pos].name);
      it.Skip();
      if idx == 0 {
        if m.termType.Some? { return None; }
        var termType := it.GetString(env.cv);
        if termType.None? { return None; }
        m := m.(termType := termType);
      } else if idx == 1 {
        if m.value.Some? { return None; }
        var value := it.GetString(env.cv);
        if value.None? { return None; }
        m := m.(value := value);
      } else if idx == 2 || idx == 3 {
        if idx == 2 && m.pos.Some? { return None; }
        var n := it.GetUnsigned(env.cv);
        if n.None? { return None; }
        if idx == 2 { m := m.(pos := n); }
      } else {
        return None;
      }
    }
    return Some(m);
  }

  method BuildTerm(env: Env, it: Cursor, doc: StorageDocument, forward: bool) returns (ok: bool)
    requires it.Valid()
    modifies it`pos, doc
    ensures Follows(it, doc, ReadTerm(env, old(it.Rest()), forward), ok)
  {
    var access := new IndexAccess(doc, forward);
    if it.Tag() != TagOpen { return false; }
    it.Skip();
    if it.Tag() == TagName {
      var m := GetTermMembers(env, it);
      if m.None? || m.value.termType.None? || m.value.value.None? || m.value.pos.None? { return false; }
      access.AddTerm(env, Term(m.value.termType.value, m.value.value.value, m.value.pos.value));
      ok := it.TakeClose();
      return;
    }
    var termType := it.GetString(env.cv);
    if termType.None? { return false; }
    var value := it.GetString(env.cv);
    if value.None? { return false; }
    var pos := it.GetUnsigned(env.cv);
    if pos.None? { return false; }
    if it.Tag() == TagValue { it.Skip(); }
    access.AddTerm(env, Term(termType.value, value.value, pos.value));
    ok := it.TakeClose();
  }

  method GetStructureMembers(env: Env, it: Cursor) returns (r: Option<StructureMembers>)
    requires it.Valid()
    modifies it`pos
    ensures it.Valid()
    ensures var o := ReadStructureMembers(env, old(it.Rest()), NO_STRUCTURE);
            if o.Done? then r == Some(o.value) && it.Rest() == o.rest else r == None
  {
    ghost var all := ReadStructureMembers(env, it.Rest(), NO_STRUCTURE);
    var m := NO_STRUCTURE;
    while it.Tag() == TagName
      invariant it.Valid() && ReadStructureMembers(env, it.Rest(), m) == all
      decreases |it.toks| - it.pos
    {
      var idx := env.index(StructureNames, it.toks[it.pos].name);
      it.Skip();
      if idx == 0 {
        if m.name.Some? { return None; }
        var name := it.GetString(env.cv);
        if name.None? { return None; }
        m := m.(name := name);
      } else if idx == 1 {
        if m.source.Some? { return None; }
        var source := it.GetRange(env.cv);
        if source.None? { return None; }
        m := m.(source := source);
      } else if idx == 2 {
        if m.sink.Some? { return None; }
        var sink := it.GetRange(env.cv);
        if sink.None? { return None; }
        m := m.(sink := sink);
      } else {
        return None;
      }
    }
    return Some(m);
  }

  method BuildStructure(env: Env, it: Cursor, doc: StorageDocument) returns (ok: bool)
    requires it.Valid()
    modifies it`pos, doc
    ensures Follows(it, doc, ReadStructure(env, old(it.Rest())), ok)
  {
    if it.Tag() != TagOpen { return false; }
    it.Skip();
    if it.Tag() == TagName {
      var m := GetStructureMembers(env, it);
      if m.None? || m.value.name.None? || m.value.source.None? || m.value.sink.None? { return false; }
      var s := Structure(m.value.name.value, m.value.source.value, m.value.sink.value);
      if s.source.end <= env.maxpos && s.sink.end <= env.maxpos {
        doc.Receive(AddStructure(s));
      } else {
        Unit(doc.events);
      }
      ok := it.TakeClose();
      return;
    }
    var name := it.GetString(env.cv);
    if name.None? { return false; }
    var source := it.GetRange(env.cv);
    if source.None? { return false; }
    var sink := it.GetRange(env.cv);
    if sink.None? { return false; }
    doc.Receive(AddStructure(Structure(name.value, source.value, sink.value)));
    ok := it.TakeClose();
  }

  method BuildUser(env: Env, it: Cursor, doc: StorageDocument) returns (ok: bool)
    requires it.Valid()
    modifies it`pos, doc
    ensures Follows(it, doc, ReadUser(env, old(it.Rest())), ok)
  {
    var user := it.GetString(env.cv);
    if user.None? { return false; }
    doc.Receive(SetAccess(user.value));
    return true;
  }

  method BuildElement(env: Env, kind: Kind, it: Cursor, doc: StorageDocument) returns (ok: bool)
    requires it.Valid()
    modifies it`pos, doc
    ensures Follows(it, doc, ReadElement(env, kind, old(it.Rest())), ok)
  {
    match kind {
      case Attributes => ok := BuildAttribute(env, it, doc);
      case MetaDataKind => ok := BuildMetaData(env, it, doc);
      case ForwardIndex => ok := BuildTerm(env, it, doc, true);
      case SearchIndex => ok := BuildTerm(env, it, doc, false);
      case Structures => ok := BuildStructure(env, it, doc);
      case AccessRights => ok := BuildUser(env, it, doc);
    }
  }

  lemma ElementsUnfold(env: Env, kind: Kind, ts: Tokens, e: Outcome<Events>)
    requires TagOf(ts) != TagClose && e == ReadElement(env, kind, ts)
    ensures ReadElements(env, kind, ts) == if e.Done? then After(e.value, ReadElements(env, kind, e.rest)) else Fail
  {
  }

  method BuildElements(env: Env, kind: Kind, it: Cursor, doc: StorageDocument) returns (ok: bool)
    requires it.Valid()
    modifies it`pos, doc
    ensures Follows(it, doc, ReadElements(env, kind, old(it.Rest())), ok)
  {
    ghost var all := ReadElements(env, kind, it.Rest());
    ghost var before := doc.events;
    ghost var acc: Events := [];
    ProgressStart(all, before);
    while it.Tag() != TagClose
      invariant it.Valid()
      invariant Progress(all, before, doc.events, acc, ReadElements(env, kind, it.Rest()))
      decreases |it.toks| - it.pos
    {
      ghost var now, e := doc.events, ReadElement(env, kind, it.Rest());
      ElementsUnfold(env, kind, it.Rest(), e);
      ok := BuildElement(env, kind, it, doc);
      if !ok { return; }
      ProgressStep(all, before, now, acc, e.value, ReadElements(env, kind, it.Rest()));
      acc := acc + e.value;
    }
    ProgressEnd(all, before, doc.events, acc, it.Rest());
    return true;
  }

  method BuildSection(env: Env, kind: Kind, it: Cursor, doc: StorageDocument) returns (ok: bool)
    requires it.Valid()
    modifies it`pos, doc
    ensures Follows(it, doc, ReadSection(env, kind, old(it.Rest())), ok)
  {
    if it.Tag() == TagOpen {
      it.Skip();
      ok := BuildElements(env, kind, it, doc);
      if !ok { return; }
      ok := it.TakeClose();
    } else if kind.AccessRights? && it.Tag() == TagValue {
      if it.toks[it.pos].v.Void? {
        it.Skip();
        Unit(doc.events);
        return true;
      }
      ok := BuildUser(env, it, doc);
    } else {
      return false;
    }
  }

  lemma SectionsUnfold(env: Env, k: nat, ts: Tokens, s: Outcome<Events>)
    requires k < |KINDS| && ts != [] && s == ReadSection(env, KINDS[k], ts)
    ensures ReadSections(env, k, ts) == if s.Done? then After(s.value, ReadSections(env, k + 1, s.rest)) else Fail
  {
  }

  method BuildNamedSection(env: Env, idx: int, it: Cursor, doc: StorageDocument) returns (ok: bool)
    requires it.Valid()
    modifies it`pos, doc
    ensures Follows(it, doc, ReadNamedSection(env, idx, old(it.Rest())), ok)
  {
    if 0 <= idx <= 1 {
      var text := it.GetString(env.cv);
      Unit(doc.events);
      return text.Some?;
    }
    if idx < 0 || idx > 7 { return false; }
    ok := BuildSection(env, KINDS[idx - 2], it, doc);
  }

  method BuildNamedSections(env: Env, it: Cursor, doc: StorageDocument) returns (ok: bool)
    requires it.Valid()
    modifies it`pos, doc
    ensures Follows(it, doc, ReadNamedSections(env, old(it.Rest())), ok)
  {
    ghost var all := ReadNamedSections(env, it.Rest());
    ghost var before := doc.events;
    ghost var acc: Events := [];
    ProgressStart(all, before);
    while it.Tag() == TagName
      invariant it.Valid()
      invariant Progress(all, before, doc.events, acc, ReadNamedSections(env, it.Rest()))
      decreases |it.toks| - it.pos
    {
      ghost var now, ts := doc.events, it.Rest();
      var idx := env.index(SectionNames, it.toks[it.pos].name);
      it.Skip();
      ghost var s := ReadNamedSection(env, idx, it.Rest());
      NamedSectionsUnfold(env, ts, s);
      ok := BuildNamedSection(env, idx, it, doc);
      if !ok { return; }
      ProgressStep(all, before, now, acc, s.value, ReadNamedSections(env, it.Rest()));
      acc := acc + s.value;
    }
    ProgressEnd(all, before, doc.events, acc, it.Rest());
    return true;
  }

  lemma NamedSectionsUnfold(env: Env, ts: Tokens, s: Outcome<Events>)
    requires TagOf(ts) == TagName && s == ReadNamedSection(env, env.index(SectionNames, ts[0].name), ts[1..])
    ensures ReadNamedSections(env, ts) == if s.Done? then After(s.value, ReadNamedSections(env, s.rest)) else Fail
  {
  }

  /** The sections of a document without names, in their order; the document may end after each. */
  method BuildSections(env: Env, it: Cursor, doc: StorageDocument) returns (ok: bool)
    requires it.Valid()
    modifies it`pos, doc
    ensures var r := ReadSections(env, 0, old(it.Rest()));
            ok == r.Done? && (ok ==> doc.events == old(doc.events) + r.value)
  {
    ghost var all := ReadSections(env, 0, it.Rest());
    ghost var before := doc.events;
    ghost var acc: Events := [];
    ProgressStart(all, before);
    var k := 0;
    while k < |KINDS| && it.pos < |it.toks|
      invariant it.Valid() && 0 <= k <= |KINDS|
      invariant Progress(all, before, doc.events, acc, ReadSections(env, k, it.Rest()))
    {
      ghost var now, s := doc.events, ReadSection(env, KINDS[k], it.Rest());
      SectionsUnfold(env, k, it.Rest(), s);
      ok := BuildSection(env, KINDS[k], it, doc);
      if !ok { return; }
      k := k + 1;
      ProgressStep(all, before, now, acc, s.value, ReadSections(env, k, it.Rest()));
      acc := acc + s.value;
    }
    if it.pos < |it.toks| { return false; }
    assert it.Rest() == [];
    ProgressEnd(all, before, doc.events, acc, []);
    return true;
  }

  /** Main operation: a document is inserted as ReadDocument says. */
  method BuildStorageDocument(env: Env, content: Tokens, doc: StorageDocument) returns (ok: bool)
    modifies doc
    ensures var r := ReadDocument(env, content);
            ok == r.Done? && (ok ==> doc.events == old(doc.events) + r.value)
  {
    var it := new Cursor(content);
    if it.Tag() == TagName {
      ok := BuildNamedSections(env, it, doc);
      if !ok { return; }
      ok := it.pos == |it.toks|;
    } else {
      var docType := it.GetString(env.cv);
      if docType.None? { return false; }
      ok := BuildSections(env, it, doc);
    }
  }
}
