/** Analyzed documents: how they are serialized, and what the storage receives when they are inserted. */
module DocumentInsertion {
  import opened Wrappers
  import opened Serialization
  import SNM = StructureNameMap

  datatype Term = Term(termType: string, value: string, pos: nat)

  datatype Structure = Structure(name: string, source: Range, sink: Range)

  datatype Attribute = Attribute(name: string, value: string)

  datatype MetaData = MetaData(name: string, value: Value)

  datatype Document = Document(
    docType: string,
    attributes: seq<Attribute>,
    metadata: seq<MetaData>,
    forwardTerms: seq<Term>,
    searchTerms: seq<Term>,
    structures: seq<Structure>,
    access: seq<string>)

  /** What the storage document is told. */
  datatype Event =
    | SetAttribute(name: string, value: string)
    | SetMetaData(name: string, number: Value)
    | AddForwardTerm(forward: Term)
    | AddSearchTerm(search: Term)
    | AddStructure(structure: Structure)
    | SetAccess(user: string)

  type Events = seq<Event>

  /** The name tables of the readers. */
  datatype Table = PairNames | TermNames | StructureNames | SectionNames

  function Names(t: Table): seq<string>
  {
    match t
    case PairNames => ["name", "value"]
    case TermNames => ["type", "value", "pos", "len"]
    case StructureNames => ["name", "source", "sink"]
    case SectionNames =>
      ["docid", "doctype", "attribute", "metadata", "forwardindex", "searchindex", "searchstruct", "access"]
  }

  /** The conversions of values, the lookup of names, and the greatest position that the storage can hold. */
  datatype Env = Env(cv: Conversions, index: (Table, string) -> int, maxpos: nat)

  predicate IsNumber(v: Value) { v.Int? || v.Real? }

  ghost predicate FaithfulEnv(env: Env)
  {
    && Faithful(env.cv) && env.maxpos <= INT_MAX && (forall v :: IsNumber(v) ==> env.cv.numeric(v) == Some(v))
    && forall t, name :: env.index(t, name) == SNM.Index(SNM.Join(Names(t), ','), ',', name)
  }

  // ---- serialization ----

  function PrintAll<T>(emit: T -> Tokens, l: seq<T>): Tokens
  {
    if l == [] then [] else emit(l[0]) + PrintAll(emit, l[1..])
  }

  function PrintAttribute(a: Attribute): Tokens { [Name(a.name), Val(Str(a.value))] }

  function PrintMetaData(m: MetaData): Tokens { [Name(m.name), Val(m.value)] }

  /** A position of zero is left out. */
  function PrintTerm(t: Term): Tokens
  {
    [Open, Val(Str(t.termType)), Val(Str(t.value))] + (if t.pos != 0 then [Val(Int(t.pos))] else []) + [Close]
  }

  function PrintStructure(s: Structure): Tokens
  {
    [Open, Val(Str(s.name))] + (PrintRange(s.source) + (PrintRange(s.sink) + [Close]))
  }

  function PrintUser(user: string): Tokens { [Val(Str(user))] }

  function Section(content: Tokens): Tokens { [Open] + content + [Close] }

  function PrintDocument(d: Document): Tokens
  {
    [Val(Str(d.docType))]
    + (Section(PrintAll(PrintAttribute, d.attributes))
    + (Section(PrintAll(PrintMetaData, d.metadata))
    + (Section(PrintAll(PrintTerm, d.forwardTerms))
    + (Section(PrintAll(PrintTerm, d.searchTerms))
    + (Section(PrintAll(PrintStructure, d.structures))
    + (if d.access == [] then [] else Section(PrintAll(PrintUser, d.access))))))))
  }

  /** The elements of a list, one after the other. */
  method SerializeAll<T>(emit: T -> Tokens, l: seq<T>) returns (out: Tokens)
    ensures out == PrintAll(emit, l)
  {
    out := [];
    var vi := 0;
    while vi < |l|
      invariant 0 <= vi <= |l| && PrintAll(emit, l) == out + PrintAll(emit, l[vi..])
    {
      assert l[vi..][1..] == l[vi + 1..];
      Assoc(out, emit(l[vi]), PrintAll(emit, l[vi + 1..]));
      out := out + emit(l[vi]);
      vi := vi + 1;
    }
    Unit(out);
  }

  method Serialize(d: Document) returns (out: Tokens)
    ensures out == PrintDocument(d)
  {
    var attributes := SerializeAll(PrintAttribute, d.attributes);
    var metadata := SerializeAll(PrintMetaData, d.metadata);
    var forward := SerializeAll(PrintTerm, d.forwardTerms);
    var search := SerializeAll(PrintTerm, d.searchTerms);
    var structures := SerializeAll(PrintStructure, d.structures);
    var access: Tokens := [];
    if d.access != [] {
      access := SerializeAll(PrintUser, d.access);
      access := Section(access);
    }
    out := [Val(Str(d.docType))]
         + (Section(attributes) + (Section(metadata) + (Section(forward) + (Section(search)
         + (Section(structures) + access)))));
  }

  // ---- reading ----

  function GetNumber(env: Env, ts: Tokens): (r: Outcome<Value>)
    ensures r.Done? ==> ts != [] && r.rest == ts[1..]
    ensures !r.Stuck?
  {
    if TagOf(ts) == TagValue && env.cv.numeric(ts[0].v).Some?
    then Done(env.cv.numeric(ts[0].v).value, ts[1..]) else Fail
  }

  function Closed(ts: Tokens, events: Events): (r: Outcome<Events>)
    ensures r.Done? ==> |r.rest| < |ts|
    ensures !r.Stuck?
  {
    if ConsumeClose(ts).Done? then Done(events, ts[1..]) else Fail
  }

  /** Name and value of an attribute or of metadata, as far as they have been read. */
  datatype PairMembers = PairMembers(name: Option<string>, text: Option<string>, number: Option<Value>)

  const NO_PAIR := PairMembers(None, None, None)

  /** Named members of an attribute or of metadata, each at most once. */
  function ReadPairMembers(env: Env, numeric: bool, ts: Tokens, m: PairMembers): (r: Outcome<PairMembers>)
    ensures r.Done? ==> |r.rest| <= |ts|
    ensures !r.Stuck?
    decreases |ts|
  {
    if TagOf(ts) != TagName then Done(m, ts)
    else
      var idx, text, number := env.index(PairNames, ts[0].name), GetText(env.cv, ts[1..]), GetNumber(env, ts[1..]);
      if idx == 0 && m.name.None? && text.Done? then
        ReadPairMembers(env, numeric, text.rest, m.(name := Some(text.value)))
      else if idx == 1 && !numeric && m.text.None? && text.Done? then
        ReadPairMembers(env, numeric, text.rest, m.(text := Some(text.value)))
      else if idx == 1 && numeric && m.number.None? && number.Done? then
        ReadPairMembers(env, numeric, number.rest, m.(number := Some(number.value)))
      else Fail
  }

  /** An attribute as name and value, or as structure with a tuple or with named members. */
  function ReadAttribute(env: Env, ts: Tokens): (r: Outcome<Events>)
    ensures r.Done? ==> |r.rest| < |ts|
    ensures !r.Stuck?
  {
    if TagOf(ts) == TagName then
      var value := GetText(env.cv, ts[1..]);
      if value.Done? then Done([SetAttribute(ts[0].name, value.value)], value.rest) else Fail
    else if TagOf(ts) != TagOpen then Fail
    else if TagOf(ts[1..]) == TagName then
      var m := ReadPairMembers(env, false, ts[1..], NO_PAIR);
      if m.Done? && m.value.name.Some? && m.value.text.Some?
      then Closed(m.rest, [SetAttribute(m.value.name.value, m.value.text.value)]) else Fail
    else
      var name := GetText(env.cv, ts[1..]);
      if !name.Done? then Fail
      else
        var value := GetText(env.cv, name.rest);
        if value.Done? then Closed(value.rest, [SetAttribute(name.value, value.value)]) else Fail
  }

  function ReadMetaData(env: Env, ts: Tokens): (r: Outcome<Events>)
    ensures r.Done? ==> |r.rest| < |ts|
    ensures !r.Stuck?
  {
    if TagOf(ts) == TagName then
      var value := GetNumber(env, ts[1..]);
      if value.Done? then Done([SetMetaData(ts[0].name, value.value)], value.rest) else Fail
    else if TagOf(ts) != TagOpen then Fail
    else if TagOf(ts[1..]) == TagName then
      var m := ReadPairMembers(env, true, ts[1..], NO_PAIR);
      if m.Done? && m.value.name.Some? && m.value.number.Some?
      then Closed(m.rest, [SetMetaData(m.value.name.value, m.value.number.value)]) else Fail
    else
      var name := GetText(env.cv, ts[1..]);
      if !name.Done? then Fail
      else
        var value := GetNumber(env, name.rest);
        if value.Done? then Closed(value.rest, [SetMetaData(name.value, value.value)]) else Fail
  }

  /** A 32 bit index as it compares to a size: from 2^31 on it is negative, and as a size very large. */
  function AsSize(pos: nat): nat { if pos <= INT_MAX then pos else pos + 0xffff_ffff_0000_0000 }

  /** A position that the storage cannot hold is dropped. */
  function Kept(env: Env, t: Term, forward: bool): Events
  {
    if AsSize(t.pos) > env.maxpos then [] else if forward then [AddForwardTerm(t)] else [AddSearchTerm(t)]
  }

  datatype TermMembers = TermMembers(termType: Option<string>, value: Option<string>, pos: Option<nat>)

  const NO_TERM := TermMembers(None, None, None)

  /** Named members of a term, each at most once; its length is ignored. */
  function ReadTermMembers(env: Env, ts: Tokens, m: TermMembers): (r: Outcome<TermMembers>)
    ensures r.Done? ==> |r.rest| <= |ts|
    ensures !r.Stuck?
    decreases |ts|
  {
    if TagOf(ts) != TagName then Done(m, ts)
    else
      var idx, text, n := env.index(TermNames, ts[0].name), GetText(env.cv, ts[1..]), GetUint(env.cv, ts[1..]);
      if idx == 0 && m.termType.None? && text.Done? then
        ReadTermMembers(env, text.rest, m.(termType := Some(text.value)))
      else if idx == 1 && m.value.None? && text.Done? then
        ReadTermMembers(env, text.rest, m.(value := Some(text.value)))
      else if idx == 2 && m.pos.None? && n.Done? then ReadTermMembers(env, n.rest, m.(pos := Some(n.value)))
      else if idx == 3 && n.Done? then ReadTermMembers(env, n.rest, m)
      else Fail
  }

  /** A term as tuple of which a fourth value is its length, which is ignored, or with named members. */
  function ReadTerm(env: Env, ts: Tokens, forward: bool): (r: Outcome<Events>)
    ensures r.Done? ==> |r.rest| < |ts|
    ensures !r.Stuck?
  {
    if TagOf(ts) != TagOpen then Fail
    else if TagOf(ts[1..]) == TagName then
      var m := ReadTermMembers(env, ts[1..], NO_TERM);
      if m.Done? && m.value.termType.Some? && m.value.value.Some? && m.value.pos.Some?
      then Closed(m.rest, Kept(env, Term(m.value.termType.value, m.value.value.value, m.value.pos.value), forward))
      else Fail
    else
      var termType := GetText(env.cv, ts[1..]);
      if !termType.Done? then Fail
      else
        var value := GetText(env.cv, termType.rest);
        if !value.Done? then Fail
        else
          var pos := GetUint(env.cv, value.rest);
          if !pos.Done? then Fail
          else
            var rest := if TagOf(pos.rest) == TagValue then pos.rest[1..] else pos.rest;
            Closed(rest, Kept(env, Term(termType.value, value.value, pos.value), forward))
  }

  datatype StructureMembers = StructureMembers(name: Option<string>, source: Option<Range>, sink: Option<Range>)

  const NO_STRUCTURE := StructureMembers(None, None, None)

  /** Named members of a structure, each at most once. */
  function ReadStructureMembers(env: Env, ts: Tokens, m: StructureMembers): (r: Outcome<StructureMembers>)
    ensures r.Done? ==> |r.rest| <= |ts|
    ensures !r.Stuck?
    decreases |ts|
  {
    if TagOf(ts) != TagName then Done(m, ts)
    else
      var idx, text, range :=
        env.index(StructureNames, ts[0].name), GetText(env.cv, ts[1..]), ReadRange(env.cv, ts[1..]);
      if idx == 0 && m.name.None? && text.Done? then
        ReadStructureMembers(env, text.rest, m.(name := Some(text.value)))
      else if idx == 1 && m.source.None? && range.Done? then
        ReadStructureMembers(env, range.rest, m.(source := Some(range.value)))
      else if idx == 2 && m.sink.None? && range.Done? then
        ReadStructureMembers(env, range.rest, m.(sink := Some(range.value)))
      else Fail
  }

  /** A structure with named members is dropped if it ends behind the greatest position. */
  function KeptStructure(env: Env, s: Structure): Events
  {
    if s.source.end <= env.maxpos && s.sink.end <= env.maxpos then [AddStructure(s)] else []
  }

  /** A structure as tuple, whose positions are not compared with the greatest one, or with named members. */
  function ReadStructure(env: Env, ts: Tokens): (r: Outcome<Events>)
    ensures r.Done? ==> |r.rest| < |ts|
    ensures !r.Stuck?
  {
    if TagOf(ts) != TagOpen then Fail
    else if TagOf(ts[1..]) == TagName then
      var m := ReadStructureMembers(env, ts[1..], NO_STRUCTURE);
      if m.Done? && m.value.name.Some? && m.value.source.Some? && m.value.sink.Some?
      then Closed(m.rest, KeptStructure(env, Structure(m.value.name.value, m.value.source.value, m.value.sink.value)))
      else Fail
    else
      var name := GetText(env.cv, ts[1..]);
      if !name.Done? then Fail
      else
        var source := ReadRange(env.cv, name.rest);
        if !source.Done? then Fail
        else
          var sink := ReadRange(env.cv, source.rest);
          if !sink.Done? then Fail
          else Closed(sink.rest, [AddStructure(Structure(name.value, source.value, sink.value))])
  }

  function ReadUser(env: Env, ts: Tokens): (r: Outcome<Events>)
    ensures r.Done? ==> |r.rest| < |ts|
    ensures !r.Stuck?
  {
    var user := GetText(env.cv, ts);
    if user.Done? then Done([SetAccess(user.value)], user.rest) else Fail
  }

  datatype Kind = Attributes | MetaDataKind | ForwardIndex | SearchIndex | Structures | AccessRights

  function ReadElement(env: Env, kind: Kind, ts: Tokens): (r: Outcome<Events>)
    ensures r.Done? ==> |r.rest| < |ts|
    ensures !r.Stuck?
  {
    match kind
    case Attributes => ReadAttribute(env, ts)
    case MetaDataKind => ReadMetaData(env, ts)
    case ForwardIndex => ReadTerm(env, ts, true)
    case SearchIndex => ReadTerm(env, ts, false)
    case Structures => ReadStructure(env, ts)
    case AccessRights => ReadUser(env, ts)
  }

  /** Elements up to a close. */
  function ReadElements(env: Env, kind: Kind, ts: Tokens): (r: Outcome<Events>)
    ensures r.Done? ==> |r.rest| <= |ts|
    ensures !r.Stuck?
    decreases |ts|
  {
    if TagOf(ts) == TagClose then Done([], ts)
    else
      var e := ReadElement(env, kind, ts);
      if !e.Done? then Fail
      else match ReadElements(env, kind, e.rest)
           case Done(more, rest) => Done(e.value + more, rest)
           case _ => Fail
  }

  function ReadSection(env: Env, kind: Kind, ts: Tokens): (r: Outcome<Events>)
    ensures r.Done? ==> |r.rest| < |ts|
    ensures !r.Stuck?
  {
    if TagOf(ts) == TagOpen then
      var r := ReadElements(env, kind, ts[1..]);
      if r.Done? then Closed(r.rest, r.value) else Fail
    else if kind.AccessRights? && TagOf(ts) == TagValue then
      if ts[0].v.Void? then Done([], ts[1..]) else ReadUser(env, ts)
    else Fail
  }

  const KINDS := [Attributes, MetaDataKind, ForwardIndex, SearchIndex, Structures, AccessRights]

  /** The sections from the k-th on; the document may end after each. */
  function ReadSections(env: Env, k: nat, ts: Tokens): (r: Outcome<Events>)
    requires k <= |KINDS|
    ensures !r.Stuck?
    decreases |KINDS| - k
  {
    if ts == [] then Done([], [])
    else if k == |KINDS| then Fail
    else
      var s := ReadSection(env, KINDS[k], ts);
      if !s.Done? then Fail
      else match ReadSections(env, k + 1, s.rest)
           case Done(more, rest) => Done(s.value + more, rest)
           case _ => Fail
  }

  /** Named sections in any order; the names of document and document type are passed. */
  function ReadNamedSections(env: Env, ts: Tokens): (r: Outcome<Events>)
    ensures r.Done? ==> |r.rest| <= |ts|
    ensures !r.Stuck?
    decreases |ts|
  {
    if TagOf(ts) != TagName then Done([], ts)
    else
      var s := ReadNamedSection(env, env.index(SectionNames, ts[0].name), ts[1..]);
      if s.Done? then After(s.value, ReadNamedSections(env, s.rest)) else Fail
  }

  function ReadNamedSection(env: Env, idx: int, ts: Tokens): (r: Outcome<Events>)
    ensures r.Done? ==> |r.rest| <= |ts|
    ensures !r.Stuck?
  {
    if 0 <= idx <= 1 then
      var text := GetText(env.cv, ts);
      if text.Done? then Done([], text.rest) else Fail
    else if 2 <= idx <= 7 then ReadSection(env, KINDS[idx - 2], ts)
    else Fail
  }

  /** A document as list of sections behind its type, or with named sections. */
  function ReadDocument(env: Env, ts: Tokens): (r: Outcome<Events>)
    ensures !r.Stuck?
  {
    if TagOf(ts) == TagName then
      var r := ReadNamedSections(env, ts);
      if r.Done? && r.rest == [] then r else Fail
    else
      var docType := GetText(env.cv, ts);
      if docType.Done? then ReadSections(env, 0, docType.rest) else Fail
  }

  // ---- what is inserted ----

  predicate Storable(d: Document)
  {
    && (forall m :: m in d.metadata ==> IsNumber(m.value))
    && (forall t :: t in d.forwardTerms ==> t.pos <= UINT_MAX)
    && (forall t :: t in d.searchTerms ==> t.pos <= UINT_MAX)
    && (forall s :: s in d.structures ==> RangeInRange(s.source) && RangeInRange(s.sink))
  }

  ghost predicate Positioned(terms: seq<Term>) { forall t :: t in terms ==> t.pos >= 1 }

  function Flat<T>(f: T -> Events, l: seq<T>): Events
  {
    if l == [] then [] else f(l[0]) + Flat(f, l[1..])
  }

  function AttributeEvent(a: Attribute): Events { [SetAttribute(a.name, a.value)] }

  function MetaDataEvent(m: MetaData): Events { [SetMetaData(m.name, m.value)] }

  function ForwardEvent(maxpos: nat): Term -> Events {
    (t: Term) => if t.pos <= maxpos then [AddForwardTerm(t)] else []
  }

  function SearchEvent(maxpos: nat): Term -> Events {
    (t: Term) => if t.pos <= maxpos then [AddSearchTerm(t)] else []
  }

  function StructureEvent(s: Structure): Events { [AddStructure(s)] }

  function UserEvent(user: string): Events { [SetAccess(user)] }

  /** What a document means to the storage: everything in it in its order, without the terms whose position is
      greater than the storage can hold. */
  function Inserted(d: Document, maxpos: nat): Events
  {
    Flat(AttributeEvent, d.attributes)
    + (Flat(MetaDataEvent, d.metadata)
    + (Flat(ForwardEvent(maxpos), d.forwardTerms)
    + (Flat(SearchEvent(maxpos), d.searchTerms)
    + (Flat(StructureEvent, d.structures)
    + Flat(UserEvent, d.access)))))
  }

  // ---- round trip ----

  /** An element is read back as its events in front of anything, or not at all. */
  ghost predicate ReadsBack<T>(env: Env, kind: Kind, emit: T -> Tokens, f: T -> Events, good: T -> bool, x: T)
  {
    forall more: Tokens :: IsRead(env, kind, emit(x), f(x), good(x), more)
  }

  ghost predicate IsRead(env: Env, kind: Kind, element: Tokens, events: Events, good: bool, more: Tokens)
  {
    && TagOf(element + more) != TagClose
    && ReadElement(env, kind, element + more) == if good then Done(events, more) else Fail
  }

  ghost predicate AllGood<T>(good: T -> bool, l: seq<T>) { forall x :: x in l ==> good(x) }

  lemma AllGoodFirst<T>(good: T -> bool, l: seq<T>)
    requires l != []
    ensures AllGood(good, l) <==> good(l[0]) && AllGood(good, l[1..])
  {
    assert forall x :: x in l <==> x == l[0] || x in l[1..];
  }

  lemma ElementsStep<T>(env: Env, kind: Kind, emit: T -> Tokens, f: T -> Events, good: T -> bool, x: T, more: Tokens)
    requires ReadsBack(env, kind, emit, f, good, x)
    ensures ReadElements(env, kind, emit(x) + more)
         == if !good(x) then Fail
            else match ReadElements(env, kind, more)
                 case Done(events, end) => Done(f(x) + events, end)
                 case _ => Fail
  {
    assert IsRead(env, kind, emit(x), f(x), good(x), more);
  }

  /** Elements of a section are read back if each is; one that is not read makes the section fail. */
  lemma {:induction false} ElementsRead<T(!new)>(env: Env, kind: Kind, emit: T -> Tokens, f: T -> Events,
                                                good: T -> bool, l: seq<T>, rest: Tokens)
    requires forall x :: x in l ==> ReadsBack(env, kind, emit, f, good, x)
    ensures ReadElements(env, kind, PrintAll(emit, l) + ([Close] + rest))
         == if AllGood(good, l) then Done(Flat(f, l), [Close] + rest) else Fail
    decreases l
  {
    var end := [Close] + rest;
    if l == [] {
      Unit(end);
    } else {
      var more := PrintAll(emit, l[1..]) + end;
      Assoc(emit(l[0]), PrintAll(emit, l[1..]), end);
      AllGoodFirst(good, l);
      assert l[0] in l;
      ElementsStep(env, kind, emit, f, good, l[0], more);
      ElementsRead(env, kind, emit, f, good, l[1..], rest);
    }
  }

  lemma SectionRead<T(!new)>(env: Env, kind: Kind, emit: T -> Tokens, f: T -> Events, good: T -> bool,
                             l: seq<T>, rest: Tokens)
    requires forall x :: x in l ==> ReadsBack(env, kind, emit, f, good, x)
    ensures ReadSection(env, kind, Section(PrintAll(emit, l)) + rest)
         == if AllGood(good, l) then Done(Flat(f, l), rest) else Fail
    ensures Section(PrintAll(emit, l)) + rest != []
  {
    var ts := Section(PrintAll(emit, l)) + rest;
    ElementsRead(env, kind, emit, f, good, l, rest);
    assert ts[1..] == PrintAll(emit, l) + ([Close] + rest);
    assert ([Close] + rest)[1..] == rest;
  }

  lemma AttributeRead(env: Env, a: Attribute, more: Tokens)
    requires FaithfulEnv(env)
    ensures TagOf(PrintAttribute(a) + more) == TagName
    ensures ReadAttribute(env, PrintAttribute(a) + more) == Done(AttributeEvent(a), more)
  {
    assert (PrintAttribute(a) + more)[1..][1..] == more;
  }

  lemma MetaDataRead(env: Env, m: MetaData, more: Tokens)
    requires FaithfulEnv(env) && IsNumber(m.value)
    ensures TagOf(PrintMetaData(m) + more) == TagName
    ensures ReadMetaData(env, PrintMetaData(m) + more) == Done(MetaDataEvent(m), more)
  {
    assert (PrintMetaData(m) + more)[1..][1..] == more;
  }

  /** A term without position is not read back. */
  lemma TermRead(env: Env, t: Term, forward: bool, more: Tokens)
    requires FaithfulEnv(env) && t.pos <= UINT_MAX
    ensures TagOf(PrintTerm(t) + more) == TagOpen
    ensures ReadTerm(env, PrintTerm(t) + more, forward)
         == if t.pos >= 1 then Done((if forward then ForwardEvent(env.maxpos) else SearchEvent(env.maxpos))(t), more)
            else Fail
  {
    var ts := PrintTerm(t) + more;
    if t.pos >= 1 {
      assert ts[1..][1..][1..] == [Val(Int(t.pos)), Close] + more;
      assert ([Val(Int(t.pos)), Close] + more)[1..] == [Close] + more;
      assert ([Close] + more)[1..] == more;
    } else {
      assert ts[1..][1..][1..] == [Close] + more;
    }
  }

  lemma StructureRead(env: Env, s: Structure, more: Tokens)
    requires FaithfulEnv(env) && RangeInRange(s.source) && RangeInRange(s.sink)
    ensures IsRead(env, Structures, PrintStructure(s), StructureEvent(s), true, more)
  {
    var ts := PrintStructure(s) + more;
    var sink := PrintRange(s.sink) + ([Close] + more);
    assert ts[1..][1..] == PrintRange(s.source) + sink;
    RangeRead(env.cv, s.source, sink);
    RangeRead(env.cv, s.sink, [Close] + more);
    assert ([Close] + more)[1..] == more;
  }

  // ---- structures with named members ----

  lemma StructureKeywords(env: Env)
    requires FaithfulEnv(env)
    ensures env.index(StructureNames, "name") == 0
    ensures env.index(StructureNames, "source") == 1 && env.index(StructureNames, "sink") == 2
  {
    var names := Names(StructureNames);
    assert forall name :: env.index(StructureNames, name) == SNM.Index(SNM.Join(names, ','), ',', name);
    hide FaithfulEnv, SNM.Index, SNM.Join, SNM.Infix;
    assert names[0] == "name" && names[1] == "source" && names[2] == "sink";
    assert SNM.IsTable(names, ',');
    SNM.IndexOfName(names, ',', 0);
    SNM.NoInfix("source", "name", []);
    SNM.IndexOfName(names, ',', 1);
    SNM.NoInfix("sink", "name", [0]);
    SNM.NoInfix("sink", "source", [1, 0, 0]);
    SNM.IndexOfName(names, ',', 2);
  }

  function NamedStructure(s: Structure): Tokens
  {
    [Open, Name("name"), Val(Str(s.name)), Name("source")]
    + (PrintRange(s.source) + ([Name("sink")] + (PrintRange(s.sink) + [Close])))
  }

  /** What follows the name and the word in front of each range. */
  function BehindSource(s: Structure, end: Tokens): Tokens
  {
    PrintRange(s.source) + ([Name("sink")] + BehindSink(s, end))
  }

  function BehindSink(s: Structure, end: Tokens): Tokens { PrintRange(s.sink) + end }

  lemma NamedTokens(s: Structure, more: Tokens)
    ensures var ts := NamedStructure(s) + more;
            && ts[0] == Open && TagOf(ts[1..]) == TagName
            && ts[1..] == [Name("name"), Val(Str(s.name)), Name("source")] + BehindSource(s, [Close] + more)
  {
    hide PrintRange;
  }

  lemma NamedFormRead(env: Env, s: Structure, more: Tokens)
    requires FaithfulEnv(env) && RangeInRange(s.source) && RangeInRange(s.sink)
    ensures ReadStructure(env, NamedStructure(s) + more) == Done(KeptStructure(env, s), more)
  {
    assert Faithful(env.cv) && env.cv.text(Str(s.name)) == Some(s.name);
    StructureKeywords(env);
    var end := [Close] + more;
    RangeRead(env.cv, s.source, [Name("sink")] + BehindSink(s, end));
    RangeRead(env.cv, s.sink, end);
    NamedTokens(s, more);
    assert end[1..] == more;
    hide FaithfulEnv, Faithful, ReadRange, PrintRange, ReadStructureMembers, NamedStructure;
    MembersInOrder(env, (NamedStructure(s) + more)[1..], s, end);
  }

  /** A structure with named members is inserted exactly if it ends within the greatest position; as tuple it always
      is, so that both forms insert the same exactly then. */
  lemma NamedStructureRead(env: Env, s: Structure, more: Tokens)
    requires FaithfulEnv(env) && RangeInRange(s.source) && RangeInRange(s.sink)
    ensures ReadStructure(env, NamedStructure(s) + more) == Done(KeptStructure(env, s), more)
    ensures ReadStructure(env, PrintStructure(s) + more) == Done(StructureEvent(s), more)
    ensures ReadStructure(env, NamedStructure(s) + more) == ReadStructure(env, PrintStructure(s) + more)
       <==> s.source.end <= env.maxpos && s.sink.end <= env.maxpos
  {
    hide ReadStructure, FaithfulEnv, NamedStructure, PrintStructure;
    NamedFormRead(env, s, more);
    TupleFormRead(env, s, more);
  }

  lemma TupleFormRead(env: Env, s: Structure, more: Tokens)
    requires FaithfulEnv(env) && RangeInRange(s.source) && RangeInRange(s.sink)
    ensures ReadStructure(env, PrintStructure(s) + more) == Done(StructureEvent(s), more)
  {
    hide ReadStructure, FaithfulEnv, PrintStructure;
    StructureRead(env, s, more);
  }

  /** Name, source and sink in this order, given how the ranges are read. */
  lemma MembersInOrder(env: Env, ts: Tokens, s: Structure, end: Tokens)
    requires TagOf(end) == TagClose && env.cv.text(Str(s.name)) == Some(s.name)
    requires env.index(StructureNames, "name") == 0
    requires env.index(StructureNames, "source") == 1 && env.index(StructureNames, "sink") == 2
    requires ts == [Name("name"), Val(Str(s.name)), Name("source")] + BehindSource(s, end)
    requires ReadRange(env.cv, BehindSource(s, end)) == Done(s.source, [Name("sink")] + BehindSink(s, end))
    requires ReadRange(env.cv, BehindSink(s, end)) == Done(s.sink, end)
    ensures ReadStructureMembers(env, ts, NO_STRUCTURE)
         == Done(StructureMembers(Some(s.name), Some(s.source), Some(s.sink)), end)
  {
    hide ReadRange, BehindSource, BehindSink;
    var t2, t3 := BehindSource(s, end), BehindSink(s, end);
    var m1 := NO_STRUCTURE.(name := Some(s.name));
    var m2 := m1.(source := Some(s.source));
    assert ts[1..][1..] == [Name("source")] + t2 && ([Name("source")] + t2)[1..] == t2;
    assert ([Name("sink")] + t3)[1..] == t3;
    assert ReadStructureMembers(env, ts, NO_STRUCTURE) == ReadStructureMembers(env, [Name("source")] + t2, m1);
    assert ReadStructureMembers(env, [Name("source")] + t2, m1) == ReadStructureMembers(env, [Name("sink")] + t3, m2);
    var m3 := m2.(sink := Some(s.sink));
    assert ReadStructureMembers(env, [Name("sink")] + t3, m2) == ReadStructureMembers(env, end, m3);
  }

  lemma UserRead(env: Env, user: string, more: Tokens)
    requires FaithfulEnv(env)
    ensures TagOf(PrintUser(user) + more) == TagValue
    ensures ReadUser(env, PrintUser(user) + more) == Done(UserEvent(user), more)
  {
    assert (PrintUser(user) + more)[1..] == more;
  }

  lemma SectionStep(env: Env, k: nat, section: Tokens, rest: Tokens, events: Events, good: bool)
    requires k < |KINDS| && section + rest != []
    requires ReadSection(env, KINDS[k], section + rest) == if good then Done(events, rest) else Fail
    ensures ReadSections(env, k, section + rest)
         == if !good then Fail
            else match ReadSections(env, k + 1, rest)
                 case Done(more, end) => Done(events + more, end)
                 case _ => Fail
  {
  }

  lemma AttributesRead(env: Env, l: seq<Attribute>, rest: Tokens)
    requires FaithfulEnv(env)
    ensures var ts := Section(PrintAll(PrintAttribute, l)) + rest;
            ts != [] && ReadSection(env, Attributes, ts) == Done(Flat(AttributeEvent, l), rest)
  {
    var good := (x: Attribute) => true;
    forall x | x in l ensures ReadsBack(env, Attributes, PrintAttribute, AttributeEvent, good, x) {
      forall more: Tokens { AttributeRead(env, x, more); }
    }
    SectionRead(env, Attributes, PrintAttribute, AttributeEvent, good, l, rest);
  }

  lemma MetaDatasRead(env: Env, l: seq<MetaData>, rest: Tokens)
    requires FaithfulEnv(env) && forall m :: m in l ==> IsNumber(m.value)
    ensures var ts := Section(PrintAll(PrintMetaData, l)) + rest;
            ts != [] && ReadSection(env, MetaDataKind, ts) == Done(Flat(MetaDataEvent, l), rest)
  {
    var good := (x: MetaData) => true;
    forall x | x in l ensures ReadsBack(env, MetaDataKind, PrintMetaData, MetaDataEvent, good, x) {
      forall more: Tokens { MetaDataRead(env, x, more); }
    }
    SectionRead(env, MetaDataKind, PrintMetaData, MetaDataEvent, good, l, rest);
  }

  lemma TermsRead(env: Env, forward: bool, l: seq<Term>, rest: Tokens)
    requires FaithfulEnv(env) && forall t :: t in l ==> t.pos <= UINT_MAX
    ensures var ts := Section(PrintAll(PrintTerm, l)) + rest;
            var f := if forward then ForwardEvent(env.maxpos) else SearchEvent(env.maxpos);
            && ts != []
            && ReadSection(env, if forward then ForwardIndex else SearchIndex, ts)
               == if Positioned(l) then Done(Flat(f, l), rest) else Fail
  {
    var kind := if forward then ForwardIndex else SearchIndex;
    var f := if forward then ForwardEvent(env.maxpos) else SearchEvent(env.maxpos);
    var good := (t: Term) => t.pos >= 1;
    forall x | x in l ensures ReadsBack(env, kind, PrintTerm, f, good, x) {
      forall more: Tokens { TermRead(env, x, forward, more); }
    }
    SectionRead(env, kind, PrintTerm, f, good, l, rest);
  }

  lemma StructureReadsBack(env: Env, s: Structure, good: Structure -> bool)
    requires FaithfulEnv(env) && RangeInRange(s.source) && RangeInRange(s.sink) && good(s)
    ensures ReadsBack(env, Structures, PrintStructure, StructureEvent, good, s)
  {
    forall more: Tokens
      ensures IsRead(env, Structures, PrintStructure(s), StructureEvent(s), true, more)
    {
      StructureRead(env, s, more);
    }
  }

  lemma StructuresRead(env: Env, l: seq<Structure>, rest: Tokens)
    requires FaithfulEnv(env) && forall s :: s in l ==> RangeInRange(s.source) && RangeInRange(s.sink)
    ensures var ts := Section(PrintAll(PrintStructure, l)) + rest;
            ts != [] && ReadSection(env, Structures, ts) == Done(Flat(StructureEvent, l), rest)
  {
    var good := (x: Structure) => true;
    forall x | x in l ensures ReadsBack(env, Structures, PrintStructure, StructureEvent, good, x) {
      StructureReadsBack(env, x, good);
    }
    SectionRead(env, Structures, PrintStructure, StructureEvent, good, l, rest);
  }

  lemma UsersRead(env: Env, l: seq<string>, rest: Tokens)
    requires FaithfulEnv(env)
    ensures var ts := Section(PrintAll(PrintUser, l)) + rest;
            ts != [] && ReadSection(env, AccessRights, ts) == Done(Flat(UserEvent, l), rest)
  {
    var good := (x: string) => true;
    forall x | x in l ensures ReadsBack(env, AccessRights, PrintUser, UserEvent, good, x) {
      forall more: Tokens { UserRead(env, x, more); }
    }
    SectionRead(env, AccessRights, PrintUser, UserEvent, good, l, rest);
  }

  lemma AccessRead(env: Env, l: seq<string>)
    requires FaithfulEnv(env)
    ensures ReadSections(env, 5, if l == [] then [] else Section(PrintAll(PrintUser, l)))
         == Done(Flat(UserEvent, l), [])
  {
    if l != [] {
      var ts := Section(PrintAll(PrintUser, l));
      UsersRead(env, l, []);
      Unit(ts);
      SectionStep(env, 5, ts, [], Flat(UserEvent, l), true);
      Unit(Flat(UserEvent, l));
    }
  }

  /** The sections behind the metadata. */
  lemma IndexRead(env: Env, d: Document)
    requires FaithfulEnv(env) && Storable(d)
    ensures ReadSections(env, 2, IndexTokens(d))
         == if Positioned(d.forwardTerms) && Positioned(d.searchTerms)
            then Done(IndexEvents(d, env.maxpos), []) else Fail
  {
    var access := if d.access == [] then [] else Section(PrintAll(PrintUser, d.access));
    var structures := Section(PrintAll(PrintStructure, d.structures)) + access;
    var search := Section(PrintAll(PrintTerm, d.searchTerms)) + structures;
    AccessRead(env, d.access);
    StructuresRead(env, d.structures, access);
    SectionStep(env, 4, Section(PrintAll(PrintStructure, d.structures)), access,
                Flat(StructureEvent, d.structures), true);
    TermsRead(env, false, d.searchTerms, structures);
    SectionStep(env, 3, Section(PrintAll(PrintTerm, d.searchTerms)), structures,
                Flat(SearchEvent(env.maxpos), d.searchTerms), Positioned(d.searchTerms));
    TermsRead(env, true, d.forwardTerms, search);
    SectionStep(env, 2, Section(PrintAll(PrintTerm, d.forwardTerms)), search,
                Flat(ForwardEvent(env.maxpos), d.forwardTerms), Positioned(d.forwardTerms));
  }

  function IndexTokens(d: Document): Tokens
  {
    Section(PrintAll(PrintTerm, d.forwardTerms))
    + (Section(PrintAll(PrintTerm, d.searchTerms))
    + (Section(PrintAll(PrintStructure, d.structures))
    + (if d.access == [] then [] else Section(PrintAll(PrintUser, d.access)))))
  }

  function IndexEvents(d: Document, maxpos: nat): Events
  {
    Flat(ForwardEvent(maxpos), d.forwardTerms)
    + (Flat(SearchEvent(maxpos), d.searchTerms)
    + (Flat(StructureEvent, d.structures)
    + Flat(UserEvent, d.access)))
  }

  /** The sections behind the document type. */
  lemma ContentRead(env: Env, d: Document)
    requires FaithfulEnv(env) && Storable(d)
    ensures var metadata := Section(PrintAll(PrintMetaData, d.metadata)) + IndexTokens(d);
            ReadSections(env, 0, Section(PrintAll(PrintAttribute, d.attributes)) + metadata)
            == if Positioned(d.forwardTerms) && Positioned(d.searchTerms)
               then Done(Inserted(d, env.maxpos), []) else Fail
  {
    var index := IndexTokens(d);
    var metadata := Section(PrintAll(PrintMetaData, d.metadata)) + index;
    IndexRead(env, d);
    MetaDatasRead(env, d.metadata, index);
    SectionStep(env, 1, Section(PrintAll(PrintMetaData, d.metadata)), index, Flat(MetaDataEvent, d.metadata), true);
    AttributesRead(env, d.attributes, metadata);
    SectionStep(env, 0, Section(PrintAll(PrintAttribute, d.attributes)), metadata,
                Flat(AttributeEvent, d.attributes), true);
  }

  lemma TypeRead(env: Env, docType: string, content: Tokens)
    requires FaithfulEnv(env)
    ensures ReadDocument(env, [Val(Str(docType))] + content) == ReadSections(env, 0, content)
  {
    assert ([Val(Str(docType))] + content)[1..] == content;
  }

  /** Inserting a serialized document tells the storage exactly what is in it, in its order and without the terms at
      positions that are too great: it does so exactly if every term has a position of at least one. */
  lemma DocumentRoundTrip(env: Env, d: Document)
    requires FaithfulEnv(env) && Storable(d)
    ensures ReadDocument(env, PrintDocument(d))
         == if Positioned(d.forwardTerms) && Positioned(d.searchTerms) then Done(Inserted(d, env.maxpos), []) else Fail
  {
    var metadata := Section(PrintAll(PrintMetaData, d.metadata)) + IndexTokens(d);
    ContentRead(env, d);
    TypeRead(env, d.docType, Section(PrintAll(PrintAttribute, d.attributes)) + metadata);
  }
}
